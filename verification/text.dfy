/** Optional values, standing in for Python's `None`. */
module Optional {

  datatype Option<+T> = None | Some(value: T)
}

/**
 Character classes and small facts about strings that the scanners share.
 Classes are ASCII-only: `\d` is 0-9 and `\w` is letters, digits and `_`.
 */
module Text {

  predicate IsDigit(c: char) {
    '0' <= c <= '9'
  }

  predicate IsAsciiLetter(c: char) {
    'a' <= c <= 'z' || 'A' <= c <= 'Z'
  }

  /** `\w` */
  predicate IsWordChar(c: char) {
    IsAsciiLetter(c) || IsDigit(c) || c == '_'
  }

  predicate AllDigits(t: string) {
    forall j :: 0 <= j < |t| ==> IsDigit(t[j])
  }

  /** The classes of the repeated (`+`) pieces that occur in the source's regexes. */
  datatype CharClass =
    | DigitClass    // \d
    | WordClass     // [-\w]
    | SegmentClass  // [^/@]
    | AsciiClass    // [\x00-\x7f]

  predicate InClass(k: CharClass, c: char) {
    match k
    case DigitClass => IsDigit(c)
    case WordClass => IsWordChar(c) || c == '-'
    case SegmentClass => c != '/' && c != '@'
    case AsciiClass => c as int < 0x80
  }

  /** End of the longest run of `k` characters of `s` that starts at `i`. */
  function RunEnd(k: CharClass, s: string, i: nat): (e: nat)
    requires i <= |s|
    ensures i <= e <= |s|
    ensures forall j :: i <= j < e ==> InClass(k, s[j])
    ensures e == |s| || !InClass(k, s[e])
    decreases |s| - i
  {
    if i < |s| && InClass(k, s[i]) then RunEnd(k, s, i + 1) else i
  }

  /** A run is determined by where it starts: any stretch of `k` characters
      that cannot be extended is the one `RunEnd` finds. */
  lemma RunEndUnique(k: CharClass, s: string, i: nat, e: nat)
    requires i <= e <= |s|
    requires forall j :: i <= j < e ==> InClass(k, s[j])
    requires e == |s| || !InClass(k, s[e])
    ensures RunEnd(k, s, i) == e
  {
  }

  /** `t` occurs in `s` starting at index `i`. */
  predicate OccursAt(t: string, s: string, i: nat) {
    i + |t| <= |s| && forall k :: 0 <= k < |t| ==> s[i + k] == t[k]
  }

  lemma OccursAtSlice(s: string, i: nat, e: nat)
    requires i <= e <= |s|
    ensures OccursAt(s[i..e], s, i)
  {
  }

  lemma OccursAtConcat(a: string, b: string, s: string, i: nat)
    ensures OccursAt(a + b, s, i) <==> OccursAt(a, s, i) && OccursAt(b, s, i + |a|)
  {
    if OccursAt(a, s, i) && OccursAt(b, s, i + |a|) {
      forall k | 0 <= k < |a + b|
        ensures s[i + k] == (a + b)[k]
      {
        if k >= |a| {
          assert s[(i + |a|) + (k - |a|)] == b[k - |a|];
        }
      }
    }
    if OccursAt(a + b, s, i) {
      forall k | 0 <= k < |a|
        ensures s[i + k] == a[k]
      {
        assert s[i + k] == (a + b)[k];
      }
      forall k | 0 <= k < |b|
        ensures s[i + |a| + k] == b[k]
      {
        assert s[i + (|a| + k)] == (a + b)[|a| + k];
      }
    }
  }

  /** An occurrence of `t` at `i` is the slice of `s` it covers. */
  lemma OccursAtIsSlice(t: string, s: string, i: nat)
    requires OccursAt(t, s, i)
    ensures s[i..i + |t|] == t
  {
  }

  /** Python's `', '.join(parts)` for any separator. */
  function Join(parts: seq<string>, sep: string): (r: string)
    ensures |parts| == 1 ==> r == parts[0]
  {
    if |parts| == 0 then ""
    else if |parts| == 1 then parts[0]
    else parts[0] + sep + Join(parts[1..], sep)
  }

  /** Python's `t.replace(a, b)` for single characters. */
  function ReplaceChar(t: string, a: char, b: char): (r: string)
    ensures |r| == |t|
    ensures forall j :: 0 <= j < |t| ==> r[j] == (if t[j] == a then b else t[j])
  {
    if |t| == 0 then "" else [if t[0] == a then b else t[0]] + ReplaceChar(t[1..], a, b)
  }

  /** Python's `str.isspace()` for one character: the characters whose
      bidirectional class is WS, B or S, or whose category is Zs. */
  predicate IsSpace(c: char) {
    || ('\t' <= c <= '\r')
    || ('\U{1c}' <= c <= '\U{1f}')
    || c == ' ' || c == '\U{85}' || c == '\U{a0}' || c == '\U{1680}'
    || ('\U{2000}' <= c <= '\U{200a}')
    || c == '\U{2028}' || c == '\U{2029}' || c == '\U{202f}' || c == '\U{205f}' || c == '\U{3000}'
  }

  /** Every character of `t` is whitespace. */
  predicate IsBlank(t: string) {
    forall j :: 0 <= j < |t| ==> IsSpace(t[j])
  }

  /** `t.lstrip()` */
  function LStrip(t: string): (r: string) {
    if |t| > 0 && IsSpace(t[0]) then LStrip(t[1..]) else t
  }

  /** `t.rstrip()` */
  function RStrip(t: string): (r: string) {
    if |t| > 0 && IsSpace(t[|t| - 1]) then RStrip(t[..|t| - 1]) else t
  }

  /** `t.strip()` */
  function Strip(t: string): (r: string) {
    RStrip(LStrip(t))
  }

  /** `lstrip` drops a blank prefix and stops at a character that is not
      whitespace. */
  lemma {:induction false} LStripSpec(t: string) returns (k: nat)
    ensures k <= |t| && LStrip(t) == t[k..] && IsBlank(t[..k])
    ensures LStrip(t) == [] || !IsSpace(LStrip(t)[0])
    decreases |t|
  {
    if |t| > 0 && IsSpace(t[0]) {
      var k' := LStripSpec(t[1..]);
      k := k' + 1;
      assert t[1..][k'..] == t[k..];
      assert forall j :: 1 <= j < k ==> t[..k][j] == t[1..][..k'][j - 1];
    } else {
      k := 0;
    }
  }

  /** `rstrip` drops a blank suffix and stops at a character that is not
      whitespace. */
  lemma {:induction false} RStripSpec(t: string) returns (k: nat)
    ensures k <= |t| && RStrip(t) == t[..k] && IsBlank(t[k..])
    ensures RStrip(t) == [] || !IsSpace(RStrip(t)[|RStrip(t)| - 1])
    decreases |t|
  {
    if |t| > 0 && IsSpace(t[|t| - 1]) {
      var u := t[..|t| - 1];
      k := RStripSpec(u);
      assert u[..k] == t[..k];
      assert forall j :: 0 <= j < |u| - k ==> t[k..][j] == u[k..][j];
    } else {
      k := |t|;
    }
  }

  /** `t.strip()` is empty exactly when every character of `t` is
      whitespace. */
  lemma StripEmptyIffBlank(t: string)
    ensures Strip(t) == [] <==> IsBlank(t)
  {
    var k := LStripSpec(t);
    var u := LStrip(t);
    var m := RStripSpec(u);
    assert |u| > 0 ==> u[0] == t[k];
    if Strip(t) == [] {
      assert m == 0 && u[m..] == u;
      assert forall j :: 0 <= j < |t| ==> IsSpace(t[j]) by {
        forall j | 0 <= j < |t| ensures IsSpace(t[j]) {
          assert |u| == 0 && k == |t|;
          assert t[..k][j] == t[j];
        }
      }
    }
  }
}
