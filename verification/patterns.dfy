/**
 The fixed regular expressions of the geocoder, and a scanner for them.

 Every regex in the source is a plain concatenation: literal characters,
 `\d+`, `[-\w]+`, `[^/@]+` and the decimal group `(-?\d+\.\d+)`. A pattern
 here is that concatenation, piece by piece. The scanner takes the longest
 run at every repeated piece. Python's backtracking matcher finds the same
 match whenever each repeated piece is followed by a literal whose first
 character cannot continue it (`Delimited`), and that holds of every
 pattern of the source. `ScanPiecesComplete` and `SearchFindsLeftmost`
 prove it against `MatchesAt`, which says what a regex match is.
 */
module Patterns {
  import opened Optional
  import opened Text
  import opened Decimals

  datatype Piece =
    | Lit(text: string)                // literal characters
    | Run(cls: CharClass, group: bool) // one or more characters of a class; `group` when parenthesised
    | Number                           // the group (-?\d+\.\d+)

  type Pattern = seq<Piece>

  /** The piece is a parenthesised group, so `re.findall` reports its text. */
  predicate IsGroup(p: Piece) {
    p.Number? || (p.Run? && p.group)
  }

  /** `c` could extend a match of `p` that has just ended. */
  predicate Extends(p: Piece, c: char) {
    match p
    case Lit(_) => false
    case Run(k, _) => InClass(k, c)
    case Number => IsDigit(c)
  }

  /** `t` is matched in full by the piece `p`. */
  ghost predicate Fits(p: Piece, t: string) {
    match p
    case Lit(x) => t == x
    case Run(k, _) => |t| > 0 && forall j :: 0 <= j < |t| ==> InClass(k, t[j])
    case Number => IsDecimal(t)
  }

  function Concat(ts: seq<string>): (r: string) {
    if |ts| == 0 then "" else ts[0] + Concat(ts[1..])
  }

  lemma ConcatCons(w: string, ws: seq<string>)
    ensures Concat([w] + ws) == w + Concat(ws)
  {
    assert ([w] + ws)[1..] == ws;
  }

  lemma Concat3(a: string, b: string, c: string)
    ensures Concat([a, b, c]) == a + b + c
  {
    ConcatCons(c, []);
    ConcatCons(b, [c]);
    ConcatCons(a, [b, c]);
    assert [c] + [] == [c] && [b] + [c] == [b, c] && [a] + [b, c] == [a, b, c];
  }

  lemma Concat4(a: string, b: string, c: string, d: string)
    ensures Concat([a, b, c, d]) == a + b + c + d
  {
    Concat3(b, c, d);
    ConcatCons(a, [b, c, d]);
    assert [a] + [b, c, d] == [a, b, c, d];
  }

  lemma Concat5(a: string, b: string, c: string, d: string, e: string)
    ensures Concat([a, b, c, d, e]) == a + b + c + d + e
  {
    Concat4(b, c, d, e);
    ConcatCons(a, [b, c, d, e]);
    assert [a] + [b, c, d, e] == [a, b, c, d, e];
  }

  /** The regex `pat` matches `s` at `i`, its pieces matching the texts `ws`. */
  ghost predicate MatchesAt(pat: Pattern, s: string, i: nat, ws: seq<string>) {
    && |ws| == |pat|
    && (forall k :: 0 <= k < |pat| ==> Fits(pat[k], ws[k]))
    && OccursAt(Concat(ws), s, i)
  }

  /** Every repeated piece is followed by a literal that stops it. */
  predicate Delimited(pat: Pattern) {
    forall k :: 0 <= k < |pat| - 1 && !pat[k].Lit? ==>
      pat[k + 1].Lit? && |pat[k + 1].text| > 0 && !Extends(pat[k], pat[k + 1].text[0])
  }

  /** Nothing at `j` could extend the last piece of `pat`. */
  predicate Stops(pat: Pattern, s: string, j: nat) {
    |pat| > 0 ==> j >= |s| || !Extends(pat[|pat| - 1], s[j])
  }

  /** The texts `ts` found by the scanner agree with a match `ws` on every
      piece, except that the last piece may have run on further. */
  predicate Greedier(ws: seq<string>, ts: seq<string>) {
    && |ws| == |ts|
    && (forall k :: 0 <= k < |ws| - 1 ==> ws[k] == ts[k])
    && (|ws| > 0 ==> ws[|ws| - 1] <= ts[|ts| - 1])
  }

  /** The longest `-?\d+\.\d+` at `i`, as the end of the match. */
  function ScanNumber(s: string, i: nat): (r: Option<nat>)
    requires i <= |s|
    ensures r.Some? ==> i < r.value <= |s| && IsDecimal(s[i..r.value])
    ensures r.Some? ==> r.value == |s| || !IsDigit(s[r.value])
  {
    var j := if i < |s| && s[i] == '-' then i + 1 else i;
    var dot := RunEnd(DigitClass, s, j);
    if j < dot < |s| && s[dot] == '.' then
      var e := RunEnd(DigitClass, s, dot + 1);
      if dot + 1 < e then
        ScanNumberSound(s, i, j, dot, e);
        Some(e)
      else None
    else None
  }

  lemma ScanNumberSound(s: string, i: nat, j: nat, dot: nat, e: nat)
    requires i <= j <= i + 1 && (j == i + 1 <==> i < |s| && s[i] == '-')
    requires j < dot < e <= |s| && s[dot] == '.' && dot + 1 < e
    requires forall x :: j <= x < dot ==> IsDigit(s[x])
    requires forall x :: dot + 1 <= x < e ==> IsDigit(s[x])
    ensures IsDecimal(s[i..e])
  {
    var t := s[i..e];
    var u := Unsigned(t);
    assert u == s[j..e];
    var d := dot - j;
    assert u[d] == '.';
    assert AllDigits(u[..d]) by {
      forall x | 0 <= x < d ensures IsDigit(u[..d][x]) {
        assert u[..d][x] == s[j + x];
      }
    }
    var frac := u[d + 1..];
    assert AllDigits(frac) by {
      forall x | 0 <= x < |frac| ensures IsDigit(frac[x]) {
        assert frac[x] == s[dot + 1 + x];
      }
    }
  }

  /** The end of the longest match of one piece at `i`. */
  function ScanPiece(p: Piece, s: string, i: nat): (r: Option<nat>)
    requires i <= |s|
    ensures r.Some? ==> i <= r.value <= |s| && Fits(p, s[i..r.value])
    ensures r.Some? ==> r.value == |s| || !Extends(p, s[r.value])
  {
    match p
    case Lit(x) =>
      if OccursAt(x, s, i) then OccursAtIsSlice(x, s, i); Some(i + |x|) else None
    case Run(k, _) =>
      var e := RunEnd(k, s, i);
      if i < e then
        assert forall j :: 0 <= j < e - i ==> s[i..e][j] == s[i + j];
        Some(e)
      else None
    case Number => ScanNumber(s, i)
  }

  /** The scanner: the texts each piece of `pat` matches at `i`, each piece
      taking the longest run it can. */
  function ScanPieces(pat: Pattern, s: string, i: nat): (r: Option<seq<string>>)
    requires i <= |s|
    ensures r.Some? ==> MatchesAt(pat, s, i, r.value)
    decreases |pat|
  {
    if |pat| == 0 then Some([])
    else
      match ScanPiece(pat[0], s, i)
      case None => None
      case Some(e) =>
        match ScanPieces(pat[1..], s, e)
        case None => None
        case Some(rest) =>
          ScanPiecesStep(pat, s, i, e, rest);
          Some([s[i..e]] + rest)
  }

  lemma ScanPiecesStep(pat: Pattern, s: string, i: nat, e: nat, rest: seq<string>)
    requires |pat| > 0 && i <= e <= |s|
    requires Fits(pat[0], s[i..e])
    requires MatchesAt(pat[1..], s, e, rest)
    ensures MatchesAt(pat, s, i, [s[i..e]] + rest)
  {
    var ws := [s[i..e]] + rest;
    assert ws[1..] == rest;
    OccursAtSlice(s, i, e);
    OccursAtConcat(s[i..e], Concat(rest), s, i);
    forall k | 0 <= k < |pat| ensures Fits(pat[k], ws[k]) {
      if k > 0 {
        assert pat[k] == pat[1..][k - 1];
      }
    }
  }

  /** A piece that matches `t` at `i` is found there by the scanner, running
      on past `t` only if the next character could extend it. */
  lemma ScanPieceComplete(p: Piece, t: string, s: string, i: nat)
    requires Fits(p, t) && OccursAt(t, s, i)
    ensures ScanPiece(p, s, i).Some? && i + |t| <= ScanPiece(p, s, i).value
    ensures i + |t| == |s| || !Extends(p, s[i + |t|]) ==> ScanPiece(p, s, i).value == i + |t|
  {
    match p
    case Lit(x) =>
    case Run(k, _) =>
      var e := RunEnd(k, s, i);
      forall x | i <= x < i + |t| ensures InClass(k, s[x]) {
        assert s[i + (x - i)] == t[x - i];
      }
      if i + |t| == |s| || !Extends(p, s[i + |t|]) {
        RunEndUnique(k, s, i, i + |t|);
      }
    case Number =>
      ScanNumberComplete(t, s, i);
  }

  lemma ScanNumberComplete(t: string, s: string, i: nat)
    requires IsDecimal(t) && OccursAt(t, s, i)
    ensures ScanNumber(s, i).Some? && i + |t| <= ScanNumber(s, i).value
    ensures i + |t| == |s| || !IsDigit(s[i + |t|]) ==> ScanNumber(s, i).value == i + |t|
  {
    var j := UnsignedAt(t, s, i);
    DigitsAt(Unsigned(t), s, j);
  }

  /** Past the optional minus sign, where the scanner continues, the
      unsigned part of the decimal occurs. */
  lemma UnsignedAt(t: string, s: string, i: nat) returns (j: nat)
    requires IsDecimal(t) && OccursAt(t, s, i)
    ensures j == if i < |s| && s[i] == '-' then i + 1 else i
    ensures OccursAt(Unsigned(t), s, j) && j + |Unsigned(t)| == i + |t|
  {
    var u := Unsigned(t);
    DotIsRunEnd(t);
    assert s[i + 0] == t[0];
    j := if i < |s| && s[i] == '-' then i + 1 else i;
    forall x | 0 <= x < |u| ensures s[j + x] == u[x] {
      assert s[i + (j - i + x)] == t[j - i + x];
    }
  }

  /** The two digit runs of an unsigned decimal at `j` are what the scanner
      finds there. */
  lemma DigitsAt(u: string, s: string, j: nat)
    requires OccursAt(u, s, j)
    requires var d := RunEnd(DigitClass, u, 0);
             0 < d < |u| - 1 && u[d] == '.' && AllDigits(u[..d]) && AllDigits(u[d + 1..])
    ensures var dot := j + RunEnd(DigitClass, u, 0);
            && RunEnd(DigitClass, s, j) == dot && s[dot] == '.'
            && j + |u| <= RunEnd(DigitClass, s, dot + 1)
            && (j + |u| == |s| || !IsDigit(s[j + |u|]) ==> RunEnd(DigitClass, s, dot + 1) == j + |u|)
  {
    var d := RunEnd(DigitClass, u, 0);
    forall x | j <= x < j + d ensures InClass(DigitClass, s[x]) {
      assert u[..d][x - j] == u[x - j];
    }
    RunEndUnique(DigitClass, s, j, j + d);
    var dot := j + d;
    assert s[j + d] == u[d];
    forall x | dot + 1 <= x < j + |u| ensures InClass(DigitClass, s[x]) {
      assert u[d + 1..][x - dot - 1] == u[x - j];
    }
    if j + |u| == |s| || !IsDigit(s[j + |u|]) {
      RunEndUnique(DigitClass, s, dot + 1, j + |u|);
    }
  }

  /** Whatever texts a regex match of a delimited pattern consists of, the
      scanner finds a match at the same place, equal to it piece by piece
      except that its last piece may be longer (Python's greedy choice). */
  lemma {:induction false} ScanPiecesComplete(pat: Pattern, s: string, i: nat, ws: seq<string>)
    requires i <= |s|
    requires Delimited(pat) && MatchesAt(pat, s, i, ws)
    ensures ScanPieces(pat, s, i).Some?
    ensures Greedier(ws, ScanPieces(pat, s, i).value)
    decreases |pat|
  {
    if |pat| > 0 {
      var e := ScanHead(pat, s, i, ws);
      if |pat| > 1 {
        ScanPiecesComplete(pat[1..], s, e, ws[1..]);
      }
      var rest := ScanPieces(pat[1..], s, e).value;
      ScanPiecesCons(pat, s, i, e, rest);
      assert ws == [ws[0]] + ws[1..];
      GreedierCons(ws[0], ws[1..], s[i..e], rest);
    }
  }

  /** When nothing after a match could extend its last piece, the scanner
      finds exactly that match. */
  lemma {:induction false} ScanPiecesExact(pat: Pattern, s: string, i: nat, ws: seq<string>)
    requires i <= |s|
    requires Delimited(pat) && MatchesAt(pat, s, i, ws)
    requires Stops(pat, s, i + |Concat(ws)|)
    ensures ScanPieces(pat, s, i) == Some(ws)
    decreases |pat|
  {
    if |pat| > 0 {
      var e := ScanHead(pat, s, i, ws);
      assert Concat(ws) == ws[0] + Concat(ws[1..]);
      if |pat| > 1 {
        assert pat[1..][|pat| - 2] == pat[|pat| - 1];
        ScanPiecesExact(pat[1..], s, e, ws[1..]);
      } else {
        assert Concat(ws) == ws[0];
        assert ScanPieces(pat[1..], s, e) == Some([]);
      }
      assert ws[0] == s[i..e];
      ScanPiecesCons(pat, s, i, e, ws[1..]);
      assert ws == [s[i..e]] + ws[1..];
    }
  }

  /** The scanner's first piece covers the match's first text, exactly so
      when more pieces follow; the rest of the match is left for the rest. */
  lemma ScanHead(pat: Pattern, s: string, i: nat, ws: seq<string>) returns (e: nat)
    requires |pat| > 0 && i <= |s|
    requires Delimited(pat) && MatchesAt(pat, s, i, ws)
    ensures ScanPiece(pat[0], s, i) == Some(e) && i <= e <= |s|
    ensures ws[0] <= s[i..e]
    ensures |pat| > 1 ==> ws[0] == s[i..e] && e == i + |ws[0]|
    ensures |pat| > 1 ==> Delimited(pat[1..]) && MatchesAt(pat[1..], s, e, ws[1..])
    ensures |pat| == 1 ==> ws[1..] == []
    ensures |pat| == 1 && Stops(pat, s, i + |ws[0]|) ==> ws[0] == s[i..e]
  {
    MatchesAtSplit(pat, s, i, ws);
    ScanPieceComplete(pat[0], ws[0], s, i);
    e := ScanPiece(pat[0], s, i).value;
    OccursAtIsSlice(ws[0], s, i);
    if |pat| > 1 {
      DelimitedStops(pat, s, i, ws);
      DelimitedTail(pat);
    }
  }

  lemma ScanPiecesCons(pat: Pattern, s: string, i: nat, e: nat, rest: seq<string>)
    requires |pat| > 0 && i <= e <= |s|
    requires ScanPiece(pat[0], s, i) == Some(e)
    requires ScanPieces(pat[1..], s, e) == Some(rest)
    ensures ScanPieces(pat, s, i) == Some([s[i..e]] + rest)
  {
  }

  lemma GreedierCons(w: string, ws: seq<string>, t: string, ts: seq<string>)
    requires Greedier(ws, ts)
    requires |ws| > 0 ==> w == t
    requires w <= t
    ensures Greedier([w] + ws, [t] + ts)
  {
    var a, b := [w] + ws, [t] + ts;
    forall k | 0 <= k < |a| - 1 ensures a[k] == b[k] {
      if k > 0 {
        assert a[k] == ws[k - 1] && b[k] == ts[k - 1];
      }
    }
  }

  /** A match splits into its first piece and a match of the rest. */
  lemma MatchesAtSplit(pat: Pattern, s: string, i: nat, ws: seq<string>)
    requires |pat| > 0 && MatchesAt(pat, s, i, ws)
    ensures Fits(pat[0], ws[0]) && OccursAt(ws[0], s, i)
    ensures MatchesAt(pat[1..], s, i + |ws[0]|, ws[1..])
  {
    assert Concat(ws) == ws[0] + Concat(ws[1..]);
    OccursAtConcat(ws[0], Concat(ws[1..]), s, i);
    forall k | 0 <= k < |pat| - 1 ensures Fits(pat[1..][k], ws[1..][k]) {
      assert pat[1..][k] == pat[k + 1];
    }
  }

  /** In a delimited pattern the character after a repeated piece's text
      cannot extend that piece. */
  lemma DelimitedStops(pat: Pattern, s: string, i: nat, ws: seq<string>)
    requires |pat| > 1 && Delimited(pat) && MatchesAt(pat, s, i, ws)
    ensures !pat[0].Lit? ==> i + |ws[0]| < |s| && !Extends(pat[0], s[i + |ws[0]|])
  {
    MatchesAtSplit(pat, s, i, ws);
    MatchesAtSplit(pat[1..], s, i + |ws[0]|, ws[1..]);
    assert pat[1..][0] == pat[1] && ws[1..][0] == ws[1];
    if !pat[0].Lit? {
      assert s[(i + |ws[0]|) + 0] == ws[1][0];
    }
  }

  lemma DelimitedTail(pat: Pattern)
    requires |pat| > 0 && Delimited(pat)
    ensures Delimited(pat[1..])
  {
    forall k | 0 <= k < |pat[1..]| - 1 && !pat[1..][k].Lit?
      ensures pat[1..][k + 1].Lit? && |pat[1..][k + 1].text| > 0 && !Extends(pat[1..][k], pat[1..][k + 1].text[0])
    {
      assert pat[1..][k] == pat[k + 1];
    }
  }

  datatype Match = Match(pos: nat, texts: seq<string>)

  /** The leftmost position from `i` on where the scanner finds a match. */
  function SearchFrom(pat: Pattern, s: string, i: nat): (r: Option<nat>)
    requires i <= |s|
    ensures r.Some? ==> i <= r.value <= |s| && ScanPieces(pat, s, r.value).Some?
    ensures r.Some? ==> forall q :: i <= q < r.value ==> ScanPieces(pat, s, q).None?
    ensures r.None? ==> forall q :: i <= q <= |s| ==> ScanPieces(pat, s, q).None?
    decreases |s| - i
  {
    if ScanPieces(pat, s, i).Some? then Some(i)
    else if i == |s| then None
    else SearchFrom(pat, s, i + 1)
  }

  /** `re.search`: the match at the leftmost position from `i` on. */
  function Search(pat: Pattern, s: string, i: nat): (r: Option<Match>)
    requires i <= |s|
    ensures r.Some? ==> i <= r.value.pos <= |s| && ScanPieces(pat, s, r.value.pos) == Some(r.value.texts)
    ensures r.Some? ==> forall q :: i <= q < r.value.pos ==> ScanPieces(pat, s, q).None?
    ensures r.None? ==> forall q :: i <= q <= |s| ==> ScanPieces(pat, s, q).None?
  {
    match SearchFrom(pat, s, i)
    case None => None
    case Some(p) => Some(Match(p, ScanPieces(pat, s, p).value))
  }

  /** For a delimited pattern, `Search` reports the leftmost regex match. */
  lemma SearchFindsLeftmost(pat: Pattern, s: string, p: nat, ws: seq<string>)
    requires p <= |s| && Delimited(pat) && MatchesAt(pat, s, p, ws)
    requires forall q, vs :: 0 <= q < p ==> !MatchesAt(pat, s, q, vs)
    ensures Search(pat, s, 0).Some?
    ensures Search(pat, s, 0).value.pos == p
    ensures Greedier(ws, Search(pat, s, 0).value.texts)
    ensures Stops(pat, s, p + |Concat(ws)|) ==> Search(pat, s, 0).value.texts == ws
  {
    ScanPiecesComplete(pat, s, p, ws);
    if Stops(pat, s, p + |Concat(ws)|) {
      ScanPiecesExact(pat, s, p, ws);
    }
    var m := Search(pat, s, 0).value;
    assert MatchesAt(pat, s, m.pos, m.texts);
  }

  /** For a delimited pattern, `Search` fails exactly when there is no match. */
  lemma SearchFailsIffNoMatch(pat: Pattern, s: string)
    requires Delimited(pat)
    ensures Search(pat, s, 0).None? <==> forall q, vs :: 0 <= q <= |s| ==> !MatchesAt(pat, s, q, vs)
  {
    if Search(pat, s, 0).None? {
      forall q, vs | 0 <= q <= |s| ensures !MatchesAt(pat, s, q, vs) {
        if MatchesAt(pat, s, q, vs) {
          ScanPiecesComplete(pat, s, q, vs);
        }
      }
    } else {
      var m := Search(pat, s, 0).value;
      assert MatchesAt(pat, s, m.pos, m.texts);
    }
  }

  /** The group texts of a match, in order: the tuple `re.findall` yields. */
  function Groups(pat: Pattern, ts: seq<string>): (r: seq<string>)
    requires |ts| == |pat|
  {
    if |pat| == 0 then []
    else (if IsGroup(pat[0]) then [ts[0]] else []) + Groups(pat[1..], ts[1..])
  }

  /** A match of a pattern that starts with a literal starts with that
      literal's first character. */
  lemma MatchStartsWithLead(pat: Pattern, s: string, q: nat, vs: seq<string>)
    requires |pat| > 0 && pat[0].Lit? && |pat[0].text| > 0
    requires MatchesAt(pat, s, q, vs)
    ensures q < |s| && s[q] == pat[0].text[0]
  {
    MatchesAtSplit(pat, s, q, vs);
  }

  /** A pattern that starts with a literal cannot match where that literal's
      first character is absent. */
  lemma NoMatchWithoutLead(pat: Pattern, s: string)
    requires |pat| > 0 && pat[0].Lit? && |pat[0].text| > 0
    requires forall q :: 0 <= q < |s| ==> s[q] != pat[0].text[0]
    ensures Search(pat, s, 0).None?
  {
    if Search(pat, s, 0).Some? {
      var m := Search(pat, s, 0).value;
      MatchStartsWithLead(pat, s, m.pos, m.texts);
    }
  }

  lemma {:induction false} GroupsNone(pat: Pattern, ts: seq<string>)
    requires |ts| == |pat|
    requires forall k :: 0 <= k < |pat| ==> !IsGroup(pat[k])
    ensures Groups(pat, ts) == []
    decreases |pat|
  {
    if |pat| > 0 {
      assert forall k :: 0 <= k < |pat| - 1 ==> pat[1..][k] == pat[k + 1];
      GroupsNone(pat[1..], ts[1..]);
    }
  }

  lemma {:induction false} GroupsOne(pat: Pattern, ts: seq<string>, a: nat)
    requires |ts| == |pat| && a < |pat| && IsGroup(pat[a])
    requires forall k :: 0 <= k < |pat| && k != a ==> !IsGroup(pat[k])
    ensures Groups(pat, ts) == [ts[a]]
    decreases |pat|
  {
    assert forall k :: 0 <= k < |pat| - 1 ==> pat[1..][k] == pat[k + 1];
    if a == 0 {
      GroupsNone(pat[1..], ts[1..]);
    } else {
      GroupsOne(pat[1..], ts[1..], a - 1);
    }
  }

  /** The groups of a pattern with exactly two groups, at `a` and `b`. */
  lemma {:induction false} GroupsTwo(pat: Pattern, ts: seq<string>, a: nat, b: nat)
    requires |ts| == |pat| && a < b < |pat| && IsGroup(pat[a]) && IsGroup(pat[b])
    requires forall k :: 0 <= k < |pat| && k != a && k != b ==> !IsGroup(pat[k])
    ensures Groups(pat, ts) == [ts[a], ts[b]]
    decreases |pat|
  {
    assert forall k :: 0 <= k < |pat| - 1 ==> pat[1..][k] == pat[k + 1];
    if a == 0 {
      GroupsOne(pat[1..], ts[1..], b - 1);
    } else {
      GroupsTwo(pat[1..], ts[1..], a - 1, b - 1);
    }
  }
}
