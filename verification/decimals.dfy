/**
 Decimal numbers as the source's regexes capture them: the group
 `(-?\d+\.\d+)`. A captured number is kept as its matched text together with
 its exact value as a `real`, which is what Python's `float()` approximates.
 */
module Decimals {
  import opened Text

  /** The text after an optional leading minus sign. */
  function Unsigned(t: string): (r: string) {
    if |t| > 0 && t[0] == '-' then t[1..] else t
  }

  /** `t` is matched in full by `-?\d+\.\d+`. */
  predicate IsDecimal(t: string) {
    var u := Unsigned(t);
    exists d :: 0 < d < |u| - 1 && u[d] == '.' && AllDigits(u[..d]) && AllDigits(u[d + 1..])
  }

  /** The natural number a string of decimal digits denotes. */
  function DigitsValue(ds: string): (r: nat)
    requires AllDigits(ds)
    decreases |ds|
  {
    if |ds| == 0 then 0
    else 10 * DigitsValue(ds[..|ds| - 1]) + (ds[|ds| - 1] as int - '0' as int)
  }

  function Pow10(n: nat): (r: nat)
    ensures r >= 1
  {
    if n == 0 then 1 else 10 * Pow10(n - 1)
  }

  /** The dot of a decimal is where its integer digits stop. */
  lemma DotIsRunEnd(t: string)
    requires IsDecimal(t)
    ensures var u := Unsigned(t);
            var d := RunEnd(DigitClass, u, 0);
            0 < d < |u| - 1 && u[d] == '.' && AllDigits(u[..d]) && AllDigits(u[d + 1..])
  {
    var u := Unsigned(t);
    var d :| 0 < d < |u| - 1 && u[d] == '.' && AllDigits(u[..d]) && AllDigits(u[d + 1..]);
    forall j | 0 <= j < d
      ensures InClass(DigitClass, u[j])
    {
      assert u[..d][j] == u[j];
    }
    RunEndUnique(DigitClass, u, 0, d);
  }

  datatype Decimal = Decimal(text: string, value: real)

  /** The value of integer digits `w` followed by fraction digits `f`. */
  function Magnitude(w: string, f: string): (r: real)
    requires AllDigits(w) && AllDigits(f)
    ensures r >= 0.0
  {
    var whole := DigitsValue(w) as real;
    var scale := Pow10(|f|) as real;
    assert scale >= 1.0;
    whole + DigitsValue(f) as real / scale
  }

  /** What `float(t)` denotes for a matched decimal `t`, computed exactly. */
  function Parse(t: string): (r: Decimal)
    requires IsDecimal(t)
    ensures r.text == t
    ensures r.value < 0.0 ==> t[0] == '-'
  {
    DotIsRunEnd(t);
    var u := Unsigned(t);
    var d := RunEnd(DigitClass, u, 0);
    var magnitude := Magnitude(u[..d], u[d + 1..]);
    Decimal(t, if |t| > 0 && t[0] == '-' then -magnitude else magnitude)
  }

  /** The value of a decimal is its integer digits plus its fraction digits
      scaled down by their count, negated when it has a leading minus. */
  lemma ParseParts(sign: string, w: string, f: string)
    requires sign == "" || sign == "-"
    requires |w| > 0 && |f| > 0 && AllDigits(w) && AllDigits(f)
    ensures IsDecimal(sign + (w + "." + f))
    ensures var magnitude := DigitsValue(w) as real + DigitsValue(f) as real / Pow10(|f|) as real;
            Parse(sign + (w + "." + f)).value == if sign == "-" then -magnitude else magnitude
  {
    var u := w + "." + f;
    var t := sign + u;
    SplitAtDot(w, f);
    assert Unsigned(t) == u && (t[0] == '-' <==> sign == "-") by {
      assert InClass(DigitClass, w[0]);
      if sign == "-" {
        assert t[1..] == u;
      } else {
        assert t == u;
      }
    }
    assert IsDecimal(t) by {
      assert 0 < |w| < |u| - 1 && u[|w|] == '.' && AllDigits(u[..|w|]) && AllDigits(u[|w| + 1..]);
    }
    ParseOfSplit(t, w, f);
  }

  /** `Parse` reads the integer and fraction digits off the dot it finds. */
  lemma ParseOfSplit(t: string, w: string, f: string)
    requires IsDecimal(t) && AllDigits(w) && AllDigits(f)
    requires var u := Unsigned(t);
             RunEnd(DigitClass, u, 0) == |w| < |u| && u[..|w|] == w && u[|w| + 1..] == f
    ensures Parse(t).value == if t[0] == '-' then -Magnitude(w, f) else Magnitude(w, f)
  {
  }

  /** An unsigned decimal: its integer digits stop at its dot. */
  lemma SplitAtDot(w: string, f: string)
    requires |w| > 0 && AllDigits(w)
    ensures var u := w + "." + f;
            u[0] != '-' && u[|w|] == '.' && u[..|w|] == w && u[|w| + 1..] == f
            && RunEnd(DigitClass, u, 0) == |w|
  {
    var u := w + "." + f;
    assert u[..|w|] == w && u[|w| + 1..] == f && u[|w|] == '.';
    forall j | 0 <= j < |w| ensures InClass(DigitClass, u[j]) {
      assert u[j] == w[j];
    }
    RunEndUnique(DigitClass, u, 0, |w|);
  }
}
