/**
 Coordinate extraction from a Google Maps URL (`extract_lat_long`) and from
 the HTML of a search result page (`extract_lat_long_from_html`).
 */
module Extract {
  import opened Optional
  import opened Text
  import opened Decimals
  import opened Patterns

  /** `@(-?\d+\.\d+),(-?\d+\.\d+)` */
  const AtPair: Pattern := [Lit("@"), Number, Lit(","), Number]

  /** `!3d(-?\d+\.\d+)!4d(-?\d+\.\d+)` */
  const BangPair: Pattern := [Lit("!3d"), Number, Lit("!4d"), Number]

  /** `\[\d+,"[-\w]+",\d+,\d+,null,null,(-?\d+\.\d+),(-?\d+\.\d+)\]` */
  const JsonArray: Pattern :=
    [ Lit("["), Run(DigitClass, false), Lit(",\""), Run(WordClass, false), Lit("\","),
      Run(DigitClass, false), Lit(","), Run(DigitClass, false), Lit(",null,null,"),
      Number, Lit(","), Number, Lit("]") ]

  /** `"(-?\d+\.\d+),(-?\d+\.\d+)"` */
  const QuotedPair: Pattern := [Lit("\""), Number, Lit(","), Number, Lit("\"")]

  /** `center=(-?\d+\.\d+),(-?\d+\.\d+)` */
  const CenterParam: Pattern := [Lit("center="), Number, Lit(","), Number]

  /** The HTML patterns, in the order they are tried. */
  const HtmlPatterns: seq<Pattern> := [JsonArray, QuotedPair, CenterParam, AtPair, BangPair]

  datatype Coordinate = Coordinate(lat: Decimal, lng: Decimal)

  predicate InRange(c: Coordinate) {
    -90.0 <= c.lat.value <= 90.0 && -180.0 <= c.lng.value <= 180.0
  }

  /** The coordinate the pattern's first match in `s` denotes: `matches[0]`
      when it is a pair of numbers, nothing when there is no match. */
  function FirstPair(pat: Pattern, s: string): (r: Option<Coordinate>) {
    match Search(pat, s, 0)
    case None => None
    case Some(m) =>
      var g := Groups(pat, m.texts);
      if |g| == 2 && IsDecimal(g[0]) && IsDecimal(g[1]) then Some(Coordinate(Parse(g[0]), Parse(g[1])))
      else None
  }

  /** `extract_lat_long`: the first `@lat,lng` of the URL, else its first
      `!3dlat!4dlng`; no range check. */
  function ExtractFromUrl(url: string): (r: Option<Coordinate>) {
    match FirstPair(AtPair, url)
    case Some(c) => Some(c)
    case None => FirstPair(BangPair, url)
  }

  /** A candidate the range check lets through. */
  predicate Acceptable(c: Option<Coordinate>) {
    c.Some? && InRange(c.value)
  }

  /** What each pattern's first match in `s` denotes, pattern by pattern. */
  function Candidates(pats: seq<Pattern>, s: string): (r: seq<Option<Coordinate>>)
  {
    seq(|pats|, k requires 0 <= k < |pats| => FirstPair(pats[k], s))
  }

  /** The loop of `extract_lat_long_from_html`: the first candidate that is
      in range, if any. */
  function FirstInRange(cs: seq<Option<Coordinate>>): (r: Option<Coordinate>)
    ensures r.Some? ==> InRange(r.value)
    ensures r.None? <==> forall k :: 0 <= k < |cs| ==> !Acceptable(cs[k])
  {
    if |cs| == 0 then None
    else if Acceptable(cs[0]) then cs[0]
    else
      assert forall k :: 1 <= k < |cs| ==> cs[k] == cs[1..][k - 1];
      FirstInRange(cs[1..])
  }

  /** Candidates are tried in order: the result is the first acceptable one,
      whatever comes after it. */
  lemma {:induction false} FirstInRangeIsFirst(cs: seq<Option<Coordinate>>, k: nat)
    requires k < |cs| && Acceptable(cs[k])
    requires forall j :: 0 <= j < k ==> !Acceptable(cs[j])
    ensures FirstInRange(cs) == cs[k]
  {
    if k > 0 {
      assert !Acceptable(cs[0]);
      assert forall j :: 0 <= j < k - 1 ==> cs[1..][j] == cs[j + 1];
      FirstInRangeIsFirst(cs[1..], k - 1);
    }
  }

  /** `extract_lat_long_from_html` */
  function ExtractFromHtml(html: string): (r: Option<Coordinate>) {
    FirstInRange(Candidates(HtmlPatterns, html))
  }

  /** `pat` is delimited and has exactly two groups, both numbers, at `a` and `b`. */
  predicate PairShape(pat: Pattern, a: nat, b: nat) {
    && Delimited(pat)
    && a < b < |pat| && pat[a] == Number && pat[b] == Number
    && forall k :: 0 <= k < |pat| && k != a && k != b ==> !IsGroup(pat[k])
  }

  lemma JsonArrayShape()
    ensures PairShape(JsonArray, 9, 11)
  {
    forall k | 0 <= k < |JsonArray| - 1 && !JsonArray[k].Lit?
      ensures JsonArray[k + 1].Lit? && |JsonArray[k + 1].text| > 0 && !Extends(JsonArray[k], JsonArray[k + 1].text[0])
    {
      assert k == 1 || k == 3 || k == 5 || k == 7 || k == 9 || k == 11;
    }
  }

  lemma ShortPatternShape(pat: Pattern)
    requires pat == QuotedPair || pat == CenterParam || pat == AtPair || pat == BangPair
    ensures PairShape(pat, 1, 3)
  {
    if pat == QuotedPair {
      QuotedPairShape();
    } else {
      LeadPairShape(pat);
    }
  }

  lemma QuotedPairShape()
    ensures PairShape(QuotedPair, 1, 3)
  {
  }

  lemma LeadPairShape(pat: Pattern)
    requires pat == CenterParam || pat == AtPair || pat == BangPair
    ensures PairShape(pat, 1, 3)
  {
  }

  /** Every coordinate pattern is delimited and has exactly two groups,
      both numbers. */
  lemma PairPattern(pat: Pattern) returns (a: nat, b: nat)
    requires pat in HtmlPatterns
    ensures PairShape(pat, a, b)
  {
    if pat == JsonArray {
      a, b := 9, 11;
      JsonArrayShape();
    } else {
      a, b := 1, 3;
      ShortPatternShape(pat);
    }
  }

  /** `matches[0]` of a coordinate pattern is always a tuple of two numbers,
      so the tuple check and `float()` never reject it: the pattern yields a
      coordinate exactly when it matches at all. */
  lemma FirstPairOfSearch(pat: Pattern, s: string) returns (a: nat, b: nat)
    requires pat in HtmlPatterns
    ensures PairShape(pat, a, b)
    ensures Search(pat, s, 0).None? <==> FirstPair(pat, s).None?
    ensures Search(pat, s, 0).Some? ==>
              var ts := Search(pat, s, 0).value.texts;
              |ts| == |pat| && IsDecimal(ts[a]) && IsDecimal(ts[b])
              && FirstPair(pat, s) == Some(Coordinate(Parse(ts[a]), Parse(ts[b])))
  {
    a, b := PairPattern(pat);
    if Search(pat, s, 0).Some? {
      var m := Search(pat, s, 0).value;
      assert MatchesAt(pat, s, m.pos, m.texts);
      assert Fits(pat[a], m.texts[a]) && Fits(pat[b], m.texts[b]);
      GroupsTwo(pat, m.texts, a, b);
    }
  }

  /** A coordinate pattern yields the pair of its leftmost regex match: the
      latitude exactly, the longitude at least as long as the match's (the
      last group is greedy), and exactly when nothing could extend it. */
  lemma FirstPairIsLeftmost(pat: Pattern, s: string, p: nat, ws: seq<string>) returns (a: nat, b: nat)
    requires pat in HtmlPatterns
    requires p <= |s| && MatchesAt(pat, s, p, ws)
    requires forall q, vs :: 0 <= q < p ==> !MatchesAt(pat, s, q, vs)
    ensures PairShape(pat, a, b)
    ensures FirstPair(pat, s).Some? && IsDecimal(ws[a]) && IsDecimal(ws[b])
    ensures FirstPair(pat, s).value.lat == Parse(ws[a])
    ensures ws[b] <= FirstPair(pat, s).value.lng.text
    ensures Stops(pat, s, p + |Concat(ws)|) ==> FirstPair(pat, s) == Some(Coordinate(Parse(ws[a]), Parse(ws[b])))
  {
    a, b := FirstPairOfSearch(pat, s);
    SearchFindsLeftmost(pat, s, p, ws);
    var ts := Search(pat, s, 0).value.texts;
    assert Fits(pat[a], ws[a]) && Fits(pat[b], ws[b]);
    GreedierAt(ws, ts, a);
    GreedierAt(ws, ts, b);
  }

  lemma GreedierAt(ws: seq<string>, ts: seq<string>, k: nat)
    requires Greedier(ws, ts) && k < |ws|
    ensures ws[k] <= ts[k]
    ensures k < |ws| - 1 ==> ws[k] == ts[k]
  {
  }

  /** A coordinate pattern yields nothing exactly when it has no match. */
  lemma FirstPairNoneIffNoMatch(pat: Pattern, s: string)
    requires pat in HtmlPatterns
    ensures FirstPair(pat, s).None? <==> forall q, vs :: 0 <= q <= |s| ==> !MatchesAt(pat, s, q, vs)
  {
    var a, b := FirstPairOfSearch(pat, s);
    SearchFailsIffNoMatch(pat, s);
  }

  /** URL priority: the leftmost `@lat,lng` match decides the result, even
      when a `!3d…!4d…` match comes earlier in the URL, and no range check is
      applied. */
  lemma UrlPrefersAtPair(url: string, p: nat, ws: seq<string>)
    requires p <= |url| && MatchesAt(AtPair, url, p, ws)
    requires forall q, vs :: 0 <= q < p ==> !MatchesAt(AtPair, url, q, vs)
    ensures IsDecimal(ws[1]) && IsDecimal(ws[3])
    ensures ExtractFromUrl(url).Some? && ExtractFromUrl(url).value.lat == Parse(ws[1])
    ensures ws[3] <= ExtractFromUrl(url).value.lng.text
    ensures Stops(AtPair, url, p + |Concat(ws)|) ==> ExtractFromUrl(url) == Some(Coordinate(Parse(ws[1]), Parse(ws[3])))
  {
    var a, b := FirstPairIsLeftmost(AtPair, url, p, ws);
  }

  /** The `!3d…!4d…` pattern is consulted only when the URL has no `@`
      match at all. */
  lemma UrlFallsBackToBangPair(url: string)
    requires forall q, vs :: 0 <= q <= |url| ==> !MatchesAt(AtPair, url, q, vs)
    ensures ExtractFromUrl(url) == FirstPair(BangPair, url)
  {
    FirstPairNoneIffNoMatch(AtPair, url);
  }

  /** The URL yields nothing exactly when it has neither kind of match. */
  lemma UrlNoneIffNoMatch(url: string)
    ensures ExtractFromUrl(url).None? <==>
              (forall q, vs :: 0 <= q <= |url| ==> !MatchesAt(AtPair, url, q, vs))
              && (forall q, vs :: 0 <= q <= |url| ==> !MatchesAt(BangPair, url, q, vs))
  {
    FirstPairNoneIffNoMatch(AtPair, url);
    FirstPairNoneIffNoMatch(BangPair, url);
  }

  /** HTML pattern order: the result is the first match of the first pattern,
      in list order, whose first match is in range; later patterns and later
      matches are not looked at. */
  lemma HtmlPatternOrder(html: string, k: nat)
    requires k < |HtmlPatterns| && Acceptable(FirstPair(HtmlPatterns[k], html))
    requires forall j :: 0 <= j < k ==> !Acceptable(FirstPair(HtmlPatterns[j], html))
    ensures ExtractFromHtml(html) == FirstPair(HtmlPatterns[k], html)
  {
    FirstInRangeIsFirst(Candidates(HtmlPatterns, html), k);
  }

  /** The HTML yields nothing exactly when no pattern's first match is in
      range; and whatever it yields is in range. */
  lemma HtmlNoneIffNoneAcceptable(html: string)
    ensures ExtractFromHtml(html).None? <==> forall k :: 0 <= k < |HtmlPatterns| ==> !Acceptable(FirstPair(HtmlPatterns[k], html))
    ensures ExtractFromHtml(html).Some? ==> InRange(ExtractFromHtml(html).value)
  {
    var cs := Candidates(HtmlPatterns, html);
    assert forall k :: 0 <= k < |HtmlPatterns| ==> cs[k] == FirstPair(HtmlPatterns[k], html);
  }
}
