/**
 The extractors' promises on pages and URLs of a given shape: which match
 wins, and that the range check applies to the HTML path only.
 */
module ExtractExamples {
  import opened Optional
  import opened Text
  import opened Decimals
  import opened Patterns
  import opened Extract

  /** A literal placed between two strings occurs right after the first. */
  lemma OccursBetween(pre: string, lit: string, post: string)
    ensures OccursAt(lit, pre + lit + post, |pre|)
  {
    var s := pre + lit + post;
    forall k | 0 <= k < |lit| ensures s[|pre| + k] == lit[k] {
    }
  }

  /** `t` does not contain `c`. */
  predicate Avoids(t: string, c: char) {
    forall j :: 0 <= j < |t| ==> t[j] != c
  }

  lemma AvoidsConcat(a: string, b: string, c: char)
    requires Avoids(a, c) && Avoids(b, c)
    ensures Avoids(a + b, c)
  {
    forall j | 0 <= j < |a + b| ensures (a + b)[j] != c {
      if j >= |a| {
        assert (a + b)[j] == b[j - |a|];
      }
    }
  }

  /** A decimal consists of digits, a minus sign and a dot only. */
  lemma DecimalAvoids(t: string, c: char)
    requires IsDecimal(t) && !IsDigit(c) && c != '-' && c != '.'
    ensures Avoids(t, c)
  {
    var u := Unsigned(t);
    var d :| 0 < d < |u| - 1 && u[d] == '.' && AllDigits(u[..d]) && AllDigits(u[d + 1..]);
    var frac := u[d + 1..];
    forall j | 0 <= j < |u| ensures u[j] != c {
      if j < d {
        assert u[..d][j] == u[j];
      } else if j > d {
        assert frac[j - d - 1] == u[j];
      }
    }
    forall j | 0 <= j < |t| ensures t[j] != c {
      if t[0] == '-' && j > 0 {
        assert u[j - 1] == t[j];
      }
    }
  }

  /** A pattern whose leading literal starts with a character the text does
      not contain yields nothing. */
  lemma NoLeadNoPair(pat: Pattern, s: string)
    requires |pat| > 0 && pat[0].Lit? && |pat[0].text| > 0 && Avoids(s, pat[0].text[0])
    ensures FirstPair(pat, s).None?
  {
    NoMatchWithoutLead(pat, s);
  }

  /** `x a y b` matches `[Lit(x), Number, Lit(y), Number]` where it occurs. */
  lemma FourPieceMatch(x: string, y: string, a: string, b: string, s: string, p: nat)
    requires IsDecimal(a) && IsDecimal(b) && OccursAt(x + a + y + b, s, p)
    ensures MatchesAt([Lit(x), Number, Lit(y), Number], s, p, [x, a, y, b])
  {
    Concat4(x, a, y, b);
  }

  /** The pattern's leading literal occurs nowhere before `|pre|`, so
      there is no earlier match. */
  lemma NoMatchBefore(pat: Pattern, pre: string, s: string)
    requires |pat| > 0 && pat[0].Lit? && |pat[0].text| > 0
    requires Avoids(pre, pat[0].text[0]) && pre <= s
    ensures forall q, vs :: 0 <= q < |pre| ==> !MatchesAt(pat, s, q, vs)
  {
    forall q, vs | 0 <= q < |pre| ensures !MatchesAt(pat, s, q, vs) {
      if MatchesAt(pat, s, q, vs) {
        MatchStartsWithLead(pat, s, q, vs);
      }
    }
  }

  /** `pre x a y b post` with no `x[0]` in `pre` matches the pattern at
      `|pre|` first, and nothing can extend the match. */
  lemma FourPieceLeftmost(pat: Pattern, x: string, y: string, pre: string, a: string, b: string, post: string)
    requires pat == [Lit(x), Number, Lit(y), Number] && |x| > 0
    requires IsDecimal(a) && IsDecimal(b) && Avoids(pre, x[0])
    requires post == "" || !IsDigit(post[0])
    ensures var s := pre + x + a + y + b + post;
            && MatchesAt(pat, s, |pre|, [x, a, y, b])
            && (forall q, vs :: 0 <= q < |pre| ==> !MatchesAt(pat, s, q, vs))
            && Stops(pat, s, |pre| + |Concat([x, a, y, b])|)
  {
    var lit := x + a + y + b;
    var s := pre + lit + post;
    assert s == pre + x + a + y + b + post;
    assert MatchesAt(pat, s, |pre|, [x, a, y, b]) by {
      OccursBetween(pre, lit, post);
      FourPieceMatch(x, y, a, b, s, |pre|);
    }
    assert forall q, vs :: 0 <= q < |pre| ==> !MatchesAt(pat, s, q, vs) by {
      NoMatchBefore(pat, pre, s);
    }
    assert Stops(pat, s, |pre| + |Concat([x, a, y, b])|) by {
      Concat4(x, a, y, b);
      if post != "" {
        assert s[|pre| + |lit|] == post[0];
      }
    }
  }

  /** A leftmost, unextendable match of a four-piece coordinate pattern is
      its first pair. */
  lemma FourPieceMatchFirst(pat: Pattern, s: string, p: nat, ws: seq<string>)
    requires pat == AtPair || pat == CenterParam
    requires |ws| == 4 && p <= |s| && MatchesAt(pat, s, p, ws)
    requires forall q, vs :: 0 <= q < p ==> !MatchesAt(pat, s, q, vs)
    requires Stops(pat, s, p + |Concat(ws)|)
    ensures IsDecimal(ws[1]) && IsDecimal(ws[3])
    ensures FirstPair(pat, s) == Some(Coordinate(Parse(ws[1]), Parse(ws[3])))
  {
    assert pat in HtmlPatterns;
    var i, j := FirstPairIsLeftmost(pat, s, p, ws);
    assert i == 1 && j == 3;
  }

  /** For a four-piece coordinate pattern, the pair right after a prefix
      free of the pattern's lead character is the pattern's first pair. */
  lemma FourPieceFirst(pat: Pattern, x: string, y: string, pre: string, a: string, b: string, post: string)
    requires pat == AtPair || pat == CenterParam
    requires pat == [Lit(x), Number, Lit(y), Number] && |x| > 0
    requires IsDecimal(a) && IsDecimal(b) && Avoids(pre, x[0])
    requires post == "" || !IsDigit(post[0])
    ensures FirstPair(pat, pre + x + a + y + b + post) == Some(Coordinate(Parse(a), Parse(b)))
  {
    FourPieceLeftmost(pat, x, y, pre, a, b, post);
    FourPieceMatchFirst(pat, pre + x + a + y + b + post, |pre|, [x, a, y, b]);
  }

  /** The URL's first `@lat,lng` is its result whatever the values: the URL
      path has no range check. */
  lemma UrlTakesFirstAtPair(pre: string, a: string, b: string, post: string)
    requires IsDecimal(a) && IsDecimal(b) && Avoids(pre, '@')
    requires post == "" || !IsDigit(post[0])
    ensures ExtractFromUrl(pre + "@" + a + "," + b + post) == Some(Coordinate(Parse(a), Parse(b)))
  {
    FourPieceFirst(AtPair, "@", ",", pre, a, b, post);
  }

  /** A page that starts with a quoted pair matches the quoted pattern there. */
  lemma QuotedAtStart(a: string, b: string, rest: string)
    requires IsDecimal(a) && IsDecimal(b)
    ensures MatchesAt(QuotedPair, "\"" + a + "," + b + "\"" + rest, 0, ["\"", a, ",", b, "\""])
  {
    var lit := "\"" + a + "," + b + "\"";
    var html := lit + rest;
    var ws := ["\"", a, ",", b, "\""];
    OccursBetween("", lit, rest);
    assert "" + lit + rest == html;
    Concat5("\"", a, ",", b, "\"");
    forall k | 0 <= k < |QuotedPair| ensures Fits(QuotedPair[k], ws[k]) {
      if k == 1 || k == 3 {
        assert QuotedPair[k] == Number;
      }
    }
  }

  /** A match of the quoted pattern at the start of the text is its first pair. */
  lemma QuotedMatchFirst(html: string, a: string, b: string)
    requires MatchesAt(QuotedPair, html, 0, ["\"", a, ",", b, "\""])
    ensures IsDecimal(a) && IsDecimal(b)
    ensures FirstPair(QuotedPair, html) == Some(Coordinate(Parse(a), Parse(b)))
  {
    assert QuotedPair in HtmlPatterns;
    var x, y := FirstPairIsLeftmost(QuotedPair, html, 0, ["\"", a, ",", b, "\""]);
    assert x == 1 && y == 3;
  }

  /** An `@lat,lng` wins even when a `!3d…!4d…` pair comes before it. */
  lemma UrlAtPairBeatsEarlierBangPair(a: string, b: string, c: string, d: string, post: string)
    requires IsDecimal(a) && IsDecimal(b) && IsDecimal(c) && IsDecimal(d)
    requires post == "" || !IsDigit(post[0])
    ensures ExtractFromUrl("!3d" + a + "!4d" + b + "@" + c + "," + d + post) == Some(Coordinate(Parse(c), Parse(d)))
  {
    var pre := "!3d" + a + "!4d" + b;
    DecimalAvoids(a, '@');
    DecimalAvoids(b, '@');
    assert Avoids("!3d", '@') && Avoids("!4d", '@');
    AvoidsConcat("!3d", a, '@');
    AvoidsConcat("!3d" + a, "!4d", '@');
    AvoidsConcat("!3d" + a + "!4d", b, '@');
    UrlTakesFirstAtPair(pre, c, d, post);
  }

  /** The first quoted pair of a page that starts with one is that pair. */
  lemma QuotedFirst(a: string, b: string, rest: string)
    requires IsDecimal(a) && IsDecimal(b)
    ensures FirstPair(QuotedPair, "\"" + a + "," + b + "\"" + rest) == Some(Coordinate(Parse(a), Parse(b)))
  {
    QuotedAtStart(a, b, rest);
    QuotedMatchFirst("\"" + a + "," + b + "\"" + rest, a, b);
  }

  /** A quoted pair followed by `rest` avoids every character that neither
      the pair nor `rest` contains. */
  lemma QuotedAvoids(a: string, b: string, rest: string, c: char)
    requires IsDecimal(a) && IsDecimal(b) && Avoids(rest, c)
    requires !IsDigit(c) && c != '-' && c != '.' && c != ',' && c != '"'
    ensures Avoids("\"" + a + "," + b + "\"" + rest, c)
  {
    DecimalAvoids(a, c);
    DecimalAvoids(b, c);
    AvoidsConcat("\"", a, c);
    AvoidsConcat("\"" + a, ",", c);
    AvoidsConcat("\"" + a + ",", b, c);
    AvoidsConcat("\"" + a + "," + b, "\"", c);
    AvoidsConcat("\"" + a + "," + b + "\"", rest, c);
  }

  lemma HtmlPatternsListed()
    ensures |HtmlPatterns| == 5
    ensures HtmlPatterns[0] == JsonArray && HtmlPatterns[1] == QuotedPair && HtmlPatterns[2] == CenterParam
    ensures HtmlPatterns[3] == AtPair && HtmlPatterns[4] == BangPair
  {
  }

  lemma NoneAcceptable(html: string)
    requires !Acceptable(FirstPair(JsonArray, html)) && !Acceptable(FirstPair(QuotedPair, html))
    requires !Acceptable(FirstPair(CenterParam, html)) && !Acceptable(FirstPair(AtPair, html))
    requires !Acceptable(FirstPair(BangPair, html))
    ensures ExtractFromHtml(html).None?
  {
    HtmlPatternsListed();
    forall k | 0 <= k < |HtmlPatterns| ensures !Acceptable(FirstPair(HtmlPatterns[k], html)) {
      if k == 0 {
      } else if k == 1 {
      } else if k == 2 {
      } else if k == 3 {
      } else {
        assert k == 4;
      }
    }
    HtmlNoneIffNoneAcceptable(html);
  }

  lemma CenterThird(html: string)
    requires !Acceptable(FirstPair(HtmlPatterns[0], html)) && !Acceptable(FirstPair(HtmlPatterns[1], html))
    requires Acceptable(FirstPair(HtmlPatterns[2], html))
    ensures ExtractFromHtml(html) == FirstPair(HtmlPatterns[2], html)
  {
    assert forall j :: 0 <= j < 2 ==> !Acceptable(FirstPair(HtmlPatterns[j], html));
    HtmlPatternOrder(html, 2);
  }

  /** The HTML yields nothing when the quoted pair is out of range and the
      other patterns do not match. */
  lemma HtmlNoneByQuoted(html: string)
    requires !Acceptable(FirstPair(QuotedPair, html))
    requires FirstPair(JsonArray, html).None? && FirstPair(CenterParam, html).None?
    requires FirstPair(AtPair, html).None? && FirstPair(BangPair, html).None?
    ensures ExtractFromHtml(html).None?
  {
    NoneAcceptable(html);
  }

  /** No pattern but the quoted one can match a quoted pair followed by a
      text free of the other patterns' lead characters. */
  lemma QuotedOnly(a: string, b: string, rest: string)
    requires IsDecimal(a) && IsDecimal(b)
    requires Avoids(rest, '[') && Avoids(rest, 'c') && Avoids(rest, '@') && Avoids(rest, '!')
    ensures var html := "\"" + a + "," + b + "\"" + rest;
            && FirstPair(JsonArray, html).None? && FirstPair(CenterParam, html).None?
            && FirstPair(AtPair, html).None? && FirstPair(BangPair, html).None?
  {
    var html := "\"" + a + "," + b + "\"" + rest;
    QuotedAvoids(a, b, rest, '[');
    QuotedAvoids(a, b, rest, 'c');
    QuotedAvoids(a, b, rest, '@');
    QuotedAvoids(a, b, rest, '!');
    NoLeadNoPair(JsonArray, html);
    NoLeadNoPair(CenterParam, html);
    NoLeadNoPair(AtPair, html);
    NoLeadNoPair(BangPair, html);
  }

  /** Only `matches[0]` of a pattern is examined: when a page's first
      coordinate-like text is an out-of-range quoted pair and nothing else
      leads a pattern, the page yields nothing, however many in-range quoted
      pairs follow. */
  lemma HtmlOnlyFirstMatch(a: string, b: string, rest: string)
    requires IsDecimal(a) && IsDecimal(b) && !InRange(Coordinate(Parse(a), Parse(b)))
    requires Avoids(rest, '[') && Avoids(rest, 'c') && Avoids(rest, '@') && Avoids(rest, '!')
    ensures ExtractFromHtml("\"" + a + "," + b + "\"" + rest).None?
  {
    QuotedFirst(a, b, rest);
    QuotedOnly(a, b, rest);
    HtmlNoneByQuoted("\"" + a + "," + b + "\"" + rest);
  }

  /** The HTML yields the `center=` pair when it is in range and the two
      patterns before it yield nothing acceptable. */
  lemma HtmlCenterByOrder(html: string)
    requires !Acceptable(FirstPair(JsonArray, html)) && !Acceptable(FirstPair(QuotedPair, html))
    requires Acceptable(FirstPair(CenterParam, html))
    ensures ExtractFromHtml(html) == FirstPair(CenterParam, html)
  {
    HtmlPatternsListed();
    CenterThird(html);
  }

  /** The tail `" center=c,d post"` of a page contains no `[`. */
  lemma CenterTailAvoids(c: string, d: string, post: string)
    requires IsDecimal(c) && IsDecimal(d) && Avoids(post, '[')
    ensures Avoids(" center=" + c + "," + d + post, '[')
  {
    DecimalAvoids(c, '[');
    DecimalAvoids(d, '[');
    AvoidsConcat(" center=", c, '[');
    AvoidsConcat(" center=" + c, ",", '[');
    AvoidsConcat(" center=" + c + ",", d, '[');
    AvoidsConcat(" center=" + c + "," + d, post, '[');
  }

  /** The page of `QuotedThenCenter` split after its quoted pair. */
  lemma CenterPageSplit(a: string, b: string, c: string, d: string, post: string)
    ensures "\"" + a + "," + b + "\" center=" + c + "," + d + post
            == "\"" + a + "," + b + "\"" + (" center=" + c + "," + d + post)
  {
  }

  /** The page of `QuotedThenCenter` split before its `center=`. */
  lemma CenterPageSplitAtCenter(a: string, b: string, c: string, d: string, post: string)
    ensures "\"" + a + "," + b + "\" center=" + c + "," + d + post
            == ("\"" + a + "," + b + "\"" + " ") + "center=" + c + "," + d + post
  {
  }

  lemma CenterPageNoArray(a: string, b: string, c: string, d: string, post: string)
    requires IsDecimal(a) && IsDecimal(b) && IsDecimal(c) && IsDecimal(d) && Avoids(post, '[')
    ensures FirstPair(JsonArray, "\"" + a + "," + b + "\" center=" + c + "," + d + post).None?
  {
    CenterPageSplit(a, b, c, d, post);
    CenterTailAvoids(c, d, post);
    QuotedAvoids(a, b, " center=" + c + "," + d + post, '[');
    NoLeadNoPair(JsonArray, "\"" + a + "," + b + "\" center=" + c + "," + d + post);
  }

  lemma CenterPageCenter(a: string, b: string, c: string, d: string, post: string)
    requires IsDecimal(a) && IsDecimal(b) && IsDecimal(c) && IsDecimal(d)
    requires post == "" || !IsDigit(post[0])
    ensures FirstPair(CenterParam, "\"" + a + "," + b + "\" center=" + c + "," + d + post)
            == Some(Coordinate(Parse(c), Parse(d)))
  {
    CenterPageSplitAtCenter(a, b, c, d, post);
    QuotedAvoids(a, b, " ", 'c');
    FourPieceFirst(CenterParam, "center=", ",", "\"" + a + "," + b + "\"" + " ", c, d, post);
  }

  /** What each of the first three patterns yields on a page with a quoted
      pair and then a `center=` parameter. */
  lemma QuotedThenCenter(a: string, b: string, c: string, d: string, post: string)
    requires IsDecimal(a) && IsDecimal(b) && IsDecimal(c) && IsDecimal(d)
    requires Avoids(post, '[') && (post == "" || !IsDigit(post[0]))
    ensures var html := "\"" + a + "," + b + "\" center=" + c + "," + d + post;
            && FirstPair(JsonArray, html).None?
            && FirstPair(QuotedPair, html) == Some(Coordinate(Parse(a), Parse(b)))
            && FirstPair(CenterParam, html) == Some(Coordinate(Parse(c), Parse(d)))
  {
    CenterPageSplit(a, b, c, d, post);
    QuotedFirst(a, b, " center=" + c + "," + d + post);
    CenterPageNoArray(a, b, c, d, post);
    CenterPageCenter(a, b, c, d, post);
  }

  /** An out-of-range match falls through to the next pattern: a page with
      an out-of-range quoted pair and then an in-range `center=` parameter
      yields the latter. */
  lemma HtmlFallsThrough(a: string, b: string, c: string, d: string, post: string)
    requires IsDecimal(a) && IsDecimal(b) && !InRange(Coordinate(Parse(a), Parse(b)))
    requires IsDecimal(c) && IsDecimal(d) && InRange(Coordinate(Parse(c), Parse(d)))
    requires Avoids(post, '[') && (post == "" || !IsDigit(post[0]))
    ensures ExtractFromHtml("\"" + a + "," + b + "\" center=" + c + "," + d + post)
            == Some(Coordinate(Parse(c), Parse(d)))
  {
    QuotedThenCenter(a, b, c, d, post);
    HtmlCenterByOrder("\"" + a + "," + b + "\" center=" + c + "," + d + post);
  }
}
