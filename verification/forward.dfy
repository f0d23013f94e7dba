/**
 Forward geocoding (`get_coordinates`): search Google Maps for an address
 and read the coordinate off the page it lands on. The HTTP request is a
 parameter: `fetch` maps the requested URL to what `requests.get` came back
 with.
 */
module Forward {
  import opened Optional
  import opened Patterns
  import opened Extract
  import opened Percent

  const SearchBase: string := "https://www.google.com/maps/search/"

  /** `f"https://www.google.com/maps/search/{quote(address)}"` */
  function SearchUrl(address: string): (r: string) {
    SearchBase + Quote(address)
  }

  /** What the search request came back with. */
  datatype SearchReply =
    | SearchRaised(message: string)                // the request raised; `str(e)`
    | SearchPage(finalUrl: string, body: string)   // `response.url`, `response.text`

  /** `(lat, lng, url)`: the coordinate, if one was found, and the final URL
      of the page or the error message. */
  datatype ForwardResult = ForwardResult(coordinate: Option<Coordinate>, detail: string)

  function GetCoordinates(address: string, fetch: string -> SearchReply): (r: ForwardResult)
    ensures fetch(SearchUrl(address)).SearchRaised? ==> r == ForwardResult(None, fetch(SearchUrl(address)).message)
    ensures fetch(SearchUrl(address)).SearchPage? ==> r.detail == fetch(SearchUrl(address)).finalUrl
    ensures r.coordinate.Some? ==>
              var reply := fetch(SearchUrl(address));
              reply.SearchPage? && (r.coordinate == ExtractFromUrl(reply.finalUrl) || InRange(r.coordinate.value))
  {
    match fetch(SearchUrl(address))
    case SearchRaised(message) => ForwardResult(None, message)
    case SearchPage(url, html) =>
      var fromUrl := ExtractFromUrl(url);
      var coordinate := if fromUrl.None? then ExtractFromHtml(html) else fromUrl;
      HtmlNoneIffNoneAcceptable(html);
      ForwardResult(coordinate, url)
  }

  /** The search URL carries the address: unquoting what follows the base
      gives the address back. */
  lemma SearchUrlCarriesAddress(address: string)
    ensures SearchBase <= SearchUrl(address)
    ensures Unquote(SearchUrl(address)[|SearchBase|..]) == address
  {
    assert SearchUrl(address)[|SearchBase|..] == Quote(address);
    UnquoteQuote(address);
  }

  /** A coordinate in the final URL decides the result; the page body is
      not looked at: two pages with the same final URL give the same
      result. */
  lemma UrlBeforeHtml(address: string, fetch: string -> SearchReply, other: string -> SearchReply)
    requires fetch(SearchUrl(address)).SearchPage? && other(SearchUrl(address)).SearchPage?
    requires fetch(SearchUrl(address)).finalUrl == other(SearchUrl(address)).finalUrl
    requires ExtractFromUrl(fetch(SearchUrl(address)).finalUrl).Some?
    ensures GetCoordinates(address, fetch).coordinate == ExtractFromUrl(fetch(SearchUrl(address)).finalUrl)
    ensures GetCoordinates(address, other) == GetCoordinates(address, fetch)
  {
  }

  /** Without a coordinate in the final URL the body is searched, and then
      only an in-range coordinate is accepted. */
  lemma HtmlWhenUrlFails(address: string, fetch: string -> SearchReply)
    requires fetch(SearchUrl(address)).SearchPage?
    requires ExtractFromUrl(fetch(SearchUrl(address)).finalUrl).None?
    ensures GetCoordinates(address, fetch).coordinate == ExtractFromHtml(fetch(SearchUrl(address)).body)
    ensures GetCoordinates(address, fetch).coordinate.Some? ==> InRange(GetCoordinates(address, fetch).coordinate.value)
  {
    HtmlNoneIffNoneAcceptable(fetch(SearchUrl(address)).body);
  }

  /** No coordinate comes back exactly when the request raised, or the final
      URL has no match of either URL pattern and no HTML pattern's first
      match is in range. */
  lemma NoCoordinateIff(address: string, fetch: string -> SearchReply)
    ensures GetCoordinates(address, fetch).coordinate.None? <==>
              var reply := fetch(SearchUrl(address));
              || reply.SearchRaised?
              || (&& (forall q, vs :: 0 <= q <= |reply.finalUrl| ==> !MatchesAt(AtPair, reply.finalUrl, q, vs))
                  && (forall q, vs :: 0 <= q <= |reply.finalUrl| ==> !MatchesAt(BangPair, reply.finalUrl, q, vs))
                  && (forall k :: 0 <= k < |HtmlPatterns| ==> !Acceptable(FirstPair(HtmlPatterns[k], reply.body))))
  {
    var reply := fetch(SearchUrl(address));
    if reply.SearchPage? {
      UrlNoneIffNoMatch(reply.finalUrl);
      HtmlNoneIffNoneAcceptable(reply.body);
    }
  }
}
