/**
 Reverse geocoding (`get_address_from_coordinates`): ask Nominatim for the
 address at a coordinate; failing that, read a place name off the URL a
 Google Maps place page lands on; failing that, describe the coordinate
 itself. The two HTTP requests are parameters: `nominatim` maps the
 coordinate to what the Nominatim request came back with, `fetchPlace`
 maps a URL to what the Google Maps request came back with.

 The coordinate is given as the two texts Python's `str` writes for the
 floats `lat` and `lng`; every string the function builds from them uses
 those texts.
 */
module Reverse {
  import opened Optional
  import opened Text
  import opened Patterns
  import opened Utf8
  import opened Percent
  import opened AddressFormat

  /** The `address` member of a Nominatim reply. */
  datatype AddressField =
    | NoAddress                                  // absent: `data.get('address', {})` gives `{}`
    | AddressObject(fields: map<string, string>) // a JSON object of text values
    | AddressOther                               // null, a list, a text or a number: `.get` raises

  /** The body of a Nominatim reply. */
  datatype NominatimBody =
    | NotJson                                                    // `response.json()` raises
    | JsonObject(displayName: Option<string>, address: AddressField)

  /** What the Nominatim request came back with. */
  datatype NominatimReply =
    | NominatimRaised                                   // the request raised
    | NominatimResponse(status: int, body: NominatimBody)

  /** What the Google Maps place request came back with. */
  datatype PlaceReply =
    | PlaceRaised                 // the request raised
    | PlacePage(finalUrl: string) // `response.url` after redirects

  /** `(address, formatted_address, google_maps_url)` */
  datatype Addresses = Addresses(address: string, formatted: string, mapsUrl: string)

  const PlaceBase: string := "https://www.google.com/maps/place/"

  /** `f"https://www.google.com/maps/place/{lat},{lng}"` */
  function PlaceUrl(lat: string, lng: string): (r: string) {
    PlaceBase + lat + "," + lng
  }

  /** What comes back when nothing better is found, and after any
      exception. */
  function Placeholder(lat: string, lng: string): (r: Addresses) {
    Addresses(lat + ", " + lng, "Location at " + lat + ", " + lng, PlaceUrl(lat, lng))
  }

  /** `/place/([^/@]+)/@` */
  const PlacePattern: Pattern := [Lit("/place/"), Run(SegmentClass, true), Lit("/@")]

  /** The place name in a Google Maps URL: the group of the first match of
      `PlacePattern`, with `+` read as a space and then unquoted. */
  function PlaceName(url: string): (r: Option<string>) {
    match Search(PlacePattern, url, 0)
    case None => None
    case Some(m) =>
      var g := Groups(PlacePattern, m.texts);
      if |g| == 1 then Some(DecodePlaceName(g[0])) else None
  }

  /** The Google Maps fallback, given what the place request came back
      with: the place name when the final URL has a `/place/<segment>/@`,
      the placeholder otherwise. */
  function FromPlacePage(lat: string, lng: string, reply: PlaceReply): (r: Addresses)
    ensures reply.PlaceRaised? ==> r == Placeholder(lat, lng)
    ensures reply.PlacePage? && (forall q, vs :: 0 <= q <= |reply.finalUrl| ==> !MatchesAt(PlacePattern, reply.finalUrl, q, vs)) ==>
              r == Placeholder(lat, lng)
    ensures reply.PlacePage? && (exists q, vs :: 0 <= q <= |reply.finalUrl| && MatchesAt(PlacePattern, reply.finalUrl, q, vs)) ==>
              r.address == r.formatted && r.mapsUrl == reply.finalUrl
  {
    match reply
    case PlaceRaised => Placeholder(lat, lng)
    case PlacePage(url) =>
      PlaceNameNoneIffNoMatch(url);
      match PlaceName(url)
      case Some(n) => Addresses(n, n, url)
      case None => Placeholder(lat, lng)
  }

  /** Nominatim answered with a display name and usable components. */
  predicate NominatimFound(reply: NominatimReply) {
    && reply.NominatimResponse?
    && reply.status == 200
    && reply.body.JsonObject?
    && reply.body.displayName.Some?
    && !reply.body.address.AddressOther?
  }

  /** The components of a Nominatim answer: `data.get('address', {})`. */
  function Components(a: AddressField): (r: map<string, string>) {
    if a.AddressObject? then a.fields else map[]
  }

  /** `get_address_from_coordinates(lat, lng)`: it never raises. */
  function ReverseGeocode(lat: string, lng: string,
                          nominatim: (string, string) -> NominatimReply,
                          fetchPlace: string -> PlaceReply): (r: Addresses)
    ensures NominatimFound(nominatim(lat, lng)) ==>
              var dn := nominatim(lat, lng).body.displayName.value;
              r == Addresses(dn, FormatAddress(Components(nominatim(lat, lng).body.address), dn), PlaceUrl(lat, lng))
    ensures r.mapsUrl == PlaceUrl(lat, lng) || (fetchPlace(PlaceUrl(lat, lng)).PlacePage? && r.mapsUrl == fetchPlace(PlaceUrl(lat, lng)).finalUrl)
    ensures nominatim(lat, lng).NominatimRaised? ==> r == Placeholder(lat, lng)
  {
    match nominatim(lat, lng)
    case NominatimRaised => Placeholder(lat, lng)
    case NominatimResponse(status, body) =>
      if status == 200 && body.NotJson? then Placeholder(lat, lng)
      else if status == 200 && body.displayName.Some? then
        match body.address
        case AddressOther => Placeholder(lat, lng)
        case _ =>
          var dn := body.displayName.value;
          Addresses(dn, FormatAddress(Components(body.address), dn), PlaceUrl(lat, lng))
      else FromPlacePage(lat, lng, fetchPlace(PlaceUrl(lat, lng)))
  }

  // Properties

  /** Once Nominatim has answered with a display name, the Google Maps page
      is not requested: any other place fetcher gives the same result. */
  lemma NominatimFirst(lat: string, lng: string, nominatim: (string, string) -> NominatimReply,
                       fetchPlace: string -> PlaceReply, other: string -> PlaceReply)
    requires NominatimFound(nominatim(lat, lng))
    ensures ReverseGeocode(lat, lng, nominatim, other) == ReverseGeocode(lat, lng, nominatim, fetchPlace)
  {
  }

  /** The fallback runs when Nominatim answered with another status, or
      with an object that has no display name. */
  lemma FallbackWithoutDisplayName(lat: string, lng: string, nominatim: (string, string) -> NominatimReply,
                                   fetchPlace: string -> PlaceReply)
    requires nominatim(lat, lng).NominatimResponse?
    requires nominatim(lat, lng).status != 200 || (nominatim(lat, lng).body.JsonObject? && nominatim(lat, lng).body.displayName.None?)
    ensures ReverseGeocode(lat, lng, nominatim, fetchPlace) == FromPlacePage(lat, lng, fetchPlace(PlaceUrl(lat, lng)))
  {
  }

  /** A reply that is not JSON, or an `address` member that is not an
      object, raises inside the `try`: the placeholder comes back. */
  lemma PlaceholderOnBadReply(lat: string, lng: string, nominatim: (string, string) -> NominatimReply,
                              fetchPlace: string -> PlaceReply)
    requires nominatim(lat, lng).NominatimResponse? && nominatim(lat, lng).status == 200
    requires var b := nominatim(lat, lng).body;
             b.NotJson? || (b.displayName.Some? && b.address.AddressOther?)
    ensures ReverseGeocode(lat, lng, nominatim, fetchPlace) == Placeholder(lat, lng)
  {
  }

  /** The address text is the display name or the place name exactly when
      one was found; otherwise it is the coordinate itself. */
  lemma ReverseSources(lat: string, lng: string, nominatim: (string, string) -> NominatimReply,
                       fetchPlace: string -> PlaceReply)
    ensures var r := ReverseGeocode(lat, lng, nominatim, fetchPlace);
            var page := fetchPlace(PlaceUrl(lat, lng));
            || (NominatimFound(nominatim(lat, lng)) && r.address == nominatim(lat, lng).body.displayName.value)
            || (page.PlacePage? && PlaceName(page.finalUrl).Some? && r.address == r.formatted == PlaceName(page.finalUrl).value)
            || r == Placeholder(lat, lng)
  {
  }

  /** When the Nominatim request raises, the coordinate describes itself. */
  lemma PlaceholderExample(nominatim: (string, string) -> NominatimReply, fetchPlace: string -> PlaceReply)
    requires nominatim("28.4391604", "77.0388113").NominatimRaised?
    ensures ReverseGeocode("28.4391604", "77.0388113", nominatim, fetchPlace)
         == Addresses("28.4391604, 77.0388113", "Location at 28.4391604, 77.0388113",
                      "https://www.google.com/maps/place/28.4391604,77.0388113")
  {
    var lat, lng := "28.4391604", "77.0388113";
    assert lat + ", " + lng == "28.4391604, 77.0388113";
    assert "Location at " + lat + ", " + lng == "Location at 28.4391604, 77.0388113";
    PlaceUrlExample();
  }

  lemma PlaceUrlExample()
    ensures PlaceUrl("28.4391604", "77.0388113") == "https://www.google.com/maps/place/28.4391604,77.0388113"
  {
  }

  lemma PlacePatternDelimited()
    ensures Delimited(PlacePattern)
    ensures !IsGroup(PlacePattern[0]) && IsGroup(PlacePattern[1]) && !IsGroup(PlacePattern[2])
  {
    assert PlacePattern[2].text[0] == '/';
    assert !Extends(PlacePattern[1], '/');
  }

  /** The place name in a URL is the first `/place/<segment>/@`. */
  lemma PlaceNameOfMatch(url: string, p: nat, seg: string)
    requires p <= |url| && |seg| > 0
    requires forall j :: 0 <= j < |seg| ==> InClass(SegmentClass, seg[j])
    requires OccursAt("/place/" + seg + "/@", url, p)
    requires forall q, vs :: 0 <= q < p ==> !MatchesAt(PlacePattern, url, q, vs)
    ensures PlaceName(url) == Some(DecodePlaceName(seg))
  {
    var ws := ["/place/", seg, "/@"];
    Concat3("/place/", seg, "/@");
    assert MatchesAt(PlacePattern, url, p, ws);
    PlacePatternDelimited();
    SearchFindsLeftmost(PlacePattern, url, p, ws);
    var m := Search(PlacePattern, url, 0).value;
    assert m.texts == ws;
    GroupsOne(PlacePattern, ws, 1);
  }

  /** A place page whose final URL first has `/place/<seg>/@` gives the
      decoded segment as both addresses, and the final URL. */
  lemma PlacePageOfMatch(lat: string, lng: string, url: string, p: nat, seg: string)
    requires p <= |url| && |seg| > 0
    requires forall j :: 0 <= j < |seg| ==> InClass(SegmentClass, seg[j])
    requires OccursAt("/place/" + seg + "/@", url, p)
    requires forall q, vs :: 0 <= q < p ==> !MatchesAt(PlacePattern, url, q, vs)
    ensures FromPlacePage(lat, lng, PlacePage(url)) == Addresses(DecodePlaceName(seg), DecodePlaceName(seg), url)
  {
    PlaceNameOfMatch(url, p, seg);
  }

  /** A place name written into the URL the way `quote_plus` writes it is
      read back unchanged. */
  lemma PlaceNameQuotePlus(pre: string, name: string, rest: string)
    requires |name| > 0
    requires forall q, vs :: 0 <= q < |pre| ==> !MatchesAt(PlacePattern, pre + "/place/" + QuotePlus(name) + "/@" + rest, q, vs)
    ensures PlaceName(pre + "/place/" + QuotePlus(name) + "/@" + rest) == Some(name)
  {
    var seg := QuotePlus(name);
    var url := pre + "/place/" + seg + "/@" + rest;
    QuotePlusSegment(Encode(name));
    assert url == pre + ("/place/" + seg + "/@") + rest;
    assert OccursAt("/place/" + seg + "/@", url, |pre|) by {
      var t := "/place/" + seg + "/@";
      forall k | 0 <= k < |t| ensures url[|pre| + k] == t[k] {
      }
    }
    PlaceNameOfMatch(url, |pre|, seg);
    DecodePlaceNameQuotePlus(name);
  }

  /** There is no place name exactly when the URL has no match of
      `PlacePattern`. */
  lemma PlaceNameNoneIffNoMatch(url: string)
    ensures PlaceName(url).None? <==> forall q, vs :: 0 <= q <= |url| ==> !MatchesAt(PlacePattern, url, q, vs)
  {
    PlacePatternDelimited();
    SearchFailsIffNoMatch(PlacePattern, url);
    if Search(PlacePattern, url, 0).Some? {
      var m := Search(PlacePattern, url, 0).value;
      assert MatchesAt(PlacePattern, url, m.pos, m.texts);
      GroupsOne(PlacePattern, m.texts, 1);
    }
  }
}
