# Geocoding API: a Dafny model of its string logic

This project models the pure logic of `api.py`, a small FastAPI service that
turns addresses into coordinates by searching Google Maps, and coordinates
into addresses through Nominatim (OpenStreetMap) with a Google Maps fallback.
The model covers:

- **URL extraction** (`extract_lat_long`). The first `@lat,lng` of a URL wins.
  Failing that, the first `!3dlat!4dlng` wins. No range check is applied.
- **HTML extraction** (`extract_lat_long_from_html`). Five patterns are tried
  in order. Only the first match of each is looked at. It is accepted only
  when the latitude is in [-90, 90] and the longitude is in [-180, 180].
- **Forward geocoding** (`get_coordinates`). The search URL is built with
  `quote`. The final URL is tried before the page body. An exception gives
  no coordinate and its message.
- **The address formatter** inside `get_address_from_coordinates`. It takes
  the first present key of each of seven groups and joins the picks with
  `", "`. With no pick, it falls back to the display name.
- **Reverse geocoding** (`get_address_from_coordinates`). It tries Nominatim,
  then a place name read off the URL of the Google Maps place page (`+` read
  as a space, then `unquote`), then a placeholder built from the coordinate.
  It never raises.
- **The two file endpoints** (`geocode_file`, `reverse_geocode_file`). This
  covers the column checks, the columns they reset or add, and the loop over
  the rows.

Every regex of the source is a fixed concatenation. `Patterns` represents
each one as a sequence of pieces and provides a greedy scanner for them. The
scanner is proved to find exactly the leftmost match that Python's `re`
finds. A captured number is kept as its matched text and its exact value as
a `real`.

The network is a parameter: each HTTP request is a function from the
request to what came back, including "it raised". In the file endpoints the
row's position is part of the request, so two rows may get different replies
to the same request. `quote` and `unquote` are
modelled with the UTF-8 encoding (`Utf8`), following `urllib.parse`.

Files:

- `text.dfy`: option type, character classes, `strip`, `join`.
- `decimals.dfy`: the captured numbers.
- `patterns.dfy`: the patterns, the scanner and `re.search`.
- `extract.dfy`: the two extractors.
- `extract_examples.dfy`: the extractors on URLs and pages of given shapes.
- `utf8.dfy`, `percent.dfy`: `quote`, `quote_plus`, `unquote`.
- `forward.dfy`: `get_coordinates`.
- `address.dfy`: the formatter.
- `reverse.dfy`: `get_address_from_coordinates`.
- `batch.dfy`: the file endpoints.

Behaviour of the code worth knowing:

- The URL path applies no range check. Only the HTML path does.
- An exception in the Nominatim request, in `response.json()`, or in reading
  the components goes straight to the placeholder. The Google Maps page is
  not tried in that case, because the whole body is one `try`.
- A missing column raises an `HTTPException` with status 400 inside the
  endpoint's `try`. The endpoint's own `except Exception` turns it into a
  500 error.
- In `reverse_geocode_file` only `ValueError` from `float()` is caught per
  row. Any other exception there, such as the `TypeError` a date cell
  raises, escapes the loop, and the whole file ends in a 500 error.

## Model

| member | source | states |
|---|---|---|
| Text.StripEmptyIffBlank | api.py:421 | `str(address).strip()` is empty exactly when every character of the address is whitespace |
| Text.ReplaceChar | api.py:193 | `replace('+', ' ')` keeps the length and turns exactly the `+` characters into spaces |
| Decimals.Parse | api.py:45-46 | `float(group)` of a captured number keeps its text and is negative only with a leading minus; its exact value is what `ParseParts` states |
| Decimals.ParseParts | api.py:45-46 | the value of a captured number `w.f` or `-w.f` is its integer digits plus its fraction digits scaled down by their count, negated when it has a leading minus |
| Patterns.ScanPieces | api.py:42-43 | what the scanner finds at a position is a match of the pattern there, piece by piece |
| Patterns.ScanPiecesComplete | api.py:42-43 | every match of a delimited pattern is found by the scanner at the same place, agreeing on every piece but the last, which it may extend |
| Patterns.ScanPiecesExact | api.py:42-43 | when nothing after a match could extend its last piece, the scanner finds exactly that match |
| Patterns.Search | api.py:43 | `re.search` reports the first position from which the scanner matches, and nothing when none does |
| Patterns.SearchFindsLeftmost | api.py:43 | for a delimited pattern, `re.search` reports the leftmost match, with its exact texts when nothing could extend it |
| Patterns.SearchFailsIffNoMatch | api.py:43-44 | `re.search` finds nothing exactly when the pattern matches nowhere |
| Patterns.GroupsTwo | api.py:72-77 | the groups of a two-group pattern are the texts of those two pieces, in order |
| Extract.JsonArrayShape | api.py:64 | the embedded-array pattern is delimited and has exactly two groups, both numbers |
| Extract.ShortPatternShape | api.py:65-68 | the four short coordinate patterns are delimited and have exactly two number groups |
| Extract.FirstPairOfSearch | api.py:72-77 | `matches[0]` of a coordinate pattern is a pair of numbers whenever there is a match, so the pattern yields a coordinate exactly when it matches |
| Extract.FirstPairIsLeftmost | api.py:72-77 | a coordinate pattern yields the pair of its leftmost match |
| Extract.FirstPairNoneIffNoMatch | api.py:72-73 | a coordinate pattern yields nothing exactly when it matches nowhere |
| Extract.FirstPair | api.py:43-46 | a pattern's first match read as a pair of numbers: it yields a pair exactly when the pattern matches (`FirstPairOfSearch`, `FirstPairNoneIffNoMatch`), namely that of the leftmost match (`FirstPairIsLeftmost`) |
| Extract.FirstInRange | api.py:71-83 | the loop over the patterns returns an in-range candidate, and nothing exactly when no candidate is in range |
| Extract.FirstInRangeIsFirst | api.py:71-79 | the loop returns the first in-range candidate, whatever follows it |
| Extract.UrlPrefersAtPair | api.py:42-47 | the leftmost `@lat,lng` match decides the URL result, whatever else the URL holds, with no range check |
| Extract.UrlFallsBackToBangPair | api.py:49-55 | the `!3d…!4d…` pattern decides only when the URL has no `@` match |
| Extract.UrlNoneIffNoMatch | api.py:36-57 | the URL yields nothing exactly when neither pattern matches anywhere |
| Extract.ExtractFromUrl | api.py:36-57 | `extract_lat_long`: the leftmost `@lat,lng` decides with no range check (`UrlPrefersAtPair`), else the `!3d…!4d…` pattern (`UrlFallsBackToBangPair`), and nothing exactly when neither matches (`UrlNoneIffNoMatch`) |
| Extract.HtmlPatternOrder | api.py:63-79 | the HTML result is the first match of the first pattern whose first match is in range |
| Extract.HtmlNoneIffNoneAcceptable | api.py:71-83 | the HTML yields nothing exactly when no pattern's first match is in range, and anything it yields is in range |
| Extract.ExtractFromHtml | api.py:59-83 | `extract_lat_long_from_html`: the first pattern, in source order, whose first match is in range decides (`HtmlPatternOrder`); nothing exactly when none is, and any result is in range (`HtmlNoneIffNoneAcceptable`) |
| ExtractExamples.UrlTakesFirstAtPair | api.py:42-47 | the first `@lat,lng` of a URL is its result even out of range |
| ExtractExamples.UrlAtPairBeatsEarlierBangPair | api.py:42-55 | an `@lat,lng` wins over a `!3d…!4d…` pair that comes before it |
| ExtractExamples.QuotedFirst | api.py:65 | the first quoted pair of a page that starts with one is that pair |
| ExtractExamples.HtmlOnlyFirstMatch | api.py:71-83 | an out-of-range first quoted pair is not made up for by later in-range quoted pairs |
| ExtractExamples.HtmlCenterByOrder | api.py:63-79 | the `center=` pair is the result when it is in range and the two patterns before it give nothing in range, whether they match out of range or not at all |
| ExtractExamples.HtmlNoneByQuoted | api.py:71-83 | an out-of-range quoted pair and no other match give nothing |
| ExtractExamples.HtmlFallsThrough | api.py:71-79 | an out-of-range quoted pair falls through to an in-range `center=` pair later on the page |
| Utf8.EncodeChar | api.py:89 | a character's UTF-8 encoding has one to four bytes, one exactly for ASCII, and continuation bytes after the first |
| Utf8.DecodeEncode | api.py:194 | decoding the UTF-8 encoding of a text gives the text back |
| Percent.QuoteBytesAscii | api.py:89 | what `quote` writes is ASCII |
| Percent.UnquoteQuote | api.py:89 | `unquote(quote(s)) == s` for every text |
| Percent.UnquoteRunsIdentity | api.py:194 | a text without `%` is unchanged by `unquote`'s decoding too, so its early return changes nothing |
| Percent.DecodePlaceNameQuotePlus | api.py:193-194 | replacing `+` by a space and unquoting reads back any name written by `quote_plus` |
| Percent.Quote | api.py:89 | `quote(address)` writes only ASCII (`QuoteBytesAscii`) and `unquote` reads it back (`UnquoteQuote`) |
| Percent.Unquote | api.py:194 | `unquote` inverts `quote` (`UnquoteQuote`), and its early return for a text without `%` agrees with its decoding (`UnquoteRunsIdentity`) |
| Percent.DecodePlaceName | api.py:193-194 | `unquote(raw.replace('+', ' '))` inverts `quote_plus` (`DecodePlaceNameQuotePlus`) |
| Forward.GetCoordinates | api.py:85-109 | an exception gives no coordinate and its message; a page gives its final URL; a coordinate comes from the URL or is in range |
| Forward.SearchUrlCarriesAddress | api.py:89 | the search URL is the search base followed by a text that unquotes to the address |
| Forward.SearchUrl | api.py:89 | the search URL is the search base followed by a text that unquotes to the address (`SearchUrlCarriesAddress`) |
| Forward.UrlBeforeHtml | api.py:100-107 | a coordinate in the final URL is the result and the page body is not looked at |
| Forward.HtmlWhenUrlFails | api.py:103-107 | without a coordinate in the final URL the body decides, and only an in-range coordinate is returned |
| Forward.NoCoordinateIff | api.py:91-109 | no coordinate exactly when the request raised, or neither URL pattern matches and no HTML pattern's first match is in range |
| AddressFormat.FirstPresentSpec | api.py:142-145 | an `if`/`elif` chain picks the value of the first key whose value is non-empty, and nothing when there is none |
| AddressFormat.Parts | api.py:138-175 | there is at most one part per group |
| AddressFormat.GroupPart | api.py:158-163 | one `if`/`elif` block appends what its group picks |
| AddressFormat.CollectParts | api.py:138-175 | the seven blocks in a row append the picks of the groups in order |
| AddressFormat.FormatAddressSteps | api.py:138-177 | the address is the first present key of each block, in block order, joined with `, `; the display name when no block has one |
| AddressFormat.PartsInGroupOrder | api.py:138-175 | the parts are exactly the picks of the groups that pick something, in group order |
| AddressFormat.NoComponents | api.py:177 | with no component present the display name is returned |
| AddressFormat.AllPrimaryKeys | api.py:138-177 | with the first key of every group set, the result is those seven values joined by `", "` |
| AddressFormat.ShadowedKeyIgnored | api.py:142-163 | a fallback key is not consulted while an earlier key of its group is present |
| AddressFormat.OtherKeyIgnored | api.py:138-177 | a key outside the seven groups does not affect the result |
| AddressFormat.EmptyIsMissing | api.py:142 | a key with an empty value counts as absent |
| Text.Join | api.py:177 | `', '.join(formatted_parts)`: a single part is itself; its effect on the address is stated by `FormatAddressSteps` and `AllPrimaryKeys` |
| AddressFormat.FormatAddress | api.py:138-177 | the formatted address is the first present key of each block, in block order, joined with `, `, else the display name (`FormatAddressSteps`, `PartsInGroupOrder`, `NoComponents`) |
| Reverse.ReverseGeocode | api.py:111-201 | a Nominatim answer with a display name gives it, the components' formatting and the place URL; a raised request gives the placeholder; the URL is the place URL or the place page's final URL |
| Reverse.FromPlacePage | api.py:188-201 | a raised request, or a final URL with no `/place/<segment>/@` anywhere, gives the placeholder; a match gives a name used as both address and formatted address, with the final URL as maps URL |
| Reverse.PlacePageOfMatch | api.py:188-195 | the leftmost `/place/<segment>/@` of the final URL gives its decoded segment as address and formatted address, with the final URL |
| Reverse.NominatimFirst | api.py:131-181 | after a Nominatim answer with a display name the Google Maps page plays no part |
| Reverse.FallbackWithoutDisplayName | api.py:131-188 | another status, or an object without a display name, goes to the Google Maps fallback |
| Reverse.PlaceholderOnBadReply | api.py:200-201 | a body that is not JSON, or components that are not an object, give the placeholder |
| Reverse.ReverseSources | api.py:181-198 | the address is the display name, the place name, or the result is the placeholder |
| Reverse.PlaceholderExample | api.py:198-201 | with every request failing, the coordinate 28.4391604, 77.0388113 gives `"28.4391604, 77.0388113"`, `"Location at 28.4391604, 77.0388113"` and its place URL |
| Reverse.PlaceNameOfMatch | api.py:191-194 | the place name is the decoded segment of the first `/place/<segment>/@` |
| Reverse.PlaceNameQuotePlus | api.py:191-195 | a non-empty name written with `quote_plus` into a place URL is read back unchanged |
| Reverse.PlaceNameNoneIffNoMatch | api.py:191-192 | there is no place name exactly when the URL has no `/place/<segment>/@` |
| Reverse.PlaceName | api.py:191-194 | the place name is the decoded segment of the leftmost `/place/<segment>/@` (`PlaceNameOfMatch`), and there is none exactly when there is no match (`PlaceNameNoneIffNoMatch`) |
| Reverse.Placeholder | api.py:198-201 | what a raised Nominatim request (`ReverseGeocode`) or a place page without a match (`FromPlacePage`) gives; its three texts are those of the f-strings (`PlaceholderExample`) |
| Reverse.PlaceUrl | api.py:184 | the place URL is the place base, the latitude, a comma and the longitude (`PlaceholderExample`) |
| Batch.ResetColumn | api.py:413-414 | `df[name] = None` keeps every column and cell elsewhere, adds the column when missing, and empties it in every row |
| Batch.ResetColumnWellFormed | api.py:413-414 | resetting a column keeps the table well formed |
| Batch.GeocodeLoop | api.py:418-427 | the loop writing cell by cell updates each row as the per-row step says |
| Batch.GeocodeFileRefuses | api.py:406-410 | the file is refused exactly when the address column is missing, naming it and the available columns |
| Batch.GeocodeFileShape | api.py:413-427 | the output keeps the columns in place, adds only `latitude` and `longitude`, keeps the rows in order and stays well formed |
| Batch.GeocodeFileRows | api.py:413-427 | every other cell is kept; the coordinate cells hold the result of the row's own search for an address present after the reset, and `None` otherwise |
| Batch.BlankAddressSkipped | api.py:421 | a missing or whitespace-only address leaves `latitude` and `longitude` as `None` |
| Batch.CoordinateCell | api.py:426-427 | the coordinate cells a row gets, as `GeocodeFileRows` states them |
| Batch.GeocodeRow | api.py:418-427 | one pass of the loop, as `GeocodeFileRows` and `BlankAddressSkipped` state it for each row |
| Batch.GeocodeRows | api.py:418-427 | the loop over the rows, as `GeocodeLoop` computes it cell by cell and `GeocodeFileShape` and `GeocodeFileRows` state it for the whole file |
| Batch.GeocodeFile | api.py:406-427 | `geocode_file` after reading the file: refusal (`GeocodeFileRefuses`), shape (`GeocodeFileShape`) and rows (`GeocodeFileRows`) |
| Batch.ReverseFileRefuses | api.py:502-512 | the file is refused exactly when a coordinate column is missing, and the latitude column is checked first |
| Batch.ReverseFileFails | api.py:519-536 | with both columns there, the file fails exactly when some row's `float()` raises something other than `ValueError`, with the first such row's message |
| Batch.FirstRaise | api.py:519-536 | no exception escapes exactly when no row raises one; otherwise the exception is the one of the first row that raises |
| Batch.ReverseFileShape | api.py:515-536 | when the file does not fail, the output keeps the columns in place, adds only `address`, keeps the rows in order and stays well formed |
| Batch.ReverseFileRows | api.py:515-536 | when the file does not fail, every other cell is kept; `address` holds the address the row's own requests found when both coordinates are present and convert to floats, and `None` otherwise |
| Batch.RowRaises | api.py:523-536 | the exception other than `ValueError` a row's conversions let escape, `float(lat)` before `float(lng)`; `ReverseFileFails` states its effect |
| Batch.ReverseRow | api.py:519-536 | one pass of the loop, as `ReverseFileRows` states it for each row |
| Batch.ReverseFile | api.py:502-536 | `reverse_geocode_file` after reading the file: refusal (`ReverseFileRefuses`), failure (`ReverseFileFails`), shape (`ReverseFileShape`) and rows (`ReverseFileRows`) |

## Left out

- HTTP requests are parameters. This covers Nominatim, the Google Maps search page and the place page: their replies, redirects, status codes and exceptions.
- FastAPI routing, request and response models, and the mapping of errors to HTTP status codes are left out, because they are framework glue. The `Outcome` of a file endpoint names the missing column, or gives the message of an exception that escaped the row loop; the status code and the wrapping into a 500 error are not modelled.
- Reading and writing CSV and Excel files, the extension check, temporary file names and clean-up are left out, because they are I/O.
- `time.sleep` and `print` are left out, because they have no effect on the results. The replies are not tied to the passage of time: each row's requests are simply allowed their own replies.
- Python floats are left out. A captured number is its text and its exact value as a `real`, and the range check compares exact values, not IEEE doubles. `str(float)` of a coordinate is passed in as text, and `float(value)` in the reverse file loop is a parameter: it gives a value, raises `ValueError`, or raises something else with a message.
- `\d` and `\w` are ASCII only in the model. Python's `re` also accepts other Unicode digits and letters in a `str` pattern.
- A Nominatim body that is valid JSON but not an object is left out. So are values of `display_name` or of the components that are not strings.
- Column names that are not strings are left out, and so are duplicate column names (a table is well formed).
- A `Deg` cell, a coordinate the geocoder wrote, is read back as its matched text where Python would use `str` of the float.
- Forward.GetCoordinates: texts holding a lone surrogate are not modelled, because a Dafny `char` is a Unicode scalar value. `quote` raises `UnicodeEncodeError` on such an address at api.py:89, outside the `try`, so `get_coordinates` raises instead of returning no coordinate and a message.
