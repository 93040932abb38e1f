# galeri-unmul in Dafny

This project models the logic of galeri-unmul. galeri-unmul is a browser front end for the student photos of Universitas Mulawarman (Unmul), plus a small serverless proxy in front of the PDDIKTI student directory. The model covers four parts:

- **Gallery** (`assets/js/main.js`) builds student numbers (NIM). Each NIM is the cohort, faculty and programme codes, padded with zeros to 2, 2 and 3 characters as typed, followed by a sequence number padded to 3 digits. `loadImages` appends one photo card per NIM and moves a cursor along the sequence numbers. `Album` is a class whose fields are the page state that `loadImages` updates. It is proved against `NimRange`. A run has no gaps and no repeats, and "load more" continues exactly where the previous load stopped.
- **Search** (`assets/js/search.js`) covers:
  - the avatar initials;
  - the request to the search API and the three answer shapes it accepts;
  - what a result card shows, including the `'-'` NIM default and the case-insensitive "mulawarman" test;
  - which of the four panels the page shows after a search.

  `SearchPage` is a class over the parts of the page the script writes to.
- **ProxyOverride** (`assets/js/proxy-override.js`) covers:
  - the `fetch` wrapper that sends PDDIKTI requests through the site's proxy;
  - its own `normalize`;
  - the replacement `searchMahasiswa`. It tries the proxy first, then the AllOrigins relay, and otherwise answers with an empty list.
- **PddiktiProxy** (`api/pddikti-proxy.js`) is the proxy's `handler`:
  - an `OPTIONS` preflight gets 204;
  - a missing `url` gets 400;
  - the target goes through a cascade of up to two decodings;
  - the upstream status, content type and body are mirrored;
  - an upstream failure gets 502.

Some support modules model the JavaScript built-ins these scripts rely on:

- `Text`: number to string, `trim`, `split` on one character, ASCII `toUpperCase`/`toLowerCase`, `includes`.
- `Uri`: `encodeURIComponent` over UTF-8.
- `Json`: parsed JSON values.
- `Http`: what a `fetch` can end in.
- `Wrappers`: `Option` and `Result`.

The network, `decodeURIComponent` and the platform's query parsing are parameters: a transport is a function from URL to outcome.

## Model

| member | source | states |
|---|---|---|
| Gallery.Pad | assets/js/main.js:48-50 | the padded field is exactly as wide as the wider of `length` and the number's digits |
| Gallery.PadShape | assets/js/main.js:48-50 | the padded field is a run of zeros followed by every decimal digit of the number |
| Gallery.PadDenotes | assets/js/main.js:48-50 | the padded field is all decimal digits and denotes the number itself |
| Gallery.PadFits | assets/js/main.js:48-50 | a number below 10^length comes back exactly `length` characters wide |
| Gallery.PadWidens | assets/js/main.js:48-50 | a number of 10^length or more comes back as its plain digits, wider than the field: `padStart` never truncates |
| Gallery.PadInjective | assets/js/main.js:48-50 | equal padded fields of the same width come from equal numbers |
| Gallery.PadTwo | assets/js/main.js:48-50 | a code below 100 pads to its tens and units digits |
| Gallery.PadThree | assets/js/main.js:48-50 | a number below 1000 pads to its hundreds, tens and units digits |
| Gallery.PadText | assets/js/main.js:91 | `padStart` on the typed text: as wide as the wider of `length` and the text, never cut |
| Gallery.PadTextShape | assets/js/main.js:91 | the padded text is a run of zeros followed by the whole text |
| Gallery.PadIsPadText | assets/js/main.js:48-50 | padding a number is padding its decimal rendering |
| Gallery.FormPrefix | assets/js/main.js:91 | the prefix of an initial load is as wide as the three padded codes together |
| Gallery.TypedPrefix | assets/js/main.js:91 | codes typed as the plain decimal rendering of numbers give the numeric prefix `NimPrefix` |
| Gallery.TypedCodeKept | assets/js/main.js:91 | a faculty code typed with more than two characters, a leading zero included, is kept whole and makes the prefix longer than 7 |
| Gallery.NimPrefix | assets/js/main.js:91 | the prefix for numeric codes is as wide as the three padded fields together |
| Gallery.Nim | assets/js/main.js:97 | a NIM starts with the prefix and adds at least three characters, the padded sequence number |
| Gallery.NimIsTenDigits | assets/js/main.js:91-97 | with every field inside its width, a NIM is ten decimal digits |
| Gallery.NimInjective | assets/js/main.js:97 | under one prefix, different sequence numbers give different NIMs, even past 999 |
| Gallery.NimDeterminesFields | assets/js/main.js:91-97 | with every field inside its width, a NIM determines cohort, faculty, programme and sequence number |
| Gallery.OverflowCollides | assets/js/main.js:91-97 | no field is checked against its width, so programme 10p+d with sequence i and programme p with sequence 1000d+i give the same NIM |
| Gallery.TrailingDigit | assets/js/main.js:48-50 | a 4-digit programme code pads to its first three digits followed by the fourth |
| Gallery.LeadingDigit | assets/js/main.js:48-50 | a 4-digit sequence number pads to its leading digit followed by the padded last three |
| Gallery.Example | assets/js/main.js:91-97 | cohort 24, faculty 1, programme 140 and sequence 5 give "2401140005" |
| Gallery.ExamplePrefix | assets/js/main.js:91 | cohort 24, faculty 1 and programme 140 give the prefix "2401140" |
| Gallery.ExampleCohort | assets/js/main.js:48-50 | 24 padded to 2 is "24" |
| Gallery.ExampleProgramme | assets/js/main.js:48-50 | 140 padded to 3 is "140" |
| Gallery.ExampleSequence | assets/js/main.js:48-50 | 5 padded to 3 is "005" |
| Gallery.NimRange | assets/js/main.js:95-99 | a run holds `count` NIMs, the k-th for sequence number start + k |
| Gallery.NimRangeAppend | assets/js/main.js:95-100 | a run followed by the run starting where it stopped is one contiguous run |
| Gallery.RunsJoin | assets/js/main.js:95-100 | a first load followed by a second from where it stopped holds one run twice as long |
| Gallery.NimRangeSnoc | assets/js/main.js:96-98 | a run extended by the next NIM is the run one longer |
| Gallery.NimRangeDistinct | assets/js/main.js:95-99 | no run holds the same NIM twice |
| Gallery.Album.constructor | assets/js/main.js:18-19 | an empty prefix, cursor 1 and an empty grid |
| Gallery.Album.LoadImages | assets/js/main.js:85-104 | an initial load clears the grid, rebuilds the prefix from the typed codes (`FormPrefix`) and restarts at the form's start number. Every load appends the run of `count` NIMs from the cursor and leaves the cursor just past it |
| Gallery.GenerateThenLoadMore | assets/js/main.js:106-107 | Generate then Load More with the same count leaves one contiguous run of 2·count NIMs from the start number, with the cursor just past it |
| Text.Digits | assets/js/main.js:49 | `toString` of a non-negative integer: at least one decimal digit, no leading zero except for 0 |
| Text.ValueOfDigits | assets/js/main.js:49 | the decimal rendering reads back as the number |
| Text.DigitsInjective | assets/js/main.js:49 | different numbers render differently |
| Text.DigitsFit | assets/js/main.js:49 | a number has at most k digits exactly when it is below 10^k |
| Text.Zeros | assets/js/main.js:49 | the `padStart` fill: k '0' characters |
| Text.ValueOfZerosPrefix | assets/js/main.js:49 | leading zeros do not change the value of a digit string |
| Text.Trim | assets/js/search.js:56 | `trim` removes exactly the leading and trailing JavaScript white space. The result is empty exactly when the input is all white space |
| Text.TrimIdempotent | assets/js/search.js:257 | trimming an already trimmed query changes nothing |
| Text.Split | assets/js/search.js:56 | `split` always gives at least one piece |
| Text.SplitPiecesFree | assets/js/search.js:56 | no piece of a split contains the separator |
| Text.JoinSplit | assets/js/search.js:56 | joining the pieces with the separator gives the string back |
| Text.SplitJoin | assets/js/search.js:56 | splitting a join of separator-free pieces gives the pieces back |
| Text.SplitCount | assets/js/search.js:56-57 | the split has one piece exactly when the separator does not occur |
| Text.SplitFree | assets/js/search.js:56-57 | a string without the separator splits into itself alone |
| Text.SplitFirst | assets/js/search.js:58 | a string not starting with the separator has a first piece starting with its first character |
| Text.SplitLast | assets/js/search.js:58 | the last piece is everything after the last separator |
| Text.LastIndexOfIsLast | assets/js/search.js:58 | no separator occurs after the position the last piece starts from |
| Text.Upper | assets/js/search.js:57-58 | `toUpperCase` maps every character and keeps the length |
| Text.Lower | assets/js/search.js:154 | `toLowerCase` maps every character and keeps the length |
| Text.Includes | assets/js/search.js:154 | a pattern longer than the text is never included |
| Text.CharAt0 | assets/js/search.js:57-58 | `charAt(0)`: the first character, or "" for the empty string |
| Text.IncludesIff | assets/js/search.js:154 | `includes` holds exactly when the pattern occurs at some position |
| Search.GetInitials | assets/js/search.js:54-59 | a missing or empty name gives "?". Any other name gives at most two characters |
| Search.InitialsOfWords | assets/js/search.js:56-58 | the initials of a trimmed name are at most two characters |
| Search.OrElse | assets/js/search.js:153 | `value \|\| fallback`: a non-empty value is kept, a missing or empty value gives the fallback, and the result is empty only when the fallback is |
| Search.GetInitialsOfName | assets/js/search.js:54-59 | for a non-empty name, with t its trimmed form, the initials are: nothing when t is empty; the upper-cased first character of t when t has no space; otherwise the upper-cased first character of t and the character after the last space |
| Search.InitialsOfNoSpace | assets/js/search.js:56-57 | a name without a space gives its upper-cased first character |
| Search.InitialsOfSpaced | assets/js/search.js:56-58 | a trimmed name with a space gives the upper-cased first character and the upper-cased character after the last space |
| Search.SpacedWords | assets/js/search.js:56-58 | such a name splits into several words; the first starts with its first character and the last is everything after its last space |
| Search.SearchUrl | assets/js/search.js:115 | the request URL is the API address, `?query=`, and the encoded query, at least as long as the query; `SearchUrlInjective` shows nothing of the query is lost |
| Search.SearchUrlInjective | assets/js/search.js:115 | different queries give different request URLs |
| Search.SearchUrlHoldsOneParameter | assets/js/search.js:115 | whatever the query holds, the request URL is the API address plus `?query=` and one parameter value with no `&`, `#`, `?`, `/` or `=` |
| Search.NormalizeResults | assets/js/search.js:131-139 | a bare array is taken as is, else an array under `data`, else an array under `mahasiswa`, else no results. A non-empty answer comes from one of those shapes |
| Search.SearchMahasiswa | assets/js/search.js:114-144 | succeeds exactly when the request yields a 2xx response with a JSON body, and then gives the normalised body. A non-2xx status fails naming it, and a network error fails with its message |
| Search.NimText | assets/js/search.js:153 | a missing or empty NIM shows as "-", any other NIM shows as it is, and the text is never empty |
| Search.IsUnmul | assets/js/search.js:154 | a record is Unmul exactly when its institution name is present and, lower-cased, contains "mulawarman" at some position |
| Search.UnmulIgnoresCase | assets/js/search.js:154 | any ten characters of the institution name that lower-case to "mulawarman" make the record Unmul |
| Search.CreateCard | assets/js/search.js:147-193 | the card shows the NIM text and the initials of the name. It has a photo from the AIS server, addressed by that NIM, exactly for Unmul records. Name, institution and programme are the record's non-empty strings or the fixed fallbacks `Nama tidak tersedia`, `PT tidak tersedia` and `Prodi tidak tersedia`, so never empty |
| Search.CardError | assets/js/search.js:152-154 | a card throws exactly for a null record, a truthy non-string `nama` (reaching `trim`), or a truthy non-string `nama_pt` (reaching `toLowerCase`), in that order, each with a non-empty message |
| Search.TextRecordRenders | assets/js/search.js:152-154 | a record whose fields are all strings or null never throws |
| Search.RenderedCount | assets/js/search.js:206-209 | the results before that position all render, and the one at it, if any, throws |
| Search.RenderedStep | assets/js/search.js:206-209 | walking the results from the front, the first card that throws is the one at RenderedCount |
| Search.CardsOf | assets/js/search.js:206-209 | one card per result |
| Search.CardsOfSnoc | assets/js/search.js:206-209 | one more result appends its card |
| Search.QueryLabel | assets/js/search.js:204 | the label holds the query between `Pencarian: "` and `"` |
| Search.MapSeqEach | assets/js/search.js:206-209 | mapping over a list keeps its length and maps the k-th element to the k-th result |
| Search.MapSeqSnoc | assets/js/search.js:206-209 | mapping a list one element longer appends one mapped element |
| Search.CardsOfEach | assets/js/search.js:206-209 | one card per result, in the order of the results |
| Search.SearchPage.constructor | assets/js/search.js:11-19 | no panel chosen, no cards, nothing searched |
| Search.SearchPage.ShowState | assets/js/search.js:75-97 | exactly the chosen panel is shown, the results container is emptied, and nothing else changes |
| Search.SearchPage.AppendCards | assets/js/search.js:206-209 | cards are appended in order up to the first record that throws; that record's TypeError is passed on, and nothing but the cards changes |
| Search.SearchPage.DisplayResults | assets/js/search.js:196-210 | an empty list shows the no-results panel. Otherwise the results panel shows with the count and the query label. When every record renders the container holds exactly one card per result in order. Otherwise the cards before the first throwing record stay and its TypeError is passed on. The error message is untouched |
| Search.SearchPage.PerformSearch | assets/js/search.js:256-275 | a query that is empty once trimmed shows the empty panel and searches for nothing. Otherwise the trimmed query is searched for once, and a success whose records all render is displayed. A failed search shows the error panel with its message, or the generic one when the message is empty. A record whose card throws also shows the error panel, with the TypeError's message, after count and label were set. A failure or an empty list leaves count and label as they were. The error panel shows only after one of those two |
| Search.SearchDirect | assets/js/search.js:124-126 | with the page's own search, a non-2xx status ends on the error panel naming the status |
| ProxyOverride.InspectedUrl | assets/js/proxy-override.js:11 | a string is inspected itself, a request-like object by its `url` ("" when it has none), and anything else as "" |
| ProxyOverride.IsPddikti | assets/js/proxy-override.js:12 | `startsWith` the PDDIKTI origin: at least as long as it and equal to it on its length |
| ProxyOverride.ProxiedUrl | assets/js/proxy-override.js:13 | the proxy address followed by the encoded URL, at least as long as the URL; `ProxiedUrlInjective` shows nothing of the URL is lost |
| ProxyOverride.ProxiedUrlInjective | assets/js/proxy-override.js:13 | different URLs give different proxy addresses |
| ProxyOverride.AllOriginsUrl | assets/js/proxy-override.js:34 | the AllOrigins address followed by the encoded URL, at least as long as the URL; `AllOriginsUrlInjective` shows nothing of the URL is lost |
| ProxyOverride.AllOriginsUrlInjective | assets/js/proxy-override.js:34 | different URLs give different AllOrigins addresses |
| ProxyOverride.TargetUrl | assets/js/proxy-override.js:45 | the PDDIKTI search address followed by the encoded query, at least as long as the query; `TargetUrlInjective` shows nothing of the query is lost |
| ProxyOverride.TargetUrlInjective | assets/js/proxy-override.js:45 | different queries give different PDDIKTI search addresses |
| ProxyOverride.Reroute | assets/js/proxy-override.js:9-18 | a URL starting with the PDDIKTI origin, given as a string or inside a request, is replaced by the proxy URL carrying it encoded. Every other input passes through unchanged |
| ProxyOverride.NotRerouted | assets/js/proxy-override.js:11-12 | a URL that differs from the PDDIKTI origin within its length is not rerouted |
| ProxyOverride.ProxiedNotRerouted | assets/js/proxy-override.js:12-14 | the proxy URL the wrapper produces is not rerouted again |
| ProxyOverride.RerouteIdempotent | assets/js/proxy-override.js:9-18 | rerouting twice is rerouting once |
| ProxyOverride.AllOriginsNotRerouted | assets/js/proxy-override.js:34-35 | the AllOrigins fallback request passes through the wrapper unchanged |
| ProxyOverride.SearchApiNotRerouted | assets/js/proxy-override.js:12 | the search page's own API request passes through the wrapper unchanged |
| ProxyOverride.Normalize | assets/js/proxy-override.js:20-24 | a bare array is taken as is, else an array under `mahasiswa`, else no results |
| ProxyOverride.NormalizationsDiffer | assets/js/proxy-override.js:20-24 | the override's normalisation and the search page's disagree exactly on an object whose `data` array differs from what the override gives |
| ProxyOverride.ViaVercelProxy | assets/js/proxy-override.js:26-31 | succeeds exactly when the proxied request yields a 2xx JSON response, and then gives its body. A non-2xx status fails naming it |
| ProxyOverride.ViaAllOrigins | assets/js/proxy-override.js:33-41 | succeeds exactly when the relayed request yields a 2xx JSON response. A non-2xx status fails naming it, and a body that is not JSON fails as an invalid proxy response |
| ProxyOverride.SearchMahasiswa | assets/js/proxy-override.js:44-63 | the proxy is asked first and AllOrigins exactly when the proxy fails, both for the same PDDIKTI search URL. The answer is the normalised body of the first success, or empty when both fail |
| ProxyOverride.SearchOverridden | assets/js/proxy-override.js:43-63 | with the override installed, a search ends on the error panel only when a record of the override's answer makes its card throw; a non-empty query whose records all render displays that answer |
| Uri.EncodeURIComponent | assets/js/proxy-override.js:13 | the result holds only unreserved characters, `%` and hex digits. It is never shorter than the input, and it equals the input exactly when every input character is unreserved |
| Uri.EncodeChar | assets/js/proxy-override.js:13 | an unreserved character stays as it is; any other becomes `%`-escapes |
| Uri.PercentEncode | assets/js/proxy-override.js:13 | three characters per byte, `%` exactly at every third position |
| Uri.PercentEncodeHex | assets/js/proxy-override.js:13 | each byte's `%` is followed by its high and low hexadecimal digits |
| Uri.PercentEncodeInjective | assets/js/proxy-override.js:13 | equally long byte runs whose escapes start two equal strings are the same bytes, followed by the same rest |
| Uri.EscapesPrefixFree | assets/js/proxy-override.js:13 | the escapes of two characters starting two equal strings belong to the same character: the lead byte fixes the length and the bytes decode back |
| Uri.EncodeCharPrefixFree | assets/js/proxy-override.js:13 | no character's encoding is the start of another's |
| Uri.EncodeInjective | assets/js/proxy-override.js:13 | `encodeURIComponent` is injective: equal encodings come from equal strings |
| Uri.Utf8 | assets/js/proxy-override.js:13 | the shortest UTF-8 encoding: lead byte for the length, continuation bytes, decoding back to the code point |
| Uri.EncodeAppend | assets/js/proxy-override.js:13 | encoding works character by character: it distributes over concatenation |
| PddiktiProxy.DecodedTarget | api/pddikti-proxy.js:17-30 | the target is decoded twice when both decodings succeed, once when only the first does, and kept as given when the first fails |
| PddiktiProxy.DecodeTarget | api/pddikti-proxy.js:17-30 | the try/catch cascade yields `DecodedTarget`; it calls the decoder three times exactly when the first decoding succeeds and the second fails, and twice otherwise |
| PddiktiProxy.PlainTargetKept | api/pddikti-proxy.js:17-30 | an address decoding leaves alone is fetched as it is |
| PddiktiProxy.PlainSearchReachesUpstream | api/pddikti-proxy.js:17-33 | a search address the override builds from unreserved characters is the API base plus the query, and is fetched unchanged |
| PddiktiProxy.PlainTargetUnescaped | assets/js/proxy-override.js:45 | such an address carries no percent sign |
| PddiktiProxy.Respond | api/pddikti-proxy.js:1-45 | a preflight gets 204 with the CORS headers. A missing or empty `url` gets 400 with the JSON error. Otherwise the upstream status and bytes are mirrored with the content type (JSON by default) and a five-minute cache, or a failure gets 502 naming it. Every answer allows any origin |
| PddiktiProxy.PreflightIgnoresUrl | api/pddikti-proxy.js:3-9 | a preflight answers 204 whatever `url` it carries |
| PddiktiProxy.ServerResponse.SetHeader | api/pddikti-proxy.js:4 | sets one header and changes nothing else |
| PddiktiProxy.ServerResponse.Status | api/pddikti-proxy.js:8 | sets the status and changes nothing else |
| PddiktiProxy.ServerResponse.End | api/pddikti-proxy.js:8 | finishes the answer without a body |
| PddiktiProxy.ServerResponse.Json | api/pddikti-proxy.js:14 | finishes the answer with a JSON body |
| PddiktiProxy.ServerResponse.Send | api/pddikti-proxy.js:40 | finishes the answer with the given bytes |
| PddiktiProxy.Handle | api/pddikti-proxy.js:1-45 | the handler finishes the response with the status and body of `Respond`, and adds exactly `Respond`'s headers |

## Left out

- The DOM, the theme toggle, the modals, the loading indicator, the Escape key handlers and `getRandomGradient` are left out. They are rendering and randomness with no logic to state. A card's gradient is not part of `Search.Card`.
- `openDetailModal` (`assets/js/search.js:213-248`) is not modelled separately. Its NIM default and Unmul test are the same `NimText` and `IsUnmul` as the card's.
- The cohort, faculty and programme codes are padded as the typed text, as the page does. The start number and the count are `parseInt` results, taken as natural numbers; `NaN`, negative and fractional input are not modelled.
- Gallery.Pad: JavaScript numbers are doubles, and `toString()` of 10^21 or more is exponent notation. `Text.Digits` renders every natural number in plain decimal.
- Gallery.Album.LoadImages: from 2^53 on, the page's `i++` no longer advances a double, so the loop would never end. The model's sequence numbers are unbounded integers.
- Search.GetInitials: JavaScript strings are UTF-16, so `charAt(0)` of a name starting outside the Basic Multilingual Plane gives half a surrogate pair. `Text.CharAt0` gives the whole character.
- Case mapping is ASCII only. `toUpperCase`/`toLowerCase` of other letters, including ones that change length, are not modelled.
- JSON numbers are integers.
- A truthy `nama` or `nama_pt` that is not a string, and a `null` record, make `createResultCard` throw. The page then ends on the error panel with the TypeError's message, as `Search.CardError` and `Search.SearchPage.PerformSearch` state. The messages follow V8's wording; other engines word them differently.
- A truthy `nim` or `nama_prodi` that is not a string would be shown as its string form. Search.CreateCard reads it as absent and shows the fallback.
- A `null` or non-array `results` given to `displayResults` is not modelled: the search functions always hand it an array.
- Uri.EncodeURIComponent: lone surrogates, on which `encodeURIComponent` throws, do not arise, because a Dafny `char` is a Unicode scalar value.
- `decodeURIComponent` is a parameter of the proxy model, and so is the platform's parsing of the query string. Likewise, `res.json` and `res.send` setting their own content type are not modelled.
- A `url` parameter given several times, which the platform hands over as an array, is not modelled.
- Asynchrony, the `signal` (abort) argument, the `init` argument of the wrapped `fetch` and console logging are left out.
- ProxyOverride.Reroute: a throw inside the wrapper's `try` is not modelled. It can come from a throwing `url` getter on the input, or from `encodeURIComponent` on a PDDIKTI URL that holds a lone surrogate. Either way the page falls back to the original `fetch` with the input unchanged, so that URL is not rerouted.
- ProxyOverride.Reroute: when a rerouted request object carried a method, headers or a body of its own, the model does not say that these are lost. Only the URL argument is modelled.
- ProxyOverride.ViaAllOrigins: a body that is not JSON is judged once. The second parse of `String(text)` sees the same text and is not modelled.
- Script load order is left out. The override is modelled as installed: `ProxyOverride.SearchOverridden` shows the page with it, and `Search.SearchDirect` shows the page without it.
- The repository has no lookup cache, no bounded task queue and no record picker, so none is modelled.
