# French representatives' pictures: a verified model

`wc-french_parliament_images.user.js` is a userscript for the National
Assembly's photo list of deputies. For each entry (`<li>`) of `#grid` it does
the following:

- reads the deputy's National Assembly identifier from the profile link (`PA` followed by digits);
- asks the Wikidata SPARQL endpoint for the image (P18) of the person with that identifier (P4123);
- when there is one, inserts a copy of the entry right after the original. The copy shows the Wikimedia
  picture, links to its Wikimedia Commons file page and has " (Wikimedia)" appended to its heading.

This project models that core in Dafny and proves what it does.

| module | file | models |
|---|---|---|
| `JsText` | `js_text.dfy` | JavaScript strings as sequences of UTF-16 code units, digits, hexadecimal digits, surrogates |
| `UriCoding` | `uri_coding.dfy` | `decodeURIComponent` (the Decode operation of ECMA-262) and its partner `encodeURIComponent`, over UTF-8 |
| `AnIdentifier` | `an_identifier.dfy` | `extractANIdentifier`: leftmost match of `/PA(\d+)/`, greedy digit run |
| `CommonsLink` | `commons_link.dfy` | `split("/").pop()` and `commonsFilePageFromImageUrl` |
| `Wikidata` | `wikidata.dfy` | the SPARQL query, the request URL, and what `fetchWikidataImageByANId` makes of the response |
| `DeputyGrid` | `deputy_grid.dfy` | `processDeputy` on one entry, and the loop of `main` over the snapshot of the grid |

Design of the model:

- **Strings.** A JavaScript string is a `seq` of code units in 0..0xFFFF (`JsString`). A lone surrogate
  is a legal JavaScript string, and `decodeURIComponent` produces surrogate pairs, so Dafny's `char`
  would not fit.
- **The network.** The HTTP exchange is an input. A `Response` says how the `fetch` promise settles:
  - it rejects;
  - or an answer arrives, with its `ok` flag and what `response.json()` and `data.results.bindings` make
    of the body (not JSON, JSON without bindings, or the list of bindings).

  `main` receives one `Response` per original entry.
- **The grid.** The grid is a `class Grid` whose field `children` is the list of entries. `processDeputy`
  (`Grid.ProcessDeputy`) splices a clone in after the original. `main`'s loop (`Grid.ProcessAll`) walks
  over the snapshot of the originals taken before the loop. Each is at a current index that grows by one
  for every clone inserted before it.
- **Specifications.**
  - One call of `processDeputy` is specified by the function `Enrichment`, which returns a `Step`:
    `Unchanged`, `Inserted(clone)` or `Threw(error)`.
  - The whole loop of `main` is specified by `MainSpec`. The originals are processed in order until the
    first call that throws. From that original on, the grid is as it was.
- **Exceptions.**
  - An error in the fetch or in reading the answer is caught and logged, and the entry is left as it is.
  - The `URIError` of `decodeURIComponent` on a malformed file name (source line 98) is not caught. It
    escapes `processDeputy` and ends `main`'s loop: the promise of `main` rejects. The model returns it as
    a value: `Threw`, `completed == false`.

## Model

| member | source | states |
|---|---|---|
| AnIdentifier.DigitRun | wc-french_parliament_images.user.js:26 | `\d+` is greedy: the run it measures is all digits and is followed by a non-digit or the end of the text |
| AnIdentifier.FindMatch | wc-french_parliament_images.user.js:26 | the regular expression matches at the returned position, at no earlier one, and `None` means it matches nowhere |
| AnIdentifier.ExtractANIdentifier | wc-french_parliament_images.user.js:25-28 | `null` exactly when no `PA` is followed by a digit; otherwise a non-empty run of digits, the whole digit run after the leftmost `PA` |
| AnIdentifier.DigitRunOfMaximalRun | wc-french_parliament_images.user.js:26 | any maximal run of digits is exactly what the greedy `\d+` captures |
| AnIdentifier.ExtractFromProfileLink | wc-french_parliament_images.user.js:25-28 | a link `…PA<digits><non-digit…>` with no earlier match yields exactly those digits |
| UriCoding.Utf8Decode | wc-french_parliament_images.user.js:31 | a multi-octet sequence decodes only to a Unicode scalar value of at least 0x80: never to a surrogate, never above 0x10FFFF |
| UriCoding.ParseEscapes | wc-french_parliament_images.user.js:31 | `n` escapes `%XY` read `n` octets from the first `3n` code units |
| UriCoding.DecodeEscape | wc-french_parliament_images.user.js:31 | an escape group spans at least 3 code units and no more than the input holds, and yields at least one code unit, at most one per escape; failure is a URIError |
| UriCoding.Decode | wc-french_parliament_images.user.js:31 | `decodeURIComponent` throws only URIError and never lengthens the text |
| UriCoding.DecodeWithoutEscapes | wc-french_parliament_images.user.js:31 | text without `%` decodes to itself |
| UriCoding.ParsedEscapesAreWellFormed | wc-french_parliament_images.user.js:31 | every `%` inside a parsed run of escapes is followed by two hexadecimal digits |
| UriCoding.DecodeRejectsBadPercent | wc-french_parliament_images.user.js:31 | a `%` anywhere that lacks two hexadecimal digits after it makes `decodeURIComponent` throw URIError |
| UriCoding.PercentEncode | wc-french_parliament_images.user.js:47 | three code units per octet |
| UriCoding.PairValue | wc-french_parliament_images.user.js:47 | a high-then-low surrogate pair names a supplementary code point whose UTF-16 form is that very pair |
| UriCoding.Encode | wc-french_parliament_images.user.js:47 | `encodeURIComponent` throws only URIError |
| UriCoding.EncodeSucceedsIffWellFormed | wc-french_parliament_images.user.js:47 | `encodeURIComponent` throws exactly when the text holds a lone surrogate (both directions) |
| UriCoding.EncodeHasNoSlash | wc-french_parliament_images.user.js:47 | encoded text never holds a `/` |
| UriCoding.PercentEncodeHasNoSlash | wc-french_parliament_images.user.js:47 | escapes never hold a `/` |
| UriCoding.ParsePercentEncode | wc-french_parliament_images.user.js:31 | the escapes written for some octets parse back to those octets, whatever follows |
| UriCoding.Utf8RoundTrip | wc-french_parliament_images.user.js:31 | UTF-8 decoding undoes UTF-8 encoding of every scalar value, and the lead octet announces the length |
| UriCoding.Utf8DecodeIsInverse | wc-french_parliament_images.user.js:31 | the reverse round trip: octets that decode are exactly the UTF-8 encoding of the result, so no overlong or other alternative form is accepted |
| UriCoding.DecodeEscapeAcceptsOnlyUtf8 | wc-french_parliament_images.user.js:31 | an escape group decodes only when its escapes spell the UTF-8 encoding of a scalar value, and then to that value's code units; a stray continuation octet, a truncated sequence, an overlong form or an encoded surrogate throws URIError |
| UriCoding.DecodeEscapeAcceptsUtf8 | wc-french_parliament_images.user.js:31 | conversely, escapes that spell the UTF-8 encoding of a scalar value in any spelling (lower- or upper-case hexadecimal digits) decode as one group to that value's code units and consume three characters per octet |
| UriCoding.DecodeEncodedCodePoint | wc-french_parliament_images.user.js:31 | the escapes written for one code point decode, as one group, to its code units |
| UriCoding.DecodeEncode | wc-french_parliament_images.user.js:31 | `decodeURIComponent(encodeURIComponent(s)) == s` whenever encoding does not throw |
| UriCoding.AsciiIsWellFormed | wc-french_parliament_images.user.js:36-42 | ASCII text (the script's literals, the digits of an identifier) holds no lone surrogate |
| UriCoding.WellFormedConcat | wc-french_parliament_images.user.js:36-42 | joining two well-formed texts gives well-formed text |
| CommonsLink.Split | wc-french_parliament_images.user.js:31 | `split("/")` gives at least one part, no part holds `/`, and joining the parts with `/` gives back the text |
| CommonsLink.LastSegment | wc-french_parliament_images.user.js:31 | `split("/").pop()` is the longest suffix without `/`: the whole text, or what follows its last `/` |
| CommonsLink.LastSegmentAfterSlash | wc-french_parliament_images.user.js:31 | the last segment of `base + "/" + tail` is `tail` when `tail` has no `/` |
| CommonsLink.CommonsFilePageFromImageUrl | wc-french_parliament_images.user.js:30-33 | the result starts with `https://commons.wikimedia.org/wiki/File:`; the only exception is URIError |
| CommonsLink.CommonsPageOfEncodedName | wc-french_parliament_images.user.js:30-33 | an image URL ending in `/` + the encoded file name links to the page of that file name |
| CommonsLink.CommonsPageOfPlainName | wc-french_parliament_images.user.js:30-33 | a last segment without `%` is used as it is |
| CommonsLink.CommonsPageRejectsBadEscape | wc-french_parliament_images.user.js:30-33 | a malformed `%` in the last segment makes the call throw URIError |
| CommonsLink.CommonsPageIgnoresDirectory | wc-french_parliament_images.user.js:31 | only the text after the last `/` matters |
| Wikidata.SparqlQuery | wc-french_parliament_images.user.js:36-42 | the identifier sits verbatim between the quotes of the P4123 literal |
| Wikidata.QueryIsWellFormed | wc-french_parliament_images.user.js:36-42 | the query is well-formed UTF-16 whenever the identifier is |
| Wikidata.QueryUrl | wc-french_parliament_images.user.js:44-47 | building the URL throws exactly when the query holds a lone surrogate, and then URIError; the URL starts with the endpoint and `?format=json&query=` |
| Wikidata.QueryUrlCarriesQuery | wc-french_parliament_images.user.js:44-47 | the URL is built without throwing, starts with the endpoint and `?format=json&query=`, and its parameter decodes back to the query |
| Wikidata.FetchWikidataImage | wc-french_parliament_images.user.js:55-58 | throws exactly on a rejected fetch or an ok body that is not JSON with bindings; `null` for a non-ok status; an image exactly when the first binding binds `image`, and then it is that term's `value` |
| Wikidata.FetchReadsOnlyFirstBinding | wc-french_parliament_images.user.js:58 | answers that agree on the first binding select the same image |
| Wikidata.FetchIgnoresBodyOfFailedRequest | wc-french_parliament_images.user.js:55 | the body of a non-ok response is never read and the result is `null` |
| DeputyGrid.LinkHref | wc-french_parliament_images.user.js:66 | `querySelector("a[href]")`: absent exactly when no anchor has an `href`, otherwise the `href` of the first anchor that has one |
| DeputyGrid.RequestedId | wc-french_parliament_images.user.js:66-73 | no request exactly when link, image or heading is missing or the link holds no `PA` followed by a digit; an identifier requested is a non-empty run of digits |
| DeputyGrid.RequestUrlIsBuilt | wc-french_parliament_images.user.js:72-77 | the identifier requested is all digits, so the request URL is always built and carries the query for it |
| DeputyGrid.Enrichment | wc-french_parliament_images.user.js:65-112 | `processDeputy` acts on an entry only when it requested an identifier and got an ok answer, and the only exception it lets out is URIError |
| DeputyGrid.UnchangedExactlyWhenSkipped | wc-french_parliament_images.user.js:70-83 | the entry is left alone exactly when link, image or heading is missing, the link holds no identifier, the fetch throws, or no non-empty image comes back |
| DeputyGrid.InsertedEntryContent | wc-french_parliament_images.user.js:85-103 | the clone has the Wikidata image as its first image, the Commons page as its first link and the heading plus " (Wikimedia)"; all else is the original's |
| DeputyGrid.ThrowsExactlyOnUndecodableFileName | wc-french_parliament_images.user.js:76-98 | `processDeputy` throws exactly when an image came back whose file name does not decode, and then it throws URIError |
| DeputyGrid.BadEscapeThrows | wc-french_parliament_images.user.js:98 | an image URL with a malformed `%` in its file name makes `processDeputy` throw URIError |
| DeputyGrid.Grid.ProcessDeputy | wc-french_parliament_images.user.js:65-112 | the grid becomes the entries up to `i`, the clone if one is inserted, then the rest; the exception returned is the step's; no change unless a clone is inserted |
| DeputyGrid.Grid.ProcessAll | wc-french_parliament_images.user.js:118-123 | the grid ends as `MainSpec` says, and `processDeputy` is called once per original up to and including the first that throws |
| DeputyGrid.EnrichGrid | wc-french_parliament_images.user.js:114-126 | without `#grid` nothing happens; otherwise the outcome of the loop over the snapshot of its children |
| DeputyGrid.Steps | wc-french_parliament_images.user.js:118-121 | one step per original |
| DeputyGrid.StepAt | wc-french_parliament_images.user.js:120-121 | the `k`-th original is processed with the `k`-th response |
| DeputyGrid.FirstThrow | wc-french_parliament_images.user.js:120-121 | the first call that throws: no earlier call throws, and that one does |
| DeputyGrid.Expanded | wc-french_parliament_images.user.js:118-121 | processing never removes an entry: the processed part is at least as long as the originals |
| DeputyGrid.MainSpec | wc-french_parliament_images.user.js:118-123 | `main`'s loop completes exactly when no call of `processDeputy` throws, and the grid never shrinks |
| DeputyGrid.ExpandedSnoc | wc-french_parliament_images.user.js:111 | processing one more original appends it and its clone, if any, to the processed part |
| DeputyGrid.ExpandedLayout | wc-french_parliament_images.user.js:118-121 | in the processed part every original is at its index plus the clones before it, directly followed by its own clone; nothing else is there |
| DeputyGrid.MainKeepsOriginalsInOrder | wc-french_parliament_images.user.js:118-123 | when no call throws, every original is kept in order, each directly followed by its clone, and the grid grows by exactly the clones |
| DeputyGrid.MainStopsAtFirstThrow | wc-french_parliament_images.user.js:120-121 | when a call throws, that original and all later ones are left as they were, at the end of the grid |
| DeputyGrid.MainSpecAtThrow | wc-french_parliament_images.user.js:120-121 | when the `k`-th call is the first to throw, `main` ends with the first `k` originals processed |
| DeputyGrid.MainSpecComplete | wc-french_parliament_images.user.js:120-123 | when no call throws, `main` ends with every original processed |
| DeputyGrid.NextGrid | wc-french_parliament_images.user.js:111 | splicing the clone of the `k`-th original after it gives the grid at original `k + 1` |

## Left out

- The HTTP exchange, `fetch` and `response.json()` are not modelled. Their outcome is the `Response`
  input, one per original entry, and `main` is given them all up front.
- The pause of 150 ms between deputies (`REQUEST_DELAY_MS`) is left out: time is not modelled.
- `console.warn` and `console.info` are left out: they only print.
- The `Accept` header is left out: it only affects the request.
- Styling is left out: `IMAGE_WIDTH`, `objectFit`, `opacity`, `outline`, `outlineOffset`, and the link's
  `target` and `title`. These are presentation attributes that nothing reads back.
- DeputyGrid.InsertedEntryContent: an entry is a flat record, so nesting is not modelled. Setting
  `textContent` on the clone's first `h3` (line 103) removes whatever elements sit inside that heading;
  when the clone's first `a` or first `img` is inside it, the inserted clone loses that link or image,
  whereas the model keeps both, as rewritten at lines 93 and 98.
- `cloneNode(true)` and element identity are replaced by value copies. An entry keeps only its anchors'
  `href`, its images' `src` and its headings' text. The original is found at a current index, not by
  reference. Together with the snapshot of entries taken at the start, this assumes the page does not
  change `#grid` while the loop waits on the fetch and on the pause (lines 77 and 121-122).
- The `src` setter's resolution of a relative URL against the page is not modelled. The URL Wikidata
  returns is absolute.
- Wikidata.FetchWikidataImage: a first binding that is not an object, or an `image` term without a
  string `value`, is not modelled. A binding is a map to RDF terms, each with a value. Nor is a
  `results.bindings` that is JSON but not an array (say `{}`): indexing it does not throw, and the
  result is then `null` (or, for an object with a key `"0"`, whatever that entry's `image.value` is),
  whereas the model knows only a missing `bindings`, which throws, and an array of bindings.
- The rejected promise of `main` (an unhandled rejection in the page) appears only as
  `completed == false`.
- The script has no cache of answers, no pool of concurrent requests and no watcher of later page
  changes: it visits the children of `#grid` once, one at a time.
- The script uses the image URL exactly as Wikidata returns it: it does not rewrite `http://` to
  `https://`, and neither does the model.
- The lint configuration and the test directory are not part of this model.
