# Offcanvas product search, modelled in Dafny

This project models the search behind the offcanvas search box of a small
plant shop's web site. All of that behaviour lives in `js/search.js`. The
model covers these pieces:

- **Query text.** `normalize` lower-cases, strips combining marks, collapses
  runs of white space into one space and trims. `String.prototype.trim`,
  `toLowerCase` and `includes` are modelled too, since the search path uses
  them directly.
- **`escapeHtml`.** It replaces `& < > " '` with their entities.
  `Unescape` decodes those five entities and is its proved inverse.
- **`encodeURIComponent`** (ECMA-262, section 19.2.6.5, with the UTF-8
  encoding of RFC 3629). It builds the redirect URL. A model of
  `decodeURIComponent` (section 19.2.6.2) is its proved inverse.
- **The match test.** A candidate matches when the lower-cased query is a
  substring of its lower-cased name, category (id) or image alt text.
- **The candidates.** These are the fifteen-record `productData` table and
  the `.product-item` elements of a listing page. Each listing element is a
  record of the texts the code reads from it.
- **`performSearch` and `fetchAndShowProducts`.** Each is a loop over the
  candidates. It clears the result container, appends one card per match
  in order, counts the matches in `found`, and writes the "no results"
  notice when the count is zero. On a listing page, a matching element
  without a `.card` makes the clone throw: the scan stops there, the
  cards already appended stay and no notice follows.
- **`searchData`.** An empty trimmed query returns before anything changes.
  Otherwise the panel expands and the container shows its loading state.
  Then one of three modes follows:
  - a page without product elements that is not the home page redirects
    to `shop.html?search=<encoded query>`;
  - the home page scans the product table;
  - any other page scans its own elements.
- **The small handlers.** These are `goToShopWithSearch`, the reset of the
  `input` listener and the reset of the listener for the panel being hidden.

Code that works by changing state is modelled as classes:

- `ResultBox` is the `#result` container. It holds its child blocks and
  whether its class list contains `loading`.
- `Page` holds the page's path, its product elements, the container, the
  panel's `search-active` class, the search input's value and the location
  the page has navigated to.

The string operations are pure functions. Each comes with lemmas that
relate it to an inverse, a fixpoint or an independent characterisation.

The code tests for the home page before it uses the product elements
(js/search.js:57-70), so the home page renders the product table even when
it has `.product-item` elements of its own (`Search.ResolveMode`).

`normalize` is defined but never called. The search path trims and
lower-cases the query and does nothing more. `QueryNormalize` models it for
its own properties, and the search model does not use it.

Modules:

- `Options`: an optional value.
- `Text`: character classes, lower case, trim, prefix, suffix, substring.
- `HtmlEscape`
- `QueryNormalize`
- `UriComponent`
- `Filtering`: an order-keeping filter and its exact positions.
- `Catalog`: the table, listing items, the match test.
- `Search`: modes, result entries, `ResultBox`, `Page`.
- `SearchExamples` and `SucculentExample`: concrete searches worked
  through the model.

## Model

| member | source | states |
|---|---|---|
| Text.ToLower | js/search.js:14 | each upper-case letter A to Z becomes its lower-case partner (code point plus 32); any other character is unchanged; the result is never upper case and is white space exactly when the input is |
| Text.ToLowerEqual | js/search.js:83 | two characters lower-case alike exactly when they are equal or an upper-case letter and its lower-case partner |
| Text.LowerEqual | js/search.js:83 | two texts lower-case alike exactly when they have the same length and differ at most in ASCII case, position by position; so the match test ignores case |
| Text.LowerIsLowerCase | js/search.js:83 | the result of `toLowerCase` is lower case, and lower-casing a lower-case string changes nothing |
| Text.TrimStart | js/search.js:18 | the result is a suffix of the input; everything dropped is white space; the result does not start with white space |
| Text.TrimEnd | js/search.js:18 | the result is a prefix of the input; everything dropped is white space; the result does not end with white space |
| Text.TrimSlice | js/search.js:32 | `trim` returns one contiguous slice of the input; everything cut on either side is white space; the slice neither starts nor ends with white space |
| Text.TrimIdentity | js/search.js:32 | `trim` leaves a string unchanged exactly when the string neither starts nor ends with white space |
| Text.ContainsOccurs | js/search.js:91 | `includes` holds exactly when the needle occurs at some position of the text |
| Text.ContainsChars | js/search.js:91 | a text that includes the needle holds every character of the needle |
| HtmlEscape.EscapeChar | js/search.js:23-24 | each of the five special characters becomes an entity that starts with `&` and is longer than one character; every other character is kept as it is |
| HtmlEscape.EscapeHtmlCons | js/search.js:23 | the replacement works character by character, left to right |
| HtmlEscape.EscapeHtmlSafe | js/search.js:22-25 | the escaped text contains none of `<`, `>`, `"`, `'` |
| HtmlEscape.EscapeHtmlLength | js/search.js:23-24 | escaping never shortens a text, and it keeps the length exactly when the text has no special character |
| HtmlEscape.EscapeHtmlIdentity | js/search.js:23-24 | escaping is the identity exactly on texts without a special character |
| HtmlEscape.Lead | js/search.js:24 | decoding the front of a non-empty text consumes at least one character and at most the whole text |
| HtmlEscape.LeadEscapeChar | js/search.js:24 | decoding the front of an escaped character gives back that character and consumes exactly its escape |
| HtmlEscape.UnescapeEscapeChar | js/search.js:24 | decoding undoes the escape of one character, whatever follows it |
| HtmlEscape.UnescapeEscapeHtml | js/search.js:22-26 | decoding the five entities in `escapeHtml(s)` gives back exactly `s` |
| HtmlEscape.EscapeHtmlInjective | js/search.js:22-26 | two different queries never escape to the same text |
| QueryNormalize.StripMarks | js/search.js:16 | no combining mark U+0300 to U+036F is left, and every character kept comes from the input |
| QueryNormalize.StripMarksFilter | js/search.js:16 | stripping the marks keeps every character that is not a combining mark, in order, and nothing else |
| QueryNormalize.StripMarksPositions | js/search.js:16 | the kept characters are the input's at strictly increasing positions, and these are exactly the positions without a combining mark |
| QueryNormalize.CollapseAppend | js/search.js:17 | collapsing works piece by piece across a cut that follows something other than white space |
| QueryNormalize.CollapseRun | js/search.js:17 | a non-empty run of white space between two texts becomes exactly one space, and the texts on either side are kept, each collapsed on its own |
| QueryNormalize.CollapseKeepsClass | js/search.js:17 | collapsing adds no upper-case letter and no combining mark |
| QueryNormalize.CollapseShape | js/search.js:17 | after the replacement every white-space character is a plain space and no two white-space characters stand side by side |
| QueryNormalize.Normalize | js/search.js:12 | an empty input gives the empty string |
| QueryNormalize.NormalizeIsNormalized | js/search.js:11-19 | the result is lower case, has no combining mark, no white space other than single spaces, no run of white space, and no white space at either end |
| QueryNormalize.StripMarksIdentity | js/search.js:16 | a text without combining marks is kept unchanged |
| QueryNormalize.CollapseIdentity | js/search.js:17 | a text whose white space is already single plain spaces is kept unchanged |
| QueryNormalize.NormalizeFixpoint | js/search.js:11-19 | normalize leaves a string unchanged exactly when the string is already normalized |
| QueryNormalize.NormalizeIdempotent | js/search.js:11-19 | normalizing twice is the same as normalizing once |
| QueryNormalize.VisibleTrim | js/search.js:18 | trimming removes white space only |
| QueryNormalize.VisibleCollapse | js/search.js:17 | collapsing removes or replaces white space only |
| QueryNormalize.NormalizeKeepsText | js/search.js:11-19 | apart from white space, the result holds exactly the characters of the lower-cased, mark-free input, in the same order |
| UriComponent.HexDigit | js/search.js:59 | an octet's hex digits are upper case |
| UriComponent.Utf8 | js/search.js:59 | a character encodes to one to four octets |
| UriComponent.HexRoundTrip | js/search.js:59 | reading an upper-case hex digit back gives its value |
| UriComponent.ReadPercentBytes | js/search.js:59 | the percent escapes of a list of octets read back as those octets |
| UriComponent.Utf8WellFormed | js/search.js:59 | the octets of a character form a well-formed, shortest-form UTF-8 sequence of the right length, whose code point is the character |
| UriComponent.DecodeEncodedChar | js/search.js:59 | the escapes of a reserved character decode back to that character and consume exactly its escapes |
| UriComponent.DecodeEncodeChar | js/search.js:59 | decoding undoes the encoding of one character, whatever follows it |
| UriComponent.DecodeEncode | js/search.js:59 | `decodeURIComponent(encodeURIComponent(q)) == q` for every query |
| UriComponent.EncodeIsUriSafe | js/search.js:59 | the encoded query holds only unreserved characters, `%` and hex digits, so it has no `&`, `=`, `#`, `+`, `?` or space |
| UriComponent.EncodeIdentity | js/search.js:59 | encoding leaves a query unchanged exactly when every character of it is unreserved |
| UriComponent.EncodeLength | js/search.js:59 | encoding never shortens a query |
| Filtering.FilterAppend | js/search.js:85-107 | scanning two lists one after the other keeps the matches of the first before those of the second |
| Filtering.FilterPositions | js/search.js:85-107 | the scan's output is the input elements at strictly increasing positions, and those are exactly the positions that pass the test |
| Filtering.FilterMembers | js/search.js:85-107 | a value is in the output exactly when it is in the input and passes the test |
| Catalog.ItemFields | js/search.js:86-89 | a listing element's name is its `.name` text, else its `.card-title` text, else empty; its category is its id; its type is its image's alt text, else empty |
| Catalog.MatchesOccurs | js/search.js:83-91 | a candidate matches exactly when the lower-cased query occurs in its lower-cased name, category or alt text |
| Search.ResolveMode | js/search.js:52-75 | redirect exactly when the page has no product elements and is not the home page; catalog exactly on the home page; listing exactly when there are product elements and it is not the home page |
| Search.HomePageBySuffix | js/search.js:52-54 | the home-page test holds exactly when the path ends in `index.html` or in `/`, so the separate test for the path `/` adds nothing |
| Search.RedirectCarriesQuery | js/search.js:57-62 | the redirect goes to `shop.html?search=` followed by a value that holds no URL delimiter and decodes to the query |
| Search.FirstBreak | js/search.js:91-99 | the listing scan throws at the first matching element without a `.card`: no element before it stops the scan, and it does; when there is none, the scan runs to the end |
| Search.BreakAt | js/search.js:91-99 | when the scan reaches the element at `i` and that element stops it, the scan stops at `i`, the container holds the cards of the matches before `i`, and `found` has counted `i` as well |
| Search.NoBreak | js/search.js:85-112 | when no element stops the scan, it completes with the cards or the notice |
| Search.ScanStep | js/search.js:85-107 | one step of a scan extends the matches of the prefix by the next candidate exactly when it matches |
| Search.SelectEmpty | js/search.js:110-112 | the scan finds nothing exactly when no candidate matches |
| Search.ListingResultsExact | js/search.js:79-113 | after a listing scan, the container holds the notice exactly when no element matches; otherwise it holds one card per matching element, at strictly increasing page positions, which are exactly the positions that match |
| Search.CatalogResultsExact | js/search.js:193-227 | the same for the product table: the cards are exactly the matching records, each once, in table order |
| Search.BrokenScanExact | js/search.js:91-112 | after a scan that throws at element `j`, the container holds no notice and exactly the cards of the matching elements before `j`, in page order; later matches are lost |
| Search.NoticeQuotesQuery | js/search.js:153-164 | the notice is a single block whose quoted query holds no markup character and decodes back to the query |
| Search.ResultBox.Clear | js/search.js:270-273 | the container is emptied and its class list reset |
| Search.ResultBox.ShowLoading | js/search.js:48-49 | the container is emptied and shows its loading state |
| Search.ResultBox.ShowNoResults | js/search.js:153-164 | the content becomes the one notice quoting the escaped query; the class list is untouched |
| Search.ResultBox.PerformSearch | js/search.js:79-113 | the earlier content is cleared and the loading state ends; `thrown` holds exactly when some matching element has no `.card`; `found` counts the matches up to and including that element, or all of them; the content is the scan's outcome: the cards of the matches before the throw, or, without a throw, all the cards in page order or the notice when there are none |
| Search.ResultBox.FetchAndShowProducts | js/search.js:193-227 | the same over the fifteen records of the product table |
| Search.Page.constructor | js/search.js:30-40 | a page with its path, product elements, input value and panel, an empty container, a collapsed panel and no navigation |
| Search.Page.SearchData | js/search.js:29-76 | an empty trimmed query changes nothing; otherwise the panel expands and the chosen mode decides the rest: a redirect navigates to the encoded target and leaves the container loading; the catalog and listing modes fill it as the two scans do, a listing scan stopping at its first matching element without a `.card`, and leave the location alone |
| Search.Page.GoToShopWithSearch | js/search.js:169-171 | the page navigates to the listing page with the encoded query |
| Search.Page.OnInput | js/search.js:265-280 | once the trimmed input is empty, the container is cleared and the panel collapses; otherwise nothing changes |
| Search.Page.OnOffcanvasHidden | js/search.js:296-308 | the panel collapses, the container is cleared and the input is emptied |
| SearchExamples.RoseMatches | js/search.js:83-91 | "rose" matches the rose plant by its name |
| SearchExamples.LacksLetter | js/search.js:91 | a text that holds a query letter in neither case cannot include the query |
| SearchExamples.ZzzMatchesNothing | js/search.js:83-91 | "zzz" matches none of the rose plant's texts |
| SearchExamples.RoseRedirect | js/search.js:59 | the redirect for "rose" is `shop.html?search=rose` |
| SearchExamples.MarkupQueryIsEscaped | js/search.js:22-26 | the query `<b>` is quoted as `&lt;b&gt;` |
| SucculentExample.SucculentSearch | js/search.js:174-205 | on the home page, "succulent" selects exactly the echeveria and the aloe vera, in that order |

## Left out

- Text.ToLower: lower-cases only the Basic Latin letters A to Z. `String.prototype.toLowerCase` follows the Unicode case tables, which are not part of this model.
- QueryNormalize.Normalize: the NFD decomposition at js/search.js:15 is left out (taken as the identity), because it depends on the Unicode decomposition tables. The removal of U+0300 to U+036F that follows it is modelled exactly. So a precomposed letter such as `é` keeps its accent in the model.
- UriComponent.Utf8: the model's characters are Unicode scalar values. A lone UTF-16 surrogate, on which `encodeURIComponent` throws a URIError, cannot be written, so that error path is not modelled.
- The `setTimeout` delays at js/search.js:58, 66 and 73 are left out: the delayed step happens at once. So no other event can fall between the loading state and the scan.
- Search.Page.SearchData: a page without the `#result` element throws at js/search.js:48. The model always has a container, so that failure is not represented.
- `createProductCard` (js/search.js:230-247) and `cloneNode` are left out. A catalog card is the record it was built from, and a listing card is the element it was cloned from. Only whether an element has a `.card` is kept: the exception the clone raises without one is returned as the `thrown` flag of Search.ResultBox.PerformSearch and ends the search there, as the uncaught exception does. Cards are not escaped in the source, and the model claims no escaping for them.
- `enhanceSearchCard` (js/search.js:116-150) is left out. It only adds click handlers and styling to a card, and changes no search state.
- The `DOMContentLoaded`, `keypress` and `keydown` wiring (js/search.js:254-262, 313-323) and `closeOffcanvas` (js/search.js:285-290) are left out as event plumbing around `searchData`. The bodies of the `input` and `hidden.bs.offcanvas` listeners are modelled as `OnInput` and `OnOffcanvasHidden`.
- The panel's Bootstrap show and hide behaviour is left out. Only its `search-active` class is modelled.
- `storeData` in js/main.js is left out: it is one `localStorage` write, which is I/O. The rest of js/main.js is commented-out code. js/main.js is not part of this model.
- Reading the page (path, product elements, input value) is not modelled as I/O. These values are the `Page` constructor's parameters.
