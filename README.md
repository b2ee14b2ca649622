# nlb-lib catalogue scraper — a Dafny model

nlb-lib looks up one record (a *bid*) of the National Library Board
catalogue and returns two views of it: the list of physical copies with
their branch, shelf location, call number and status (`getAvailabilityInfo`),
and the title and author (`getTitleDetails`). The catalogue has no API, so
each lookup first fetches the entry page to learn the current session token
(`getMagicNumber`), builds the data URL from token and bid, fetches it and
extracts the fields from the HTML.

This project models the extraction and validation logic around those
fetches, all of which is pure:

- `JsText` — the JavaScript string operations used: cheerio's `.text()`
  over several matches (concatenation without separator), `join`, `split`
  on one character, `trim` (ECMAScript white space), and the decimal
  rendering of an integer inside a template string.
- `Holdings` — `parseTd` (dispatch on the cell's `data-caption`),
  `parseTr` (left fold of the partial objects with object spread) and
  `parseAvailabilities` (one record per `tr`). The HTML is abstracted to
  what the selectors read: a page is a sequence of rows, a row a sequence
  of cells, and a cell holds its optional caption and the texts of its
  `a span`, `book-location` and `span` matches. A record is a
  `map<Field, string>`, so an absent key differs from an empty string.
- `Titles` — `parseTitleDetails` over the texts of the `.card-title a`
  and `.recdetails span` matches.
- `SessionToken` — `getMagicNumber`: the last `/`-segment of the trimmed
  `data-returnurl`, or a token error.
- `Catalog` — the abstract result of a GET and the error values.
- `Lookup` — the URL templates, the two emptiness checks, and the two
  lookups as a sequential composition. The remote catalogue is a parameter:
  the outcome of the entry page GET, and a total function from a data URL
  to the outcome of its GET. Each lookup also returns the list of URLs it
  requested, so the model can state that a token failure stops the lookup
  before any data URL is requested.

Points where the code's behaviour may surprise, modelled as the code has them:

- The title is the concatenated text of the links inside *every*
  `.card-title` element, not only the first one (index.js:61).
- A failed data GET rejects with axios's error as it is. Only token
  failures get a prefix naming the phase (index.js:45, 68, 89).
- Records with missing fields are returned as they are. Only an empty list
  is an error (index.js:47-50).
- When two cells give the same key, the later one wins (index.js:22). The
  model proves this rule rather than assuming the captions are distinct.

## Model

| member | source | states |
|---|---|---|
| `Holdings.ParseTd` | index.js:25-36 | a cell yields a record exactly when its caption is one of the four recognised ones; the record then has exactly one key, the field of that caption; any other or missing caption yields nothing (`undefined`) rather than failing |
| `Holdings.CellValue` | index.js:26-35 | the value under each caption's key: concatenated texts of `a span`, of `book-location`, of `span` for Library, Shelf Location and Item Status; the space-joined `span` texts for Call Number |
| `Holdings.ConcatenatedValue` | index.js:28-34 | branch name, shelf location and status add no character of their own: each character occurs in the value as often as in the collected texts together |
| `Holdings.CallNumberSeparators` | index.js:31-32 | a call number built from n >= 1 span texts has exactly n - 1 more spaces than those texts; with no span it is "" |
| `Holdings.CallNumberFragments` | index.js:32 | span texts without spaces can be read back from the call number by splitting on spaces, in document order |
| `Holdings.Spread` | index.js:22 | object spread of a partial record into the accumulator gives the union of the keys, with the partial's value on shared keys; spreading `undefined` changes nothing |
| `Holdings.ParseTds` | index.js:20 | one partial record per cell, and partial i is what cell i yields |
| `Holdings.ReduceLookup` | index.js:22 | reducing partial records into an accumulator keeps the accumulator's value for a key exactly when no partial has that key; otherwise the value is that of the last partial that has it |
| `Holdings.LastValueSome` | index.js:22 | some partial record's value survives for a key exactly when some partial has that key |
| `Holdings.Reduce` | index.js:22 | the fold of object spreads never drops a key of the accumulator; its values are given by `Holdings.ReduceLookup` |
| `Holdings.ParseTr` | index.js:17-24 | a row's record has key f with value v exactly when the last partial record of its cells that has f gives v |
| `Holdings.ContributionSome` | index.js:26-35 | a cell gives a value for a field exactly when its caption is that field's caption |
| `Holdings.ParseTrKeys` | index.js:20-22 | the keys of a row's record are exactly the fields named by the captions of its cells |
| `Holdings.LastValueAt` | index.js:22 | the last partial record that has key f is the one whose value for f survives the merge |
| `Holdings.ParseTrLaterWins` | index.js:20-22 | when several cells give the same field, the record holds the value of the latest of them |
| `Holdings.ParseTrNoRecognisedCell` | index.js:20-22 | a row with no recognised caption yields the empty record `{}` |
| `Holdings.ParseAvailabilities` | index.js:37-40 | one record per `tr`, and record i is the merged record of row i |
| `Holdings.ParseAvailabilitiesAppend` | index.js:39 | parsing preserves row order: the records of two consecutive runs of rows are those of the first run followed by those of the second |
| `Titles.FirstText` | index.js:62 | `.first().text()` is the first match's text, and "" when nothing matched |
| `Titles.ParseTitleDetails` | index.js:59-64 | a single `.card-title a` link gives its text as the title (and, with `Titles.TitleFromAllLinks`, several links give their texts one after the other); the author is the first `.recdetails span` text; the title is empty exactly when every link text is empty, the author exactly when there is no span or the first one is empty |
| `Titles.AuthorFromFirstSpan` | index.js:62 | spans after the first `.recdetails span` do not affect the result |
| `Titles.TitleFromAllLinks` | index.js:61 | the title over two runs of links is the title of the first run followed by that of the second |
| `SessionToken.LastSegment` | index.js:86 | `split('/').pop()` returns the longest `/`-free suffix: the whole string when it has no `/`, otherwise what follows its last `/` |
| `SessionToken.ResolveToken` | index.js:79-91 | a token error exactly when the entry GET fails or the return URL attribute is missing; a resolved token never contains `/` |
| `SessionToken.TokenIsLastSegment` | index.js:85-86 | with trim(url) = t: if t contains `/`, t == prefix + "/" + token; otherwise token == t |
| `Catalog.TokenErrorMessage` | index.js:88-90 | every token error's message starts with "Error in getMagicNumber: " |
| `Catalog.Message` | index.js:48-89 | the string a lookup rejects with: a token error's starts with "Error in getMagicNumber: ", a failed data GET's is its own message unchanged, and each lookup's "not found" sentence is its own (index.js:48, 71) |
| `Lookup.CheckAvailabilities` | index.js:47-50 | "not found" if and only if the list is empty; any other list is returned unchanged, incomplete records included |
| `Lookup.CheckTitleDetails` | index.js:70-73 | "not found" if and only if the title or the author is ""; any other record is returned unchanged |
| `Lookup.GetAvailabilityInfo` | index.js:43-50 | a token failure rejects with that error after only the entry page was requested; otherwise exactly the entry page and then the holdings URL built from the token and bid were requested; a failed holdings GET rejects with its own error; a fetched page is parsed and checked, so a success is exactly the non-empty parse of the fetched page |
| `Lookup.GetTitleDetails` | index.js:66-73 | the same for titles: a failed title GET rejects with its own error, and a fetched title page is parsed and checked, so a success is exactly its parse when both title and author are non-empty |
| `Lookup.AvailabilityTokenFailureShortCircuits` | index.js:43-45 | if the token cannot be found, the outcome does not depend on what the holdings server would answer, and the error is a token error whose message starts with "Error in getMagicNumber: " |
| `Lookup.TitleTokenFailureShortCircuits` | index.js:66-68 | the same for the title server, with the same message prefix |
| `Lookup.DataUrl` | index.js:44 | a data URL begins with the template's prefix, then the token and a `/`, and ends with the template's suffix |
| `Lookup.AvailabilityUrl` | index.js:44 | the holdings URL built from a token without `/` and a bid decodes back to that token and bid |
| `Lookup.TitleDetailsUrl` | index.js:67 | the title URL built from a token without `/` and a bid decodes back to that token and bid |
| `Lookup.DecodeDataUrlRoundTrip` | index.js:44 | a data URL built on a template determines the token (any token without `/`) and the bid it was built from |
| `Lookup.AvailabilityRequestCarriesToken` | index.js:43-44 | the holdings URL requested decodes to the token just resolved and the bid asked for |
| `Lookup.TitleRequestCarriesToken` | index.js:66-67 | the title URL requested decodes to the token just resolved and the bid asked for |
| `Lookup.AvailabilityAndTitleUrlsDiffer` | index.js:67 | a title URL never equals a holdings URL, whatever the tokens and bids |
| `Lookup.AvailabilityFromPage` | index.js:45-50 | a failed holdings GET rejects with its own error, unwrapped; once the page is fetched, the lookup fails with "not found" exactly when the page has no row; it succeeds exactly when the page was fetched and has a row, and then returns one record per row, in order |
| `Lookup.TitleFromPage` | index.js:68-73 | a failed title GET rejects with its own error, unwrapped; once the page is fetched, the lookup fails with "not found" exactly when all link texts are empty or the first detail span is missing or empty, and otherwise succeeds with the parsed record: the concatenated link texts as title and the first span's text as author |
| `JsText.Concat` | index.js:28 | `.text()` over one match is that match's text; it is "" exactly when every matched text is "" |
| `JsText.ConcatAppend` | index.js:28 | `.text()` keeps document order: the text of two runs of matches is the first run's text followed by the second's |
| `JsText.Join` | index.js:32 | `join(' ')` over no part is "" and over one part is that part |
| `JsText.JoinOccurrences` | index.js:32 | `join(sep)` over n >= 1 parts adds exactly n - 1 separators |
| `JsText.Split` | index.js:86 | `split` gives at least one part and no part contains the separator |
| `JsText.SplitLength` | index.js:86 | a string with k separators splits into k + 1 parts |
| `JsText.JoinSplit` | index.js:86 | joining the parts of a split gives back the original string |
| `JsText.SplitJoin` | index.js:32 | splitting a join of separator-free parts gives back the parts |
| `JsText.TrimStart` | index.js:85 | the leading part of `trim`: the result is a suffix of the input, everything cut off is white space, and it does not start with white space |
| `JsText.TrimEnd` | index.js:85 | the trailing part of `trim`: the result is a prefix of the input, everything cut off is white space, and it does not end with white space |
| `JsText.Trim` | index.js:85 | `trim` never lengthens its input, and its result neither starts nor ends with white space |
| `JsText.TrimIdempotent` | index.js:85 | trimming twice is trimming once |
| `JsText.IntToDecimal` | index.js:44 | `${bid}` is a minus sign exactly for a negative bid, followed by decimal digits only |
| `JsText.ParseIntToDecimal` | index.js:44 | the decimal rendering of the bid in a URL reads back as the bid |

## Left out

- HTTP transport: the axios client, its `TIMEOUT` of 2000 ms, and the
  async/await plumbing (index.js:1-4, 45, 68, 82). A GET is an abstract
  result: a parsed body or a failure message.
- HTML parsing and CSS selector evaluation by cheerio (index.js:18, 37-38,
  60-62, 83-85). A page is given as the texts its selectors would return.
  Nothing proves that these texts correspond to real HTML.
- The JSON key order of a record, which object spread determines by first
  insertion. A record is a map, and maps are unordered.
- `JsText.IntToDecimal` renders every integer exactly, so the model's bid
  stands for a safe integer (|bid| <= 2^53). Above that a JavaScript Number
  cannot hold every integer, and `Number.prototype.toString` prints the
  shortest digits that read back to the same double, padded with zeros
  (`${2**60}` is "1152921504606847000", not the exact value). From 1e21
  upwards it uses exponent notation. Non-integer bids are not modelled.
- `Catalog.TokenErrorMessage` uses V8's wording of the TypeError for a missing
  attribute. Other engines word it differently. The message of a failed GET
  is whatever string the fetch outcome carries.
- Token rotation and the layout of the remote site. The source does not
  show them, so they cannot be verified.
