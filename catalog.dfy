/**
 * What the two lookups share: the abstract result of an HTTP GET and the
 * errors a lookup can reject with.
 */
module Catalog {

  /**
   * The outcome of one `axios.get`: the already parsed body, or the failure
   * (network error, timeout, non-success status) rendered as a string.
   */
  datatype Fetch<+T> = Fetched(body: T) | FetchFailed(message: string)

  /** Why the session token could not be found. */
  datatype TokenCause =
    | EntryFetchFailed(message: string)   // the GET of the entry page rejected
    | MissingReturnUrl                    // no `data-returnurl` to trim

  /** Which lookup found nothing. */
  datatype LookupKind = AvailabilityLookup | TitleLookup

  /** The values a lookup's promise rejects with. */
  datatype Error =
    | TokenError(cause: TokenCause)       // thrown by `getMagicNumber`
    | DataFetchError(message: string)     // the data GET rejected; passed on unchanged
    | NotFound(lookup: LookupKind)        // the page parsed to nothing

  const TokenErrorPrefix: string := "Error in getMagicNumber: "
  const AvailabilitiesNotFound: string := "Availabilities could not be found, perhaps the book id is incorrect?"
  const TitleDetailsNotFound: string := "Title details could not be found, perhaps the book id is incorrect?"

  /**
   * What `getMagicNumber` rejects with: its prefix, then the cause as a
   * string. `MissingReturnUrl` is the TypeError that calling `trim` on
   * `undefined` raises, in V8's wording.
   */
  function TokenErrorMessage(cause: TokenCause): (m: string)
    ensures |TokenErrorPrefix| <= |m| && m[..|TokenErrorPrefix|] == TokenErrorPrefix
  {
    match cause
    case EntryFetchFailed(message) => TokenErrorPrefix + message
    case MissingReturnUrl => TokenErrorPrefix + "TypeError: Cannot read properties of undefined (reading 'trim')"
  }

  /**
   * The rejection value as a string: token errors carry the
   * `getMagicNumber` prefix, a failed data GET its own message unchanged,
   * and "not found" a fixed sentence per lookup.
   */
  function Message(e: Error): (m: string)
    ensures e.TokenError? ==> |TokenErrorPrefix| <= |m| && m[..|TokenErrorPrefix|] == TokenErrorPrefix
    ensures e.DataFetchError? ==> m == e.message
    ensures e.NotFound? ==> (m == AvailabilitiesNotFound <==> e.lookup == AvailabilityLookup)
    ensures e.NotFound? ==> (m == TitleDetailsNotFound <==> e.lookup == TitleLookup)
  {
    match e
    case TokenError(cause) => TokenErrorMessage(cause)
    case DataFetchError(message) => message
    case NotFound(AvailabilityLookup) => AvailabilitiesNotFound
    case NotFound(TitleLookup) => TitleDetailsNotFound
  }
}
