/**
 * The session token discovery of `getMagicNumber` (index.js): the last
 * `/`-separated segment of the trimmed `data-returnurl` attribute of the
 * entry page.
 */
module SessionToken {
  import opened Wrappers
  import opened JsText
  import opened Catalog

  /** The catalogue entry page fetched before every data request. */
  const EntryUrl: string := "https://catalogue.nlb.gov.sg/cgi-bin/spydus.exe/ENQ/WPAC/BIBENQ"

  /**
   * The entry page as the selector sees it: the `data-returnurl` attribute
   * of the first `nlb-mylibrary` element, `None` when there is no such
   * element or it has no such attribute.
   */
  datatype EntryPage = EntryPage(returnUrl: Option<string>)

  /**
   * `s.split('/').pop()`: the longest suffix of `s` without a `/`. It is
   * all of `s` when `s` holds no `/`, and otherwise follows the last `/`.
   */
  function LastSegment(s: string): (t: string)
    ensures '/' !in t
    ensures |t| <= |s| && s == s[..|s| - |t|] + t
    ensures |t| < |s| ==> s[|s| - |t| - 1] == '/'
    ensures '/' !in s ==> t == s
  {
    var parts := Split(s, '/');
    JoinSplit(s, '/');
    if |parts| >= 2 then
      JoinSnoc(parts, '/');
      parts[|parts| - 1]
    else
      parts[0]
  }

  /**
   * `getMagicNumber`, given the outcome of the entry page GET. A failed GET
   * and a missing attribute both become a token error; otherwise the token
   * is the last segment of the trimmed return URL, which may be empty.
   */
  function ResolveToken(entry: Fetch<EntryPage>): (r: Result<string, Error>)
    ensures r.Failure? <==> entry.FetchFailed? || entry.body.returnUrl.None?
    ensures r.Failure? ==> r.error.TokenError?
    ensures r.Success? ==> '/' !in r.value
  {
    match entry
    case FetchFailed(message) => Failure(TokenError(EntryFetchFailed(message)))
    case Fetched(page) =>
      match page.returnUrl
      case None => Failure(TokenError(MissingReturnUrl))
      case Some(url) => Success(LastSegment(Trim(url)))
  }

  /**
   * The token is what follows the last `/` of the trimmed return URL, or
   * the whole trimmed URL when it has no `/`.
   */
  lemma TokenIsLastSegment(url: string)
    ensures var t, token := Trim(url), ResolveToken(Fetched(EntryPage(Some(url)))).value;
      && ('/' in t ==> |token| < |t| && t == t[..|t| - |token| - 1] + "/" + token)
      && ('/' !in t ==> token == t)
  {
    var t := Trim(url);
    var token := LastSegment(t);
    if '/' in t {
      assert t[..|t| - |token|] == t[..|t| - |token| - 1] + "/";
    }
  }
}
