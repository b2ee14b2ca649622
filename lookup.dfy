/**
 * The two exported lookups of index.js, `getAvailabilityInfo` and
 * `getTitleDetails`: resolve a fresh session token, build the data URL
 * from it and the bid, fetch that URL, parse and validate. The remote
 * catalogue is a parameter: the outcome of the entry page GET, and a total
 * function from a data URL to the outcome of its GET. Each call records
 * the URLs it requested, in order.
 */
module Lookup {
  import opened Wrappers
  import opened JsText
  import opened Catalog
  import opened Holdings
  import opened Titles
  import opened SessionToken

  const AvailabilityUrlPrefix: string := "https://catalogue.nlb.gov.sg/cgi-bin/spydus.exe/XHLD/WPAC/BIBENQ/"
  const AvailabilityUrlSuffix: string := "?RECDISP=REC"
  const TitleDetailsUrlPrefix: string := "https://catalogue.nlb.gov.sg/cgi-bin/spydus.exe/XFULL/WPAC/BIBENQ/"
  const TitleDetailsUrlSuffix: string := "?FMT=REC"

  /** A data URL: the template's prefix, the token, `/`, the bid in decimal, the template's suffix. */
  function DataUrl(prefix: string, token: string, bid: int, suffix: string): (url: string)
    ensures |prefix| + |token| + |suffix| < |url|
    ensures url[..|prefix|] == prefix && url[|url| - |suffix|..] == suffix
    ensures url[|prefix|..|prefix| + |token|] == token && url[|prefix| + |token|] == '/'
  {
    prefix + token + "/" + IntToDecimal(bid) + suffix
  }

  /** The holdings URL of `getAvailabilityInfo`; a token without `/` and the bid can be read back from it. */
  function AvailabilityUrl(token: string, bid: int): (url: string)
    ensures '/' !in token ==> DecodeDataUrl(AvailabilityUrlPrefix, AvailabilityUrlSuffix, url) == Some((token, bid))
  {
    var url := DataUrl(AvailabilityUrlPrefix, token, bid, AvailabilityUrlSuffix);
    if '/' in token then url
    else DecodeDataUrlRoundTrip(AvailabilityUrlPrefix, token, bid, AvailabilityUrlSuffix); url
  }

  /** The title URL of `getTitleDetails`; a token without `/` and the bid can be read back from it. */
  function TitleDetailsUrl(token: string, bid: int): (url: string)
    ensures '/' !in token ==> DecodeDataUrl(TitleDetailsUrlPrefix, TitleDetailsUrlSuffix, url) == Some((token, bid))
  {
    var url := DataUrl(TitleDetailsUrlPrefix, token, bid, TitleDetailsUrlSuffix);
    if '/' in token then url
    else DecodeDataUrlRoundTrip(TitleDetailsUrlPrefix, token, bid, TitleDetailsUrlSuffix); url
  }

  /** Reads the token and the bid back out of a data URL built on the given template. */
  function DecodeDataUrl(prefix: string, suffix: string, url: string): Option<(string, int)>
  {
    if |prefix| + |suffix| <= |url| && url[..|prefix|] == prefix && url[|url| - |suffix|..] == suffix then
      var parts := Split(url[|prefix|..|url| - |suffix|], '/');
      if |parts| == 2 then
        match ParseInt(parts[1])
        case Some(bid) => Some((parts[0], bid))
        case None => None
      else None
    else None
  }

  /** A data URL determines the token (any token without `/`) and the bid it was built from. */
  lemma DecodeDataUrlRoundTrip(prefix: string, token: string, bid: int, suffix: string)
    requires '/' !in token
    ensures DecodeDataUrl(prefix, suffix, DataUrl(prefix, token, bid, suffix)) == Some((token, bid))
  {
    var digits := IntToDecimal(bid);
    var url := DataUrl(prefix, token, bid, suffix);
    var middle := token + "/" + digits;
    assert url == prefix + middle + suffix;
    assert url[..|prefix|] == prefix;
    assert url[|url| - |suffix|..] == suffix;
    assert url[|prefix|..|url| - |suffix|] == middle;
    IntToDecimalChars(bid);
    assert Join([token, digits], '/') == middle;
    SplitJoin([token, digits], '/');
    ParseIntToDecimal(bid);
  }

  /** The holdings URL and the title URL never coincide. */
  lemma AvailabilityAndTitleUrlsDiffer(t1: string, b1: int, t2: string, b2: int)
    ensures AvailabilityUrl(t1, b1) != TitleDetailsUrl(t2, b2)
  {
    var k := |"https://catalogue.nlb.gov.sg/cgi-bin/spydus.exe/X"|;
    assert AvailabilityUrl(t1, b1)[k] == 'H';
    assert TitleDetailsUrl(t2, b2)[k] == 'F';
  }

  /** The validation of `getAvailabilityInfo`: an empty list is "not found", any other is returned as it is. */
  function CheckAvailabilities(list: seq<Availability>): (r: Result<seq<Availability>, Error>)
    ensures r.Failure? <==> list == []
    ensures r.Failure? ==> r.error == NotFound(AvailabilityLookup)
    ensures r.Success? ==> r.value == list
  {
    if |list| == 0 then Failure(NotFound(AvailabilityLookup)) else Success(list)
  }

  /** The validation of `getTitleDetails`: an empty title or author is "not found". */
  function CheckTitleDetails(d: TitleDetails): (r: Result<TitleDetails, Error>)
    ensures r.Failure? <==> d.titleName == "" || d.author == ""
    ensures r.Failure? ==> r.error == NotFound(TitleLookup)
    ensures r.Success? ==> r.value == d
  {
    if d.titleName == "" || d.author == "" then Failure(NotFound(TitleLookup)) else Success(d)
  }

  /** What a lookup resolves or rejects with, and the URLs it requested, in order. */
  datatype Outcome<+T> = Outcome(result: Result<T, Error>, requested: seq<string>)

  /**
   * `getAvailabilityInfo(bid)`. The holdings URL is requested only once a
   * token has been found, and it is built from that token.
   */
  function GetAvailabilityInfo(bid: int, entry: Fetch<EntryPage>, holdings: string -> Fetch<HoldingsPage>)
    : (o: Outcome<seq<Availability>>)
    ensures ResolveToken(entry).Failure? ==> o == Outcome(Failure(ResolveToken(entry).error), [EntryUrl])
    ensures ResolveToken(entry).Success? ==>
      o.requested == [EntryUrl, AvailabilityUrl(ResolveToken(entry).value, bid)]
    ensures o.result.Success? ==>
      && |o.requested| == 2
      && holdings(o.requested[1]).Fetched?
      && o.result.value == ParseAvailabilities(holdings(o.requested[1]).body)
      && o.result.value != []
    ensures ResolveToken(entry).Success? && holdings(o.requested[1]).FetchFailed? ==>
      o.result == Failure(DataFetchError(holdings(o.requested[1]).message))
    ensures ResolveToken(entry).Success? && holdings(o.requested[1]).Fetched? ==>
      o.result == CheckAvailabilities(ParseAvailabilities(holdings(o.requested[1]).body))
  {
    match ResolveToken(entry)
    case Failure(e) => Outcome(Failure(e), [EntryUrl])
    case Success(token) =>
      var url := AvailabilityUrl(token, bid);
      match holdings(url)
      case FetchFailed(message) => Outcome(Failure(DataFetchError(message)), [EntryUrl, url])
      case Fetched(page) => Outcome(CheckAvailabilities(ParseAvailabilities(page)), [EntryUrl, url])
  }

  /**
   * `getTitleDetails(bid)`. The title URL is requested only once a token
   * has been found, and it is built from that token.
   */
  function GetTitleDetails(bid: int, entry: Fetch<EntryPage>, titles: string -> Fetch<TitlePage>)
    : (o: Outcome<TitleDetails>)
    ensures ResolveToken(entry).Failure? ==> o == Outcome(Failure(ResolveToken(entry).error), [EntryUrl])
    ensures ResolveToken(entry).Success? ==>
      o.requested == [EntryUrl, TitleDetailsUrl(ResolveToken(entry).value, bid)]
    ensures o.result.Success? ==>
      && |o.requested| == 2
      && titles(o.requested[1]).Fetched?
      && o.result.value == ParseTitleDetails(titles(o.requested[1]).body)
      && o.result.value.titleName != "" && o.result.value.author != ""
    ensures ResolveToken(entry).Success? && titles(o.requested[1]).FetchFailed? ==>
      o.result == Failure(DataFetchError(titles(o.requested[1]).message))
    ensures ResolveToken(entry).Success? && titles(o.requested[1]).Fetched? ==>
      o.result == CheckTitleDetails(ParseTitleDetails(titles(o.requested[1]).body))
  {
    match ResolveToken(entry)
    case Failure(e) => Outcome(Failure(e), [EntryUrl])
    case Success(token) =>
      var url := TitleDetailsUrl(token, bid);
      match titles(url)
      case FetchFailed(message) => Outcome(Failure(DataFetchError(message)), [EntryUrl, url])
      case Fetched(page) => Outcome(CheckTitleDetails(ParseTitleDetails(page)), [EntryUrl, url])
  }

  /**
   * When the token cannot be found, the holdings server is never consulted:
   * the outcome is the same whatever it would have answered.
   */
  lemma AvailabilityTokenFailureShortCircuits(
    bid: int, entry: Fetch<EntryPage>, h1: string -> Fetch<HoldingsPage>, h2: string -> Fetch<HoldingsPage>)
    requires ResolveToken(entry).Failure?
    ensures GetAvailabilityInfo(bid, entry, h1) == GetAvailabilityInfo(bid, entry, h2)
    ensures GetAvailabilityInfo(bid, entry, h1).result.error.TokenError?
    ensures var m := Message(GetAvailabilityInfo(bid, entry, h1).result.error);
      |TokenErrorPrefix| <= |m| && m[..|TokenErrorPrefix|] == TokenErrorPrefix
  {
  }

  /** Likewise for the title server. */
  lemma TitleTokenFailureShortCircuits(
    bid: int, entry: Fetch<EntryPage>, t1: string -> Fetch<TitlePage>, t2: string -> Fetch<TitlePage>)
    requires ResolveToken(entry).Failure?
    ensures GetTitleDetails(bid, entry, t1) == GetTitleDetails(bid, entry, t2)
    ensures GetTitleDetails(bid, entry, t1).result.error.TokenError?
    ensures var m := Message(GetTitleDetails(bid, entry, t1).result.error);
      |TokenErrorPrefix| <= |m| && m[..|TokenErrorPrefix|] == TokenErrorPrefix
  {
  }

  /** The holdings request carries the token just resolved from the return URL and the bid asked for. */
  lemma AvailabilityRequestCarriesToken(bid: int, returnUrl: string, holdings: string -> Fetch<HoldingsPage>)
    ensures var o := GetAvailabilityInfo(bid, Fetched(EntryPage(Some(returnUrl))), holdings);
      |o.requested| == 2
      && DecodeDataUrl(AvailabilityUrlPrefix, AvailabilityUrlSuffix, o.requested[1])
         == Some((LastSegment(Trim(returnUrl)), bid))
  {
  }

  /** The title request carries the token just resolved from the return URL and the bid asked for. */
  lemma TitleRequestCarriesToken(bid: int, returnUrl: string, titles: string -> Fetch<TitlePage>)
    ensures var o := GetTitleDetails(bid, Fetched(EntryPage(Some(returnUrl))), titles);
      |o.requested| == 2
      && DecodeDataUrl(TitleDetailsUrlPrefix, TitleDetailsUrlSuffix, o.requested[1])
         == Some((LastSegment(Trim(returnUrl)), bid))
  {
  }

  /**
   * Once the holdings page is fetched, the lookup fails with "not found"
   * exactly when the page has no row, and otherwise succeeds with one record
   * per row in row order, complete or not. A failed GET is passed on unchanged.
   */
  lemma AvailabilityFromPage(bid: int, returnUrl: string, holdings: string -> Fetch<HoldingsPage>)
    ensures var fetched := holdings(AvailabilityUrl(LastSegment(Trim(returnUrl)), bid));
      var r := GetAvailabilityInfo(bid, Fetched(EntryPage(Some(returnUrl))), holdings).result;
      && (fetched.FetchFailed? ==> r == Failure(DataFetchError(fetched.message)))
      && (fetched.Fetched? ==> (r == Failure(NotFound(AvailabilityLookup)) <==> fetched.body == []))
      && (fetched.Fetched? && fetched.body != [] ==>
            r.Success?
            && |r.value| == |fetched.body|
            && forall i :: 0 <= i < |fetched.body| ==> r.value[i] == ParseTr(fetched.body[i]))
      && (r.Success? <==> fetched.Fetched? && fetched.body != [])
  {
  }

  /**
   * Once the title page is fetched, the lookup fails with "not found"
   * exactly when no link text of the card title is non-empty or the first
   * span of the record details is missing or empty, and otherwise succeeds
   * with the parsed title and author. A failed GET is passed on unchanged.
   */
  lemma TitleFromPage(bid: int, returnUrl: string, titles: string -> Fetch<TitlePage>)
    ensures var fetched := titles(TitleDetailsUrl(LastSegment(Trim(returnUrl)), bid));
      var r := GetTitleDetails(bid, Fetched(EntryPage(Some(returnUrl))), titles).result;
      && (fetched.FetchFailed? ==> r == Failure(DataFetchError(fetched.message)))
      && (fetched.Fetched? ==>
            (r == Failure(NotFound(TitleLookup)) <==>
              (forall i :: 0 <= i < |fetched.body.cardTitleLinkTexts| ==> fetched.body.cardTitleLinkTexts[i] == "")
              || fetched.body.recDetailsSpanTexts == [] || fetched.body.recDetailsSpanTexts[0] == ""))
      && (fetched.Fetched? ==> r == CheckTitleDetails(ParseTitleDetails(fetched.body)))
      && (fetched.Fetched? && r.Success? ==>
            r.value.titleName == Concat(fetched.body.cardTitleLinkTexts)
            && r.value.author == fetched.body.recDetailsSpanTexts[0])
  {
  }
}
