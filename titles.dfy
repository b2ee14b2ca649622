/**
 * The title page parser (`parseTitleDetails` in index.js), over what its
 * two selectors read from the page.
 */
module Titles {
  import opened JsText

  /**
   * A title page as the selectors see it:
   *  - `cardTitleLinkTexts`: texts of the `a` elements inside every `.card-title` element;
   *  - `recDetailsSpanTexts`: texts of the `span` elements inside every `.recdetails` element.
   * Both in document order.
   */
  datatype TitlePage = TitlePage(cardTitleLinkTexts: seq<string>, recDetailsSpanTexts: seq<string>)

  datatype TitleDetails = TitleDetails(titleName: string, author: string)

  /** `.first().text()`: the text of the first match, "" when nothing matched. */
  function FirstText(texts: seq<string>): (r: string)
    ensures texts == [] ==> r == ""
    ensures texts != [] ==> r == texts[0]
  {
    if texts == [] then "" else texts[0]
  }

  /**
   * `parseTitleDetails`: the title is all the link texts run together, the
   * author the first span text. Each is empty exactly when nothing
   * non-empty was there to read. With `TitleFromAllLinks`, the single-link
   * case fixes the title for any number of links.
   */
  function ParseTitleDetails(page: TitlePage): (d: TitleDetails)
    ensures |page.cardTitleLinkTexts| == 1 ==> d.titleName == page.cardTitleLinkTexts[0]
    ensures page.recDetailsSpanTexts != [] ==> d.author == page.recDetailsSpanTexts[0]
    ensures d.titleName == "" <==> forall i :: 0 <= i < |page.cardTitleLinkTexts| ==> page.cardTitleLinkTexts[i] == ""
    ensures d.author == "" <==> page.recDetailsSpanTexts == [] || page.recDetailsSpanTexts[0] == ""
  {
    TitleDetails(Concat(page.cardTitleLinkTexts), FirstText(page.recDetailsSpanTexts))
  }

  /** The author depends on the first span only: spans after it change nothing. */
  lemma AuthorFromFirstSpan(page: TitlePage, later: seq<string>)
    requires page.recDetailsSpanTexts != []
    ensures ParseTitleDetails(TitlePage(page.cardTitleLinkTexts, page.recDetailsSpanTexts + later))
         == ParseTitleDetails(page)
  {
    assert (page.recDetailsSpanTexts + later)[0] == page.recDetailsSpanTexts[0];
  }

  /** A title split over several links reads as their texts one after the other. */
  lemma TitleFromAllLinks(a: seq<string>, b: seq<string>, spans: seq<string>)
    ensures ParseTitleDetails(TitlePage(a + b, spans)).titleName
         == ParseTitleDetails(TitlePage(a, spans)).titleName + ParseTitleDetails(TitlePage(b, spans)).titleName
  {
    ConcatAppend(a, b);
  }
}
