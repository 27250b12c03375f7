/**
 * Post extraction, `_extract_text` and `_fetch_post` in src/scraper.py.
 * A rendered article page is abstracted to what `query_selector` reports for
 * each CSS selector; the browser itself is outside the model.
 */
module Extraction {
  import opened Wrappers
  import opened Text
  import opened Posts

  /** Which text of an element is read: `text_content()` or `inner_text()`. */
  datatype ReadMode = TextContent | InnerText

  /** What trying one selector yields: no element, an exception (from the
      query or from reading the text), or an element with its two texts
      (`text_content()` may be `None`, `inner_text()` is always a string). */
  datatype Query =
    | Missing
    | Raises
    | Element(textContent: Option<string>, innerText: string)

  /** The selectors of one document (page or frame) and their outcomes;
      a selector not in the map finds no element. */
  type Scope = map<string, Query>

  /** An article page after navigation, with its `cafe_main` frame if any. */
  type PostPage = Rendered<Scope>

  function Lookup(scope: Scope, sel: string): Query {
    if sel in scope then scope[sel] else Missing
  }

  /** The stripped text one selector offers; "" when it offers nothing. */
  function Candidate(scope: Scope, sel: string, mode: ReadMode): (r: string)
    ensures IsStripped(r)
    ensures !Lookup(scope, sel).Element? ==> r == ""
  {
    match Lookup(scope, sel)
    case Element(tc, it) => Strip(if mode == InnerText then it else tc.GetOr(""))
    case _ => ""
  }

  /** The first non-empty candidate in priority order, or "". */
  function FirstText(scope: Scope, sels: seq<string>, mode: ReadMode): (r: string)
    ensures IsStripped(r)
    ensures r == "" <==> forall k | 0 <= k < |sels| :: Candidate(scope, sels[k], mode) == ""
  {
    if sels == [] then ""
    else
      var c := Candidate(scope, sels[0], mode);
      if c != "" then c
      else
        var r := FirstText(scope, sels[1..], mode);
        assert forall k | 1 <= k < |sels| :: sels[1..][k - 1] == sels[k];
        r
  }

  /** The result is the candidate of the first selector that offers text. */
  lemma {:induction false} FirstTextPicksFirst(scope: Scope, sels: seq<string>, mode: ReadMode, i: nat)
    requires i < |sels|
    requires Candidate(scope, sels[i], mode) != ""
    requires forall k | 0 <= k < i :: Candidate(scope, sels[k], mode) == ""
    ensures FirstText(scope, sels, mode) == Candidate(scope, sels[i], mode)
  {
    if i > 0 {
      assert sels[1..][i - 1] == sels[i];
      assert forall k | 0 <= k < i - 1 :: sels[1..][k] == sels[k + 1];
      FirstTextPicksFirst(scope, sels[1..], mode, i - 1);
    }
  }

  /** Selectors after the winning one are never looked at: two documents
      that agree up to and including it give the same text. */
  lemma {:induction false} FirstTextIgnoresLater(a: Scope, b: Scope, sels: seq<string>, mode: ReadMode, i: nat)
    requires i < |sels|
    requires Candidate(a, sels[i], mode) != ""
    requires forall k | 0 <= k <= i :: Candidate(a, sels[k], mode) == Candidate(b, sels[k], mode)
    ensures FirstText(a, sels, mode) == FirstText(b, sels, mode)
  {
    var c := Candidate(a, sels[0], mode);
    assert c == Candidate(b, sels[0], mode);
    if c == "" {
      assert i != 0;
      var rest := sels[1..];
      forall k | 0 <= k <= i - 1
        ensures Candidate(a, rest[k], mode) == Candidate(b, rest[k], mode)
      {
        assert rest[k] == sels[k + 1];
      }
      FirstTextIgnoresLater(a, b, rest, mode, i - 1);
    }
  }

  /** `_extract_text`: try the selectors in order and return early on the
      first non-empty stripped text; a selector that raises is skipped. */
  method ExtractText(target: Scope, selectors: seq<string>, mode: ReadMode) returns (text: string)
    ensures text == FirstText(target, selectors, mode)
  {
    var i := 0;
    while i < |selectors|
      invariant 0 <= i <= |selectors|
      invariant FirstText(target, selectors, mode) == FirstText(target, selectors[i..], mode)
    {
      assert selectors[i..][0] == selectors[i] && selectors[i..][1..] == selectors[i + 1..];
      var el := Lookup(target, selectors[i]);
      if el.Element? {
        var raw := if mode == InnerText then el.innerText else el.textContent.GetOr("");
        var stripped := Strip(raw);
        if stripped != "" {
          return stripped;
        }
      }
      i := i + 1;
    }
    text := "";
  }

  const TitleSelectors: seq<string> :=
    [".title_text", "h3.title", ".ArticleTitle", ".tit-article", ".article-head .title", "h2.title"]

  const ContentSelectors: seq<string> :=
    [".se-main-container", ".se-module-text", "#tbody", ".ArticleContentBox .tbody",
     ".article_body", ".article-body", ".ContentRenderer"]

  const DateSelectors: seq<string> := [".date", ".article_date", "span.date", ".se-date"]

  const AuthorSelectors: seq<string> := [".nick", ".m-tcol-c", ".nickname", ".writer_info .nick"]

  function TitleOf(t: Scope): string { FirstText(t, TitleSelectors, TextContent) }
  function ContentOf(t: Scope): string { FirstText(t, ContentSelectors, InnerText) }
  function DateOf(t: Scope): string { FirstText(t, DateSelectors, TextContent) }
  function AuthorOf(t: Scope): string { FirstText(t, AuthorSelectors, TextContent) }

  /** A record as `_fetch_post` builds it for article `id` of `cafe`. */
  predicate ValidRecord(p: CafePost, cafe: string, id: int) {
    && p.id == id
    && p.url == ArticleReadUrl(cafe, id)
    && (p.title != "" || p.content != "")
    && IsStripped(p.title) && IsStripped(p.content) && IsStripped(p.date) && IsStripped(p.author)
  }

  /** `_fetch_post`: `nav` is the page reached by `goto(url)`, `None` when
      navigation raised (the exception is caught and the post skipped). */
  function FetchedPost(cafe: string, id: int, nav: Option<PostPage>): (r: Option<CafePost>)
    ensures r.None? <==> nav.None? || (TitleOf(nav.value.Target()) == "" && ContentOf(nav.value.Target()) == "")
    ensures r.Some? ==> ValidRecord(r.value, cafe, id)
    ensures r.Some? ==> var t := nav.value.Target();
      && r.value.title == TitleOf(t) && r.value.content == ContentOf(t)
      && r.value.date == DateOf(t) && r.value.author == AuthorOf(t)
  {
    match nav
    case None => None
    case Some(page) =>
      var t := page.Target();
      var title := TitleOf(t);
      var content := ContentOf(t);
      if title == "" && content == "" then None
      else Some(CafePost(id, title, content, ArticleReadUrl(cafe, id), DateOf(t), AuthorOf(t)))
  }

  /** `_fetch_post`, with the four extractions done one after the other. */
  method FetchPost(cafe: string, id: int, nav: Option<PostPage>) returns (post: Option<CafePost>)
    ensures post == FetchedPost(cafe, id, nav)
  {
    if nav.None? {
      return None;
    }
    var url := ArticleReadUrl(cafe, id);
    var target := nav.value.Target();
    var title := ExtractText(target, TitleSelectors, TextContent);
    var content := ExtractText(target, ContentSelectors, InnerText);
    var date := ExtractText(target, DateSelectors, TextContent);
    var author := ExtractText(target, AuthorSelectors, TextContent);
    if title == "" && content == "" {
      return None;
    }
    post := Some(CafePost(id, title, content, url, date, author));
  }
}
