/**
 * The record the scraper hands on (src/scraper.py's `CafePost`), the
 * exceptions it raises, its URL schemes and the page-or-frame choice both
 * of its extractors make.
 */
module Posts {
  import opened Wrappers
  import opened Text

  /** One board post; every text field may be "" when extraction failed. */
  datatype CafePost = CafePost(
    id: int,
    title: string,
    content: string,
    url: string,
    date: string,
    author: string)

  /** `NaverLoginError` and `ClubIdResolutionError`, with their messages. */
  datatype ScrapeError =
    | NaverLoginError(message: string)
    | ClubIdResolutionError(message: string)

  const CafeHost: string := "https://cafe.naver.com/"

  /** `ARTICLE_READ_URL`: the name-based address of one article. */
  function ArticleReadUrl(cafe: string, articleId: int): (r: string)
    ensures var d := IntToDecimal(articleId);
      && |r| == 24 + |cafe| + |d| && r[..23] == CafeHost && r[23..23 + |cafe|] == cafe
      && r[23 + |cafe|] == '/' && r[24 + |cafe|..] == d
  {
    var r := CafeHost + cafe + "/" + IntToDecimal(articleId);
    assert r == CafeHost + (cafe + ("/" + IntToDecimal(articleId)));
    r
  }

  /** A rendered page and the `cafe_main` frame inside it, when there is one.
      Both extractors query `frame if frame else page`. */
  datatype Rendered<T> = Rendered(frame: Option<T>, page: T) {
    function Target(): T {
      frame.GetOr(page)
    }
  }
}
