/**
 * `NaverCafeScraper.get_new_posts` and `_run` in src/scraper.py: one browser
 * session that authenticates, resolves the cafe's club id, lists the board
 * and fetches the new posts. The site is an input: what each page renders.
 */
module Session {
  import opened Wrappers
  import opened Posts
  import opened Cookies
  import opened ClubId
  import opened Listing
  import opened Selection

  /** The cap `get_new_posts` applies by default. */
  const DefaultMaxPosts: int := 20

  /** What the Naver site shows this session: the outcome of the ID/PW login
      form (`None` on success, else the `NaverLoginError` message), the cafe's
      landing page, the board page rendered at each address, and the article
      pages. */
  datatype Naver = Naver(
    login: Option<string>,
    landing: Landing,
    boardAt: string -> BoardPage,
    site: Site)

  /** Authentication: the cookies when `NAVER_COOKIES` is set, otherwise the
      login form. */
  function Authenticated(cookies: string, naver: Naver): (r: Result<(), ScrapeError>)
    ensures cookies != "" ==> (r.Ok? <==> InjectedCookies(cookies).Ok?)
    ensures cookies == "" ==> (r.Ok? <==> naver.login.None?)
    ensures r.Err? ==> r.error.NaverLoginError?
  {
    if cookies != "" then
      match InjectedCookies(cookies)
      case Ok(_) => Ok(())
      case Err(e) => Err(e)
    else
      match naver.login
      case None => Ok(())
      case Some(m) => Err(NaverLoginError(m))
  }

  /** The posts of a run, or the scraper error it raises. */
  function NewPostsOf(cookies: string, cafe: string, boardId: string, lastId: int, maxPosts: int, naver: Naver)
    : Result<seq<CafePost>, ScrapeError>
  {
    match Authenticated(cookies, naver)
    case Err(e) => Err(e)
    case Ok(_) =>
      match ResolvedClubId(cafe, naver.landing)
      case Err(e) => Err(e)
      case Ok(clubId) =>
        Ok(NewPosts(cafe, naver.boardAt(BoardUrl(cafe, clubId, boardId)), lastId, maxPosts, naver.site))
  }

  /** `_run`: authenticate, resolve the club id once, then fetch. */
  method GetNewPosts(cookies: string, cafe: string, boardId: string, lastId: int, maxPosts: int, naver: Naver)
    returns (r: Result<seq<CafePost>, ScrapeError>)
    ensures r == NewPostsOf(cookies, cafe, boardId, lastId, maxPosts, naver)
  {
    if cookies != "" {
      var injected := InjectCookies(cookies);
      if injected.Err? {
        return Err(injected.error);
      }
    } else if naver.login.Some? {
      return Err(NaverLoginError(naver.login.value));
    }
    var clubId := ResolveClubId(cafe, naver.landing);
    if clubId.Err? {
      return Err(clubId.error);
    }
    var board := naver.boardAt(BoardUrl(cafe, clubId.value, boardId));
    var posts := FetchNewPosts(cafe, board, lastId, maxPosts, naver.site);
    r := Ok(posts);
  }

  /** A run fails with `NaverLoginError` exactly when authentication fails,
      and with `ClubIdResolutionError` exactly when it succeeds but no
      strategy finds the club id; a login failure comes first. */
  lemma NewPostsErrors(cookies: string, cafe: string, boardId: string, lastId: int, maxPosts: int, naver: Naver)
    ensures var r := NewPostsOf(cookies, cafe, boardId, lastId, maxPosts, naver);
      && (r.Err? && r.error.NaverLoginError? <==>
            if cookies != "" then '=' !in cookies else naver.login.Some?)
      && (r.Err? && r.error.ClubIdResolutionError? <==>
            Authenticated(cookies, naver).Ok? && ResolvedClubId(cafe, naver.landing).Err?)
  {
    if cookies != "" {
      InjectedCookiesErrIff(cookies);
    }
  }

  /** A successful run returns valid records with strictly ascending ids, all
      above the watermark, at most the cap of them. */
  lemma NewPostsOk(cookies: string, cafe: string, boardId: string, lastId: int, maxPosts: int, naver: Naver)
    requires NewPostsOf(cookies, cafe, boardId, lastId, maxPosts, naver).Ok?
    requires maxPosts >= 1
    ensures var posts := NewPostsOf(cookies, cafe, boardId, lastId, maxPosts, naver).value;
      && StrictlyAscending(Ids(posts))
      && (forall k | 0 <= k < |posts| :: posts[k].id > lastId && posts[k].url == ArticleReadUrl(cafe, posts[k].id))
      && (forall k | 0 <= k < |posts| :: Fetch(cafe, naver.site, posts[k].id) == Some(posts[k]))
      && |posts| <= maxPosts
  {
    var clubId := ResolvedClubId(cafe, naver.landing).value;
    var board := naver.boardAt(BoardUrl(cafe, clubId, boardId));
    NewPostsProperties(cafe, board, lastId, maxPosts, naver.site);
  }
}
