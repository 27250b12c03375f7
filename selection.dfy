/**
 * `_fetch_new_posts` in src/scraper.py: keep the harvested ids above the
 * watermark, sort them, cap them to the newest `max_posts`, then fetch each
 * one in order and keep the records that came back.
 */
module Selection {
  import opened Wrappers
  import opened Posts
  import opened Extraction
  import opened Listing

  predicate Ascending(s: seq<int>) {
    forall i, j | 0 <= i < j < |s| :: s[i] <= s[j]
  }

  predicate StrictlyAscending(s: seq<int>) {
    forall i, j | 0 <= i < j < |s| :: s[i] < s[j]
  }

  // ---------------------------------------------------------------------
  // Filtering
  // ---------------------------------------------------------------------

  /** The elements of `s` that `keep` accepts, in their order. */
  function Filter(s: seq<int>, keep: int -> bool): (r: seq<int>)
    ensures |r| <= |s|
    ensures forall x :: x in r <==> x in s && keep(x)
  {
    if s == [] then []
    else
      var init := s[..|s| - 1];
      var last := s[|s| - 1];
      assert s == init + [last];
      var r := Filter(init, keep);
      if keep(last) then r + [last] else r
  }

  /** Filtering keeps every accepted element as often as it occurred. */
  lemma {:induction false} FilterCount(s: seq<int>, keep: int -> bool, x: int)
    ensures multiset(Filter(s, keep))[x] == if keep(x) then multiset(s)[x] else 0
  {
    if s != [] {
      var init := s[..|s| - 1];
      var last := s[|s| - 1];
      assert s == init + [last];
      assert multiset(s) == multiset(init) + multiset{last};
      FilterCount(init, keep, x);
    }
  }

  lemma {:induction false} FilterStrictlyAscending(s: seq<int>, keep: int -> bool)
    requires StrictlyAscending(s)
    ensures StrictlyAscending(Filter(s, keep))
  {
    if s != [] {
      var init := s[..|s| - 1];
      var last := s[|s| - 1];
      assert StrictlyAscending(init);
      FilterStrictlyAscending(init, keep);
      var r := Filter(init, keep);
      forall k | 0 <= k < |r| ensures r[k] < last {
        assert r[k] in init;
        var i :| 0 <= i < |init| && init[i] == r[k];
        assert s[i] == init[i];
      }
      if keep(last) {
        StrictlyAscendingSnoc(r, last);
      }
    }
  }

  lemma StrictlyAscendingSnoc(r: seq<int>, last: int)
    requires StrictlyAscending(r)
    requires forall k | 0 <= k < |r| :: r[k] < last
    ensures StrictlyAscending(r + [last])
  {
  }

  // ---------------------------------------------------------------------
  // Sorting
  // ---------------------------------------------------------------------

  lemma AscendingCons(b: int, t: seq<int>)
    requires Ascending(t)
    requires forall k | 0 <= k < |t| :: b <= t[k]
    ensures Ascending([b] + t)
  {
  }

  function Insert(x: int, s: seq<int>): (r: seq<int>)
    requires Ascending(s)
    ensures Ascending(r)
    ensures multiset(r) == multiset(s) + multiset{x}
  {
    if s == [] then [x]
    else if x <= s[0] then
      AscendingCons(x, s);
      [x] + s
    else
      var t := Insert(x, s[1..]);
      assert s == [s[0]] + s[1..];
      forall k | 0 <= k < |t| ensures s[0] <= t[k] {
        assert t[k] in multiset(s[1..]) + multiset{x};
        if t[k] != x {
          assert t[k] in s[1..];
        }
      }
      AscendingCons(s[0], t);
      [s[0]] + t
  }

  /** `sorted(xs)`: the ascending arrangement of the same elements. */
  function Sorted(s: seq<int>): (r: seq<int>)
    ensures Ascending(r)
    ensures multiset(r) == multiset(s)
  {
    if s == [] then []
    else
      assert s == s[..|s| - 1] + [s[|s| - 1]];
      Insert(s[|s| - 1], Sorted(s[..|s| - 1]))
  }

  /** There is only one ascending arrangement of a multiset, so `sorted`
      does not depend on the order its argument came in. */
  lemma AscendingTail(s: seq<int>)
    requires s != [] && Ascending(s)
    ensures Ascending(s[1..])
  {
  }
  lemma {:induction false} AscendingUnique(a: seq<int>, b: seq<int>)
    requires Ascending(a) && Ascending(b)
    requires multiset(a) == multiset(b)
    ensures a == b
    decreases |a|
  {
    assert |a| == |multiset(a)| == |multiset(b)| == |b|;
    if a != [] {
      SameLeast(a, b);
      MultisetTail(a);
      MultisetTail(b);
      AscendingTail(a);
      AscendingTail(b);
      AscendingUnique(a[1..], b[1..]);
      assert a == [a[0]] + a[1..];
      assert b == [b[0]] + b[1..];
    }
  }

  lemma SameLeast(a: seq<int>, b: seq<int>)
    requires Ascending(a) && Ascending(b) && a != [] && b != []
    requires multiset(a) == multiset(b)
    ensures a[0] == b[0]
  {
    assert a[0] in multiset(b) && b[0] in multiset(a);
    AscendingFirstIsLeast(b, a[0]);
    AscendingFirstIsLeast(a, b[0]);
  }

  lemma MultisetTail(s: seq<int>)
    requires s != []
    ensures multiset(s[1..]) == multiset(s) - multiset{s[0]}
  {
    assert s == [s[0]] + s[1..];
  }

  lemma AscendingFirstIsLeast(s: seq<int>, x: int)
    requires Ascending(s) && x in s
    ensures s[0] <= x
  {
  }

  /** No element occurs twice. */
  ghost predicate NoRepeats(s: seq<int>) {
    forall x | x in s :: multiset(s)[x] == 1
  }

  lemma {:induction false} NoDuplicatesNoRepeats(s: seq<int>)
    requires NoDuplicates(s)
    ensures NoRepeats(s)
  {
    if s != [] {
      var init := s[..|s| - 1];
      var last := s[|s| - 1];
      assert s == init + [last];
      assert NoDuplicates(init);
      NoDuplicatesNoRepeats(init);
      assert last !in init;
      assert multiset(s) == multiset(init) + multiset{last};
    }
  }

  lemma AscendingNoRepeatsStrict(s: seq<int>)
    requires Ascending(s) && NoRepeats(s)
    ensures StrictlyAscending(s)
  {
    forall i, j | 0 <= i < j < |s| ensures s[i] != s[j] {
      var x := s[i];
      assert s == s[..j] + s[j..];
      assert multiset(s) == multiset(s[..j]) + multiset(s[j..]);
      assert x in s[..j] && s[j] in s[j..];
      assert multiset(s)[x] == 1;
    }
  }

  // ---------------------------------------------------------------------
  // Selection and cap
  // ---------------------------------------------------------------------

  function Min(a: int, b: int): int { if a <= b then a else b }

  /** Where the slice `xs[-m:]` starts in a list of length `len`, with
      Python's rules: `-0` is `0` (keep everything), a positive `m` keeps
      the last `m`, a negative `m` skips the first `-m`. */
  function TailStart(len: nat, m: int): (k: nat)
    ensures k <= len
    ensures m == 0 ==> k == 0
    ensures m > 0 ==> len - k == Min(m, len)
    ensures m < 0 ==> k == Min(-m, len)
  {
    if m > 0 then (if m <= len then len - m else 0)
    else if -m <= len then -m else len
  }

  function Above(lastId: int): int -> bool {
    x => x > lastId
  }

  function Candidates(ids: seq<int>, lastId: int): (c: seq<int>)
    ensures Ascending(c)
    ensures forall x :: x in c <==> x in ids && x > lastId
  {
    var f := Filter(ids, Above(lastId));
    var c := Sorted(f);
    forall x ensures x in c <==> x in ids && x > lastId {
      assert x in c <==> x in multiset(c);
      assert x in f <==> x in multiset(f);
      assert Above(lastId)(x) == (x > lastId);
    }
    c
  }

  /** `new_ids` after the cap: the sorted ids above the watermark and, when
      there are more than `max_posts`, `new_ids[-max_posts:]`. */
  function SelectNew(ids: seq<int>, lastId: int, maxPosts: int): (r: seq<int>)
    ensures Ascending(r)
    ensures forall x | x in r :: x in ids && x > lastId
  {
    var c := Candidates(ids, lastId);
    if c == [] then []
    else if |c| > maxPosts then
      var k := TailStart(|c|, maxPosts);
      AscendingSuffix(c, k);
      c[k..]
    else c
  }

  lemma AscendingSuffix(c: seq<int>, k: nat)
    requires Ascending(c) && k <= |c|
    ensures Ascending(c[k..])
    ensures forall x | x in c[k..] :: x in c
  {
    forall x | x in c[k..] ensures x in c {
      var i :| 0 <= i < |c| - k && c[k..][i] == x;
      assert c[k + i] == x;
    }
  }

  /** Distinct harvested ids give strictly ascending selected ids. */
  lemma SelectNewStrictlyAscending(ids: seq<int>, lastId: int, maxPosts: int)
    requires NoDuplicates(ids)
    ensures StrictlyAscending(SelectNew(ids, lastId, maxPosts))
  {
    var c := Candidates(ids, lastId);
    CandidatesStrictlyAscending(ids, lastId);
    if c != [] && |c| > maxPosts {
      StrictSuffix(c, TailStart(|c|, maxPosts));
    }
  }

  lemma CandidatesStrictlyAscending(ids: seq<int>, lastId: int)
    requires NoDuplicates(ids)
    ensures StrictlyAscending(Candidates(ids, lastId))
  {
    NoDuplicatesNoRepeats(ids);
    var c := Candidates(ids, lastId);
    forall x | x in c ensures multiset(c)[x] == 1 {
      FilterCount(ids, Above(lastId), x);
    }
    AscendingNoRepeatsStrict(c);
  }

  lemma StrictSuffix(c: seq<int>, k: nat)
    requires StrictlyAscending(c) && k <= |c|
    ensures StrictlyAscending(c[k..])
  {
    forall i, j | 0 <= i < j < |c| - k ensures c[k..][i] < c[k..][j] {
      assert c[k..][i] == c[k + i] && c[k..][j] == c[k + j];
    }
  }

  /** Nothing above the watermark: nothing selected. With a non-negative cap
      the converse holds too. */
  lemma SelectNewEmpty(ids: seq<int>, lastId: int, maxPosts: int)
    requires maxPosts >= 0
    ensures SelectNew(ids, lastId, maxPosts) == [] <==> forall x | x in ids :: x <= lastId
  {
    var c := Candidates(ids, lastId);
    if c != [] {
      assert c[0] in c;
    }
  }

  /** Over the cap, exactly `max_posts` ids survive and every dropped
      candidate is smaller than every kept one: the newest are kept. */
  lemma SelectNewCap(ids: seq<int>, lastId: int, maxPosts: int)
    requires 1 <= maxPosts < |Candidates(ids, lastId)|
    ensures |SelectNew(ids, lastId, maxPosts)| == maxPosts
    ensures var r := SelectNew(ids, lastId, maxPosts);
      forall x, y | x in ids && x > lastId && x !in r && y in r :: x < y
  {
    var c := Candidates(ids, lastId);
    var k := TailStart(|c|, maxPosts);
    var r := c[k..];
    forall x, y | x in ids && x > lastId && x !in r && y in r ensures x < y {
      var i :| 0 <= i < |c| && c[i] == x;
      var j :| 0 <= j < |r| && r[j] == y;
      assert i < k;
    }
  }

  lemma SelectNewAtMost(ids: seq<int>, lastId: int, maxPosts: int)
    requires maxPosts >= 1
    ensures |SelectNew(ids, lastId, maxPosts)| <= maxPosts
  {
  }

  /** Under the cap, or with `max_posts == 0` (`xs[-0:]` is all of `xs`),
      every candidate is selected. */
  lemma SelectNewKeepsAll(ids: seq<int>, lastId: int, maxPosts: int)
    requires maxPosts == 0 || |Candidates(ids, lastId)| <= maxPosts
    ensures forall x :: x in SelectNew(ids, lastId, maxPosts) <==> x in ids && x > lastId
  {
  }

  /** The selection depends only on which ids were harvested, not on the
      order the set handed them over in. */
  lemma SelectNewOrderFree(a: seq<int>, b: seq<int>, lastId: int, maxPosts: int)
    requires multiset(a) == multiset(b)
    ensures SelectNew(a, lastId, maxPosts) == SelectNew(b, lastId, maxPosts)
  {
    var fa := Filter(a, Above(lastId));
    var fb := Filter(b, Above(lastId));
    forall x ensures multiset(fa)[x] == multiset(fb)[x] {
      FilterCount(a, Above(lastId), x);
      FilterCount(b, Above(lastId), x);
    }
    assert multiset(fa) == multiset(fb);
    AscendingUnique(Candidates(a, lastId), Candidates(b, lastId));
  }

  // ---------------------------------------------------------------------
  // Fetching
  // ---------------------------------------------------------------------

  /** The article pages, by id; an id without a page stands for a
      navigation that raised. */
  type Site = map<int, PostPage>

  function Nav(site: Site, id: int): Option<PostPage> {
    if id in site then Some(site[id]) else None
  }

  function Fetch(cafe: string, site: Site, id: int): Option<CafePost> {
    FetchedPost(cafe, id, Nav(site, id))
  }

  function Ids(posts: seq<CafePost>): (r: seq<int>)
    ensures |r| == |posts| && forall k | 0 <= k < |posts| :: r[k] == posts[k].id
  {
    seq(|posts|, k requires 0 <= k < |posts| => posts[k].id)
  }

  /** The records of `ids`, in order, skipping the fetches that gave none. */
  function FetchedPosts(cafe: string, ids: seq<int>, site: Site): (posts: seq<CafePost>)
    ensures |posts| <= |ids|
    ensures forall k | 0 <= k < |posts| :: ValidRecord(posts[k], cafe, posts[k].id)
  {
    if ids == [] then []
    else
      var prev := FetchedPosts(cafe, ids[..|ids| - 1], site);
      match Fetch(cafe, site, ids[|ids| - 1])
      case Some(p) => prev + [p]
      case None => prev
  }

  /** Every record is exactly what `_fetch_post` returned for its own id. */
  lemma {:induction false} FetchedPostsAreFetches(cafe: string, ids: seq<int>, site: Site)
    ensures forall p | p in FetchedPosts(cafe, ids, site) :: Fetch(cafe, site, p.id) == Some(p)
  {
    if ids != [] {
      var init := ids[..|ids| - 1];
      var last := ids[|ids| - 1];
      FetchedPostsAreFetches(cafe, init, site);
      var prev := FetchedPosts(cafe, init, site);
      match Fetch(cafe, site, last)
      case Some(p) =>
        assert ValidRecord(p, cafe, last);
        assert FetchedPosts(cafe, ids, site) == prev + [p];
      case None =>
        assert FetchedPosts(cafe, ids, site) == prev;
    }
  }

  function Succeeds(cafe: string, site: Site): int -> bool {
    x => Fetch(cafe, site, x).Some?
  }

  /** The ids of the returned posts are exactly the ids whose fetch gave a
      record, in their original order. */
  lemma {:induction false} FetchedPostsIds(cafe: string, ids: seq<int>, site: Site)
    ensures Ids(FetchedPosts(cafe, ids, site)) == Filter(ids, Succeeds(cafe, site))
  {
    if ids != [] {
      var init := ids[..|ids| - 1];
      var last := ids[|ids| - 1];
      var keep := Succeeds(cafe, site);
      FetchedPostsIds(cafe, init, site);
      var prev := FetchedPosts(cafe, init, site);
      assert Ids(prev) == Filter(init, keep);
      match Fetch(cafe, site, last)
      case Some(p) =>
        assert keep(last);
        assert FetchedPosts(cafe, ids, site) == prev + [p];
        assert Filter(ids, keep) == Filter(init, keep) + [last];
        IdsSnoc(prev, p, last);
      case None =>
        assert !keep(last);
        assert FetchedPosts(cafe, ids, site) == prev;
        assert Filter(ids, keep) == Filter(init, keep);
    }
  }

  lemma IdsSnoc(prev: seq<CafePost>, p: CafePost, id: int)
    requires p.id == id
    ensures Ids(prev + [p]) == Ids(prev) + [id]
  { }

  /** The posts `_fetch_new_posts` returns for a board and a watermark. */
  function NewPosts(cafe: string, board: BoardPage, lastId: int, maxPosts: int, site: Site): seq<CafePost> {
    FetchedPosts(cafe, SelectNew(HarvestIds(board.Target(), cafe), lastId, maxPosts), site)
  }

  /** How one more id extends the records. */
  lemma FetchedPostsStep(cafe: string, ids: seq<int>, i: nat, site: Site)
    requires i < |ids|
    ensures FetchedPosts(cafe, ids[..i + 1], site) ==
      match Fetch(cafe, site, ids[i])
      case Some(p) => FetchedPosts(cafe, ids[..i], site) + [p]
      case None => FetchedPosts(cafe, ids[..i], site)
  {
    assert ids[..i + 1][..i] == ids[..i];
  }

  /** The loop of `_fetch_new_posts`: fetch the ids one by one, appending
      each record obtained. */
  method FetchAll(cafe: string, ids: seq<int>, site: Site) returns (posts: seq<CafePost>)
    ensures posts == FetchedPosts(cafe, ids, site)
  {
    posts := [];
    var i := 0;
    while i < |ids|
      invariant 0 <= i <= |ids|
      invariant posts == FetchedPosts(cafe, ids[..i], site)
    {
      FetchedPostsStep(cafe, ids, i, site);
      var post := FetchPost(cafe, ids[i], Nav(site, ids[i]));
      if post.Some? {
        posts := posts + [post.value];
      }
      i := i + 1;
    }
    assert ids[..i] == ids;
  }

  /** `_fetch_new_posts`: list the board, select and cap, then fetch. */
  method FetchNewPosts(cafe: string, board: BoardPage, lastId: int, maxPosts: int, site: Site)
    returns (posts: seq<CafePost>)
    ensures posts == NewPosts(cafe, board, lastId, maxPosts, site)
  {
    var articleIds := ListArticleIds(board, cafe);
    var newIds := SelectNew(articleIds, lastId, maxPosts);
    if newIds == [] {
      return [];
    }
    posts := FetchAll(cafe, newIds, site);
  }

  /** What a run of `_fetch_new_posts` promises about its result: valid
      records, strictly ascending ids above the watermark, each one an id the
      board listed, and at most `max_posts` of them. */
  lemma NewPostsProperties(cafe: string, board: BoardPage, lastId: int, maxPosts: int, site: Site)
    ensures var posts := NewPosts(cafe, board, lastId, maxPosts, site);
      && (forall k | 0 <= k < |posts| :: ValidRecord(posts[k], cafe, posts[k].id))
      && (forall k | 0 <= k < |posts| :: Fetch(cafe, site, posts[k].id) == Some(posts[k]))
      && StrictlyAscending(Ids(posts))
      && (forall k | 0 <= k < |posts| :: posts[k].id > lastId
            && posts[k].id in HarvestIds(board.Target(), cafe))
      && (maxPosts >= 1 ==> |posts| <= maxPosts)
  {
    var ids := HarvestIds(board.Target(), cafe);
    var sel := SelectNew(ids, lastId, maxPosts);
    var posts := FetchedPosts(cafe, sel, site);
    FetchedPostsIds(cafe, sel, site);
    FetchedPostsAreFetches(cafe, sel, site);
    SelectNewStrictlyAscending(ids, lastId, maxPosts);
    FilterStrictlyAscending(sel, Succeeds(cafe, site));
    forall k | 0 <= k < |posts| ensures posts[k].id in sel {
      assert posts[k].id == Ids(posts)[k];
    }
    if maxPosts >= 1 {
      SelectNewAtMost(ids, lastId, maxPosts);
    }
  }
}
