/**
 * The listing extractor, `_list_article_ids` in src/scraper.py: the board
 * address it opens and the article ids it harvests from the `href` of every
 * link on the rendered board.
 */
module Listing {
  import opened Wrappers
  import opened Text
  import opened Patterns
  import opened Posts

  /** The `<a>` elements of a board as their `href` attributes (`None` when a
      link has none), in page order. */
  type Links = seq<Option<string>>

  /** The board page and, when it attached, its `cafe_main` frame. */
  type BoardPage = Rendered<Links>

  // ---------------------------------------------------------------------
  // The board address
  // ---------------------------------------------------------------------

  /** The value of the `iframe_url` parameter, percent-encoded as it is sent. */
  function IframeTarget(clubId: string, boardId: string): string {
    "/ArticleList.nhn" + ("%3F" + ("search.clubid" + ("%3D" + (clubId
      + ("%26" + ("search.menuid" + ("%3D" + (boardId
      + ("%26" + ("userDisplay" + ("%3D" + "50")))))))))))
  }

  /** The article-list query the frame is meant to load: club id, board
      (menu) id and fifty rows per page. */
  function ArticleListQuery(clubId: string, boardId: string): string {
    "/ArticleList.nhn" + ("?" + ("search.clubid" + ("=" + (clubId
      + ("&" + ("search.menuid" + ("=" + (boardId
      + ("&" + ("userDisplay" + ("=" + "50")))))))))))
  }

  /** The cafe shell address that loads the board listing inside its frame. */
  function BoardUrl(cafe: string, clubId: string, boardId: string): (r: string)
    ensures |r| >= 35 + |cafe|
    ensures r[..23] == CafeHost && r[23..23 + |cafe|] == cafe && r[23 + |cafe|..35 + |cafe|] == "?iframe_url="
    ensures '%' !in clubId && '%' !in boardId ==>
      PercentDecode(r[35 + |cafe|..]) == ArticleListQuery(clubId, boardId)
  {
    var r := CafeHost + (cafe + ("?iframe_url=" + IframeTarget(clubId, boardId)));
    assert r[35 + |cafe|..] == IframeTarget(clubId, boardId);
    if '%' !in clubId && '%' !in boardId then
      IframeTargetDecodes(clubId, boardId);
      r
    else r
  }

  function HexValue(c: char): (v: Option<nat>)
    ensures v.Some? ==> v.value < 16
  {
    if '0' <= c <= '9' then Some(c as int - '0' as int)
    else if 'A' <= c <= 'F' then Some(c as int - 'A' as int + 10)
    else if 'a' <= c <= 'f' then Some(c as int - 'a' as int + 10)
    else None
  }

  /** Percent-decoding of ASCII escapes (`%3F` is `?`); any other `%` stays as it is. */
  function PercentDecode(s: string): string {
    if s == [] then []
    else if |s| >= 3 && s[0] == '%' && HexValue(s[1]).Some? && HexValue(s[2]).Some?
            && 16 * HexValue(s[1]).value + HexValue(s[2]).value < 128 then
      [(16 * HexValue(s[1]).value + HexValue(s[2]).value) as char] + PercentDecode(s[3..])
    else [s[0]] + PercentDecode(s[1..])
  }

  lemma {:induction false} PercentDecodePlain(a: string, b: string)
    requires '%' !in a
    ensures PercentDecode(a + b) == a + PercentDecode(b)
  {
    if a != [] {
      var ab := a + b;
      assert ab[0] == a[0] && a[0] != '%' by { assert a[0] in a; }
      assert ab[1..] == a[1..] + b;
      assert PercentDecode(ab) == [a[0]] + PercentDecode(a[1..] + b);
      PercentDecodePlain(a[1..], b);
      assert [a[0]] + (a[1..] + PercentDecode(b)) == a + PercentDecode(b);
    } else {
      assert a + b == b;
    }
  }

  lemma PercentDecodeEscape(esc: string, c: char, b: string)
    requires |esc| == 3 && esc[0] == '%' && HexValue(esc[1]).Some? && HexValue(esc[2]).Some?
    requires 16 * HexValue(esc[1]).value + HexValue(esc[2]).value == c as int < 128
    ensures PercentDecode(esc + b) == [c] + PercentDecode(b)
  {
    assert (esc + b)[..3] == esc;
    assert (esc + b)[3..] == b;
  }

  /** One encoded `<sep>name=value` pair decodes to itself unescaped. */
  lemma PercentDecodePair(esc: string, c: char, name: string, value: string, rest: string)
    requires |esc| == 3 && esc[0] == '%' && HexValue(esc[1]).Some? && HexValue(esc[2]).Some?
    requires 16 * HexValue(esc[1]).value + HexValue(esc[2]).value == c as int < 128
    requires '%' !in name && '%' !in value
    ensures PercentDecode(esc + (name + ("%3D" + (value + rest))))
         == [c] + (name + ("=" + (value + PercentDecode(rest))))
  {
    PercentDecodePlain(value, rest);
    PercentDecodeEscape("%3D", '=', value + rest);
    PercentDecodePlain(name, "%3D" + (value + rest));
    PercentDecodeEscape(esc, c, name + ("%3D" + (value + rest)));
  }

  lemma DecodeRows()
    ensures PercentDecode("%26" + ("userDisplay" + ("%3D" + "50"))) == "&" + ("userDisplay" + ("=" + "50"))
  {
    assert "50" + [] == "50";
    assert PercentDecode([]) == [];
    PercentDecodePair("%26", '&', "userDisplay", "50", []);
  }

  /** Decoded, the `iframe_url` parameter is the article-list query itself. */
  lemma IframeTargetDecodes(clubId: string, boardId: string)
    requires '%' !in clubId && '%' !in boardId
    ensures PercentDecode(IframeTarget(clubId, boardId)) == ArticleListQuery(clubId, boardId)
  {
    var t := "%26" + ("userDisplay" + ("%3D" + "50"));
    var u := "%26" + ("search.menuid" + ("%3D" + (boardId + t)));
    var v := "%3F" + ("search.clubid" + ("%3D" + (clubId + u)));
    DecodeRows();
    PercentDecodePair("%26", '&', "search.menuid", boardId, t);
    PercentDecodePair("%3F", '?', "search.clubid", clubId, u);
    PercentDecodePlain("/ArticleList.nhn", v);
  }

  // ---------------------------------------------------------------------
  // Article ids from hrefs
  // ---------------------------------------------------------------------

  /** The id one link contributes: the legacy `[?&]articleid=<digits>` form
      when it matches, otherwise the `/<cafe>/<digits>` form; at most one. */
  function HrefArticleId(href: string, cafe: string): Option<int> {
    match Search(LegacyArticleId, href)
    case Some(g) => Some(DigitsValue(g))
    case None =>
      match Search(ModernArticleId(cafe), href)
      case Some(g) => Some(DigitsValue(g))
      case None => None
  }

  /** `link.get_attribute("href") or ""`. */
  function Href(link: Option<string>): string {
    link.GetOr("")
  }

  predicate NoDuplicates(s: seq<int>) {
    forall i, j | 0 <= i < j < |s| :: s[i] != s[j]
  }

  /** `ids.add(x)`, with the set kept as a sequence in first-seen order. */
  function AddId(ids: seq<int>, x: int): seq<int> {
    if x in ids then ids else ids + [x]
  }

  /** The ids of all links, each once: `list(ids)` at the end of the scan. */
  function HarvestIds(links: Links, cafe: string): (ids: seq<int>)
    ensures NoDuplicates(ids)
    ensures |ids| <= |links|
    ensures forall x :: x in ids <==>
      exists k | 0 <= k < |links| :: HrefArticleId(Href(links[k]), cafe) == Some(x)
  {
    if links == [] then []
    else
      var init := links[..|links| - 1];
      var prev := HarvestIds(init, cafe);
      assert forall k | 0 <= k < |init| :: init[k] == links[k];
      match HrefArticleId(Href(links[|links| - 1]), cafe)
      case Some(x) => AddId(prev, x)
      case None => prev
  }

  /** The body of the scan for one link: the legacy form first, and only
      when it does not match (`continue` skips the rest) the modern form. */
  method LinkArticleId(href: string, cafe: string) returns (r: Option<int>)
    ensures r == HrefArticleId(href, cafe)
  {
    var m := Search(LegacyArticleId, href);
    if m.Some? {
      return Some(DigitsValue(m.value));
    }
    m := Search(ModernArticleId(cafe), href);
    if m.Some? {
      return Some(DigitsValue(m.value));
    }
    r := None;
  }

  /** How one more link extends the harvest. */
  lemma HarvestStep(links: Links, i: nat, cafe: string)
    requires i < |links|
    ensures HarvestIds(links[..i + 1], cafe) ==
      match HrefArticleId(Href(links[i]), cafe)
      case Some(x) => AddId(HarvestIds(links[..i], cafe), x)
      case None => HarvestIds(links[..i], cafe)
  {
    assert links[..i + 1][..i] == links[..i];
  }

  /** `_list_article_ids` after navigation: scan the frame's links (or the
      page's when the frame never attached) and collect their ids. */
  method ListArticleIds(board: BoardPage, cafe: string) returns (ids: seq<int>)
    ensures ids == HarvestIds(board.Target(), cafe)
  {
    var links := board.Target();
    ids := [];
    var i := 0;
    while i < |links|
      invariant 0 <= i <= |links|
      invariant ids == HarvestIds(links[..i], cafe)
    {
      HarvestStep(links, i, cafe);
      var id := LinkArticleId(links[i].GetOr(""), cafe);
      if id.Some? {
        ids := AddId(ids, id.value);
      }
      i := i + 1;
    }
    assert links[..i] == links;
  }

  /** A legacy `articleid=` match decides the link's id, whatever else the
      href holds. */
  lemma LegacyTakesPrecedence(href: string, cafe: string, g: string)
    requires Search(LegacyArticleId, href) == Some(g)
    ensures HrefArticleId(href, cafe) == Some(DigitsValue(g))
  {
  }

  /** The modern form needs `?`, `#` or the end of the href (or a final
      newline) right after the digits. */
  lemma ModernNeedsTerminator(href: string, cafe: string, i: nat)
    requires i <= |href|
    requires MatchAt(ModernArticleId(cafe), href, i).Some?
    ensures var e := i + |cafe| + 2 + |MatchAt(ModernArticleId(cafe), href, i).value|;
            e == |href| || href[e] == '?' || href[e] == '#' || (href[e] == '\n' && e + 1 == |href|)
  {
  }

  lemma HostFacts()
    ensures |CafeHost| == 23 && CafeHost[8] == 'c' && CafeHost[9] == 'a'
    ensures forall j | 0 <= j < 23 && CafeHost[j] == '/' :: j == 6 || j == 7 || j == 22
    ensures forall j | 0 <= j < 23 :: CafeHost[j] != '?' && CafeHost[j] != '&'
  {
  }

  lemma NoLegacyMatch(s: string)
    requires forall j | 0 <= j < |s| :: s[j] != '?' && s[j] != '&'
    ensures Search(LegacyArticleId, s).None?
  {
    forall j | 0 <= j <= |s| ensures MatchAt(LegacyArticleId, s, j).None? { }
    SearchNone(LegacyArticleId, s);
  }

  lemma ReadUrlShape(cafe: string, n: nat)
    ensures var s := ArticleReadUrl(cafe, n);
      |s| == 24 + |cafe| + |NatToDecimal(n)| && s[..23] == CafeHost && s[23..23 + |cafe|] == cafe
      && s[23 + |cafe|] == '/' && s[24 + |cafe|..] == NatToDecimal(n)
  {
    var s := ArticleReadUrl(cafe, n);
    assert s == CafeHost + cafe + "/" + NatToDecimal(n);
  }

  lemma ReadUrlNoLegacy(cafe: string, n: nat)
    requires '?' !in cafe && '&' !in cafe
    ensures Search(LegacyArticleId, ArticleReadUrl(cafe, n)).None?
  {
    var s := ArticleReadUrl(cafe, n);
    var d := NatToDecimal(n);
    var c := |cafe|;
    HostFacts();
    ReadUrlShape(cafe, n);
    forall j | 0 <= j < |s| ensures s[j] != '?' && s[j] != '&' {
      if j < 23 { assert s[j] == s[..23][j]; }
      else if j < 23 + c { assert s[j] == s[23..23 + c][j - 23]; }
      else if 24 + c <= j { assert s[j] == d[j - 24 - c]; }
    }
    NoLegacyMatch(s);
  }

  lemma ReadUrlModernAt(cafe: string, n: nat)
    ensures MatchAt(ModernArticleId(cafe), ArticleReadUrl(cafe, n), 22) == Some(NatToDecimal(n))
  {
    var s := ArticleReadUrl(cafe, n);
    var c := |cafe|;
    ReadUrlShape(cafe, n);
    HostFacts();
    assert s[22] == s[..23][22] == '/';
    assert s[22..24 + c] == [s[22]] + s[23..23 + c] + [s[23 + c]];
    ModernAtDigits(cafe, s, 22, NatToDecimal(n));
  }

  /** The address the post extractor opens for article `n` is one the listing
      scan reads back as `n`, for any cafe name without `/`, `?` or `&`. */
  lemma ReadUrlYieldsId(cafe: string, n: nat)
    requires '/' !in cafe && '?' !in cafe && '&' !in cafe
    ensures HrefArticleId(ArticleReadUrl(cafe, n), cafe) == Some(n)
  {
    var s := ArticleReadUrl(cafe, n);
    ReadUrlNoLegacy(cafe, n);
    ReadUrlModernAt(cafe, n);
    ReadUrlShape(cafe, n);
    forall j | 0 <= j < 22 ensures MatchAt(ModernArticleId(cafe), s, j).None? {
      NoEarlierModernMatch(cafe, s, j);
    }
    SearchLeftmost(ModernArticleId(cafe), s, 22);
  }

  lemma NoEarlierModernMatch(cafe: string, s: string, j: nat)
    requires '/' !in cafe
    requires |s| >= 24 + |cafe| && s[..23] == CafeHost && s[23..23 + |cafe|] == cafe
    requires j < 22
    ensures MatchAt(ModernArticleId(cafe), s, j).None?
  {
    HostFacts();
    var c := |cafe|;
    var lit := "/" + cafe + "/";
    assert |lit| == c + 2 && lit[0] == '/' && lit[c + 1] == '/';
    assert lit[1..c + 1] == cafe;
    var w := s[j..j + |lit|];
    assert w[0] == s[j] == s[..23][j];
    if j != 6 && j != 7 {
      assert w[0] != lit[0];
    } else if j == 6 {
      assert w[1] == s[7] == s[..23][7];
      if c > 0 {
        assert lit[1] == cafe[0];
        assert w[1] != lit[1];
      } else {
        assert s[8] == s[..23][8];
        assert DigitRun(s, 8) == 0;
      }
    } else if c < 14 {
      assert w[c + 1] == s[8 + c] == s[..23][8 + c];
      assert w[c + 1] != lit[c + 1];
    } else if c > 14 {
      assert w[15] == s[22] == s[..23][22];
      assert lit[15] == cafe[14];
      assert w[15] != lit[15];
    } else {
      assert w[1..15] == s[8..22];
      if s[8..22] == cafe {
        assert s[23] == s[23..23 + c][0] == cafe[0];
        assert s[8] == s[..23][8];
        assert DigitRun(s, 23) == 0;
      } else {
        assert w[1..15] != lit[1..15];
      }
    }
  }
}
