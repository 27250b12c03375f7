/**
 * `_resolve_club_id` in src/scraper.py: the numeric club id behind a cafe's
 * name, taken from the `clubid=` parameter of the `cafe_main` frame's `src`
 * when there is one, otherwise from the first of four patterns that matches
 * the landing page's markup.
 */
module ClubId {
  import opened Wrappers
  import opened Text
  import opened Patterns
  import opened Posts

  /** The cafe's landing page: the `#cafe_main` element (`None` when absent)
      with its `src` attribute (`None` when it has none), and the page HTML. */
  datatype Landing = Landing(frame: Option<Option<string>>, html: string)

  /** The markup patterns, in the order they are tried. */
  const MarkupPatterns: seq<Pattern> := [ClubIdKey, ClubIdJson, ClubIdGlobal, ClubIdSearch]

  function UnresolvedMessage(cafe: string): string {
    "Could not resolve numeric club_id for '" + cafe + "'. "
      + "Check that the cafe URL name is correct and the account has access."
  }

  /** The group of the first pattern in the list that matches `html`. */
  function FirstMatch(pats: seq<Pattern>, html: string): (r: Option<string>)
    ensures r.Some? ==> |r.value| >= 1 && AllDigits(r.value)
    ensures r.None? <==> forall k | 0 <= k < |pats| :: Search(pats[k], html).None?
  {
    if pats == [] then None
    else
      var m := Search(pats[0], html);
      if m.Some? then m
      else
        assert forall k | 1 <= k < |pats| :: pats[1..][k - 1] == pats[k];
        FirstMatch(pats[1..], html)
  }

  lemma {:induction false} FirstMatchPicksFirst(pats: seq<Pattern>, html: string, i: nat)
    requires i < |pats| && Search(pats[i], html).Some?
    requires forall k | 0 <= k < i :: Search(pats[k], html).None?
    ensures FirstMatch(pats, html) == Search(pats[i], html)
  {
    if i > 0 {
      assert pats[1..][i - 1] == pats[i];
      assert forall k | 0 <= k < i - 1 :: pats[1..][k] == pats[k + 1];
      FirstMatchPicksFirst(pats[1..], html, i - 1);
    }
  }

  /** Strategy 1: `clubid=(\d+)` in the frame's `src`, when the frame exists. */
  function FrameClubId(landing: Landing): (r: Option<string>)
    ensures r.Some? ==> landing.frame.Some? && |r.value| >= 1 && AllDigits(r.value)
    ensures landing.frame.Some? ==> r == Search(ClubIdKey, landing.frame.value.GetOr(""))
  {
    match landing.frame
    case Some(src) => Search(ClubIdKey, src.GetOr(""))
    case None => None
  }

  function ResolvedClubId(cafe: string, landing: Landing): (r: Result<string, ScrapeError>)
    ensures r.Ok? ==> |r.value| >= 1 && AllDigits(r.value)
    ensures r.Err? ==> r.error == ClubIdResolutionError(UnresolvedMessage(cafe))
  {
    match FrameClubId(landing)
    case Some(id) => Ok(id)
    case None =>
      match FirstMatch(MarkupPatterns, landing.html)
      case Some(id) => Ok(id)
      case None => Err(ClubIdResolutionError(UnresolvedMessage(cafe)))
  }

  /** `_resolve_club_id`, with its early returns. */
  method ResolveClubId(cafe: string, landing: Landing) returns (r: Result<string, ScrapeError>)
    ensures r == ResolvedClubId(cafe, landing)
  {
    if landing.frame.Some? {
      var src := landing.frame.value.GetOr("");
      var m := Search(ClubIdKey, src);
      if m.Some? {
        return Ok(m.value);
      }
    }
    var html := landing.html;
    var i := 0;
    while i < |MarkupPatterns|
      invariant 0 <= i <= |MarkupPatterns|
      invariant forall k | 0 <= k < i :: Search(MarkupPatterns[k], html).None?
    {
      var m := Search(MarkupPatterns[i], html);
      if m.Some? {
        FirstMatchPicksFirst(MarkupPatterns, html, i);
        return Ok(m.value);
      }
      i := i + 1;
    }
    r := Err(ClubIdResolutionError(UnresolvedMessage(cafe)));
  }

  /** A match in the frame's `src` wins over anything in the markup. */
  lemma FrameWins(cafe: string, landing: Landing, src: Option<string>, id: string)
    requires landing.frame == Some(src) && Search(ClubIdKey, src.GetOr("")) == Some(id)
    ensures ResolvedClubId(cafe, landing) == Ok(id)
  {
  }

  /** Otherwise the first markup pattern that matches supplies the id. */
  lemma MarkupInOrder(cafe: string, landing: Landing, i: nat)
    requires FrameClubId(landing).None?
    requires i < |MarkupPatterns| && Search(MarkupPatterns[i], landing.html).Some?
    requires forall k | 0 <= k < i :: Search(MarkupPatterns[k], landing.html).None?
    ensures ResolvedClubId(cafe, landing) == Ok(Search(MarkupPatterns[i], landing.html).value)
  {
    FirstMatchPicksFirst(MarkupPatterns, landing.html, i);
  }

  /** Resolution fails, with `ClubIdResolutionError`, exactly when no
      strategy matches. */
  lemma UnresolvedIff(cafe: string, landing: Landing)
    ensures ResolvedClubId(cafe, landing).Err? <==>
      FrameClubId(landing).None? && forall k | 0 <= k < |MarkupPatterns| :: Search(MarkupPatterns[k], landing.html).None?
    ensures ResolvedClubId(cafe, landing).Err? ==>
      ResolvedClubId(cafe, landing).error == ClubIdResolutionError(UnresolvedMessage(cafe))
  {
  }

  /** The fourth pattern, `search\.clubid=`, is never the one that decides:
      wherever it matches, the first pattern matches too, so the first three
      patterns alone resolve every landing page the same way. */
  lemma SearchPatternRedundant(html: string)
    ensures FirstMatch(MarkupPatterns, html) == FirstMatch(MarkupPatterns[..3], html)
  {
    var three := MarkupPatterns[..3];
    assert forall k | 0 <= k < 3 :: three[k] == MarkupPatterns[k];
    if Search(ClubIdKey, html).Some? {
      FirstMatchPicksFirst(MarkupPatterns, html, 0);
      FirstMatchPicksFirst(three, html, 0);
    } else if Search(ClubIdJson, html).Some? {
      FirstMatchPicksFirst(MarkupPatterns, html, 1);
      FirstMatchPicksFirst(three, html, 1);
    } else if Search(ClubIdGlobal, html).Some? {
      FirstMatchPicksFirst(MarkupPatterns, html, 2);
      FirstMatchPicksFirst(three, html, 2);
    } else {
      if Search(ClubIdSearch, html).Some? {
        SearchClubIdImpliesClubIdKey(html);
      }
    }
  }
}
