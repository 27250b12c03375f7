/**
 * The six regular expressions src/scraper.py applies, written as matchers.
 * `re.search(p, s)` tries the start positions of `s` from left to right and
 * reports the first one where `p` matches; there its capture group is the
 * longest run of digits the pattern allows (every `\d+` here is followed by
 * something a digit cannot be, so backtracking never shortens it).
 */
module Patterns {
  import opened Wrappers
  import opened Text

  datatype Pattern =
    | ClubIdKey           // clubid=(\d+)                            re.IGNORECASE
    | ClubIdJson          // "clubId"\s*:\s*"?(\d+)"?                re.IGNORECASE
    | ClubIdGlobal        // g_sClubid\s*=\s*["'](\d+)["']           re.IGNORECASE
    | ClubIdSearch        // search\.clubid=(\d+)                    re.IGNORECASE
    | LegacyArticleId     // [?&]articleid=(\d+)
    | ModernArticleId(cafe: string)  // /<re.escape(cafe)>/(\d+)(?:[?#]|$)

  /** Under re.IGNORECASE a pattern letter `l` (written lower-case) matches
      every character whose lower-case form is `l`, and Python adds `ı` for
      `i` and `ſ` for `s`; other characters match only themselves. */
  predicate FoldsTo(c: char, l: char) {
    || c == l
    || ('a' <= l <= 'z' && c as int == l as int - 32)
    || (l == 'i' && (c == '\U{130}' || c == '\U{131}'))
    || (l == 's' && c == '\U{17F}')
  }

  /** `s[i..]` starts with `lit`. */
  predicate LiteralAt(s: string, i: nat, lit: string) {
    i + |lit| <= |s| && s[i..i + |lit|] == lit
  }

  /** `s[i..]` starts with `lit` under re.IGNORECASE. */
  predicate LiteralAtFold(s: string, i: nat, lit: string) {
    i + |lit| <= |s| && forall k | 0 <= k < |lit| :: FoldsTo(s[i + k], lit[k])
  }

  /** Length of the longest run of digits at `i`: what a greedy `\d+` or `\d*` takes. */
  function DigitRun(s: string, i: nat): (n: nat)
    requires i <= |s|
    ensures i + n <= |s|
    ensures AllDigits(s[i..i + n])
    ensures i + n == |s| || !IsDigit(s[i + n])
    decreases |s| - i
  {
    if i < |s| && IsDigit(s[i]) then
      var n := 1 + DigitRun(s, i + 1);
      assert s[i..i + n] == [s[i]] + s[i + 1..i + n];
      n
    else 0
  }

  /** Over a tail of digits the run reaches the end. */
  lemma {:induction false} DigitRunToEnd(s: string, i: nat)
    requires i <= |s|
    requires forall k | i <= k < |s| :: IsDigit(s[k])
    ensures DigitRun(s, i) == |s| - i
    decreases |s| - i
  {
    if i < |s| { DigitRunToEnd(s, i + 1); }
  }

  /** Length of the longest run of whitespace at `i`: what a greedy `\s*` takes. */
  function SpaceRun(s: string, i: nat): (n: nat)
    requires i <= |s|
    ensures i + n <= |s|
    ensures i + n == |s| || !IsSpace(s[i + n])
    decreases |s| - i
  {
    if i < |s| && IsSpace(s[i]) then 1 + SpaceRun(s, i + 1) else 0
  }

  /** The digits at `d` when there is at least one. */
  function DigitsAt(s: string, d: nat): (g: Option<string>)
    requires d <= |s|
    ensures g.Some? ==> |g.value| >= 1 && AllDigits(g.value)
  {
    var n := DigitRun(s, d);
    if n == 0 then None else Some(s[d..d + n])
  }

  predicate IsQuote(c: char) { c == '"' || c == '\'' }

  /** `"clubId"\s*:\s*"?(\d+)"?` tried at `i`. */
  function JsonAt(s: string, i: nat): (g: Option<string>)
    requires i <= |s|
    ensures g.Some? ==> |g.value| >= 1 && AllDigits(g.value)
  {
    if !LiteralAtFold(s, i, "\"clubid\"") then None
    else
      var colon := i + 8 + SpaceRun(s, i + 8);
      if colon == |s| || s[colon] != ':' then None
      else
        var k := colon + 1 + SpaceRun(s, colon + 1);
        DigitsAt(s, if k < |s| && s[k] == '"' then k + 1 else k)
  }

  /** `g_sClubid\s*=\s*["'](\d+)["']` tried at `i`. */
  function GlobalAt(s: string, i: nat): (g: Option<string>)
    requires i <= |s|
    ensures g.Some? ==> |g.value| >= 1 && AllDigits(g.value)
  {
    if !LiteralAtFold(s, i, "g_sclubid") then None
    else
      var eq := i + 9 + SpaceRun(s, i + 9);
      if eq == |s| || s[eq] != '=' then None
      else
        var k := eq + 1 + SpaceRun(s, eq + 1);
        if k == |s| || !IsQuote(s[k]) then None
        else
          var n := DigitRun(s, k + 1);
          if n > 0 && k + 1 + n < |s| && IsQuote(s[k + 1 + n]) then Some(s[k + 1..k + 1 + n])
          else None
  }

  /** `/<cafe>/(\d+)(?:[?#]|$)` tried at `i`. */
  function ModernAt(cafe: string, s: string, i: nat): (g: Option<string>)
    requires i <= |s|
    ensures g.Some? ==> |g.value| >= 1 && AllDigits(g.value)
  {
    var lit := "/" + cafe + "/";
    if !LiteralAt(s, i, lit) then None
    else
      var d := i + |lit|;
      var n := DigitRun(s, d);
      var e := d + n;
      // `(?:[?#]|$)`: `$` also matches just before a final newline
      if n > 0 && (e == |s| || s[e] == '?' || s[e] == '#' || (s[e] == '\n' && e + 1 == |s|))
      then Some(s[d..e]) else None
  }

  /** After `/<cafe>/`, digits up to the end are the modern form's group. */
  lemma ModernAtDigits(cafe: string, s: string, i: nat, d: string)
    requires i + |cafe| + 2 <= |s| && s[i..i + |cafe| + 2] == "/" + cafe + "/"
    requires s[i + |cafe| + 2..] == d && |d| >= 1 && AllDigits(d)
    ensures ModernAt(cafe, s, i) == Some(d)
  {
    var e := i + |cafe| + 2;
    forall k | e <= k < |s| ensures IsDigit(s[k]) { assert s[k] == d[k - e]; }
    DigitRunToEnd(s, e);
    assert s[e..e + |d|] == d;
  }

  /** The capture group of `p` when the match is tried at position `i`. */
  function MatchAt(p: Pattern, s: string, i: nat): (g: Option<string>)
    requires i <= |s|
    ensures g.Some? ==> |g.value| >= 1 && AllDigits(g.value)
  {
    match p
    case ClubIdKey =>
      if LiteralAtFold(s, i, "clubid=") then DigitsAt(s, i + 7) else None
    case ClubIdSearch =>
      if LiteralAtFold(s, i, "search.clubid=") then DigitsAt(s, i + 14) else None
    case ClubIdJson => JsonAt(s, i)
    case ClubIdGlobal => GlobalAt(s, i)
    case LegacyArticleId =>
      if i < |s| && (s[i] == '?' || s[i] == '&') && LiteralAt(s, i + 1, "articleid=")
      then DigitsAt(s, i + 11) else None
    case ModernArticleId(cafe) => ModernAt(cafe, s, i)
  }

  /** `re.search` from position `i` on. */
  function SearchFrom(p: Pattern, s: string, i: nat): (g: Option<string>)
    requires i <= |s|
    ensures g.Some? ==> |g.value| >= 1 && AllDigits(g.value)
    decreases |s| - i
  {
    var m := MatchAt(p, s, i);
    if m.Some? || i == |s| then m else SearchFrom(p, s, i + 1)
  }

  /** `re.search(p, s).group(1)`, or `None` when there is no match. */
  function Search(p: Pattern, s: string): (g: Option<string>)
    ensures g.Some? ==> |g.value| >= 1 && AllDigits(g.value)
  {
    SearchFrom(p, s, 0)
  }

  lemma {:induction false} SearchFromLeftmost(p: Pattern, s: string, from: nat, i: nat)
    requires from <= i <= |s|
    requires MatchAt(p, s, i).Some?
    requires forall j | from <= j < i :: MatchAt(p, s, j).None?
    ensures SearchFrom(p, s, from) == MatchAt(p, s, i)
    decreases i - from
  {
    if from < i {
      assert MatchAt(p, s, from).None? && from < |s|;
      SearchFromLeftmost(p, s, from + 1, i);
    }
  }

  lemma {:induction false} SearchFromNone(p: Pattern, s: string, from: nat)
    requires from <= |s|
    ensures SearchFrom(p, s, from).None? <==> forall j | from <= j <= |s| :: MatchAt(p, s, j).None?
    decreases |s| - from
  {
    if from < |s| {
      SearchFromNone(p, s, from + 1);
      assert (forall j | from <= j <= |s| :: MatchAt(p, s, j).None?) <==>
        MatchAt(p, s, from).None? && forall j | from + 1 <= j <= |s| :: MatchAt(p, s, j).None?;
    }
  }

  /** `re.search` reports the match at the leftmost position where one exists. */
  lemma SearchLeftmost(p: Pattern, s: string, i: nat)
    requires i <= |s|
    requires MatchAt(p, s, i).Some?
    requires forall j | 0 <= j < i :: MatchAt(p, s, j).None?
    ensures Search(p, s) == MatchAt(p, s, i)
  {
    SearchFromLeftmost(p, s, 0, i);
  }

  /** `re.search` finds nothing exactly when no position matches. */
  lemma SearchNone(p: Pattern, s: string)
    ensures Search(p, s).None? <==> forall j | 0 <= j <= |s| :: MatchAt(p, s, j).None?
  {
    SearchFromNone(p, s, 0);
  }

  /** Whatever `search\.clubid=(\d+)` finds, `clubid=(\d+)` finds too, seven
      characters further on: the fourth markup pattern never decides a club
      id that the first one would not already have supplied. */
  lemma SearchClubIdImpliesClubIdKey(s: string)
    requires Search(ClubIdSearch, s).Some?
    ensures Search(ClubIdKey, s).Some?
  {
    SearchNone(ClubIdSearch, s);
    var i :| 0 <= i <= |s| && MatchAt(ClubIdSearch, s, i).Some?;
    assert forall k | 0 <= k < 7 :: FoldsTo(s[i + 7 + k], "clubid="[k]) by {
      forall k | 0 <= k < 7 ensures FoldsTo(s[i + 7 + k], "clubid="[k]) {
        assert "search.clubid="[7 + k] == "clubid="[k];
      }
    }
    assert MatchAt(ClubIdKey, s, i + 7).Some?;
    SearchNone(ClubIdKey, s);
  }
}
