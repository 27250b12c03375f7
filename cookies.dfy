/**
 * Cookie-based authentication, `_inject_cookies` in src/scraper.py: the
 * `NAVER_COOKIES` string `"NID_AUT=xxx;NID_SES=yyy"` becomes the list of
 * session cookies handed to the browser context.
 */
module Cookies {
  import opened Wrappers
  import opened Text
  import opened Posts

  datatype Cookie = Cookie(name: string, value: string, domain: string, path: string)

  const CookieDomain: string := ".naver.com"
  const CookiePath: string := "/"

  const NoPairsMessage: string := "NAVER_COOKIES is set but contains no valid key=value pairs."

  /** A cookie as `_inject_cookies` builds it. */
  predicate WellFormed(c: Cookie) {
    && IsStripped(c.name) && IsStripped(c.value) && '=' !in c.name
    && c.domain == CookieDomain && c.path == CookiePath
  }

  /** One `;`-separated piece: stripped, kept only when it holds `=`, and
      split at its first `=` into a stripped name and a stripped value. */
  function ParsePair(piece: string): (r: Option<Cookie>)
    ensures r.Some? <==> '=' in piece
    ensures r.Some? ==> WellFormed(r.value)
  {
    StripKeeps(piece, '=');
    var pair := Strip(piece);
    if '=' in pair then
      var (name, value) := Partition(pair, '=');
      StripKeeps(name, '=');
      Some(Cookie(Strip(name), Strip(value), CookieDomain, CookiePath))
    else None
  }

  /** The cookies of the pieces, in input order. */
  function ParsedCookies(pieces: seq<string>): (r: seq<Cookie>)
    ensures r == [] <==> forall k | 0 <= k < |pieces| :: '=' !in pieces[k]
  {
    if pieces == [] then []
    else
      var init := pieces[..|pieces| - 1];
      var last := pieces[|pieces| - 1];
      var prev := ParsedCookies(init);
      var r := prev + Listed(ParsePair(last));
      assert forall k | 0 <= k < |init| :: init[k] == pieces[k];
      r
  }

  lemma {:induction false} ParsedCookiesWellFormed(pieces: seq<string>)
    ensures forall k | 0 <= k < |ParsedCookies(pieces)| :: WellFormed(ParsedCookies(pieces)[k])
  {
    if pieces != [] {
      var init := pieces[..|pieces| - 1];
      var o := ParsePair(pieces[|pieces| - 1]);
      ParsedCookiesWellFormed(init);
      var prev := ParsedCookies(init);
      var r := ParsedCookies(pieces);
      assert r == prev + Listed(o);
      forall k | 0 <= k < |r| ensures WellFormed(r[k]) {
        if k < |prev| { assert r[k] == prev[k]; } else { assert r[k] == o.value; }
      }
    }
  }

  function Listed(o: Option<Cookie>): seq<Cookie> {
    if o.Some? then [o.value] else []
  }

  lemma ParsedCookiesSnoc(pieces: seq<string>, p: string)
    ensures ParsedCookies(pieces + [p]) == ParsedCookies(pieces) + Listed(ParsePair(p))
  {
    assert (pieces + [p])[..|pieces|] == pieces;
  }

  /** The cookies of `NAVER_COOKIES`, or the error raised when none
      survives. */
  function InjectedCookies(raw: string): Result<seq<Cookie>, ScrapeError> {
    var cookies := ParsedCookies(Split(raw, ';'));
    if cookies == [] then Err(NaverLoginError(NoPairsMessage)) else Ok(cookies)
  }

  /** `_inject_cookies`: the loop over the pieces that appends one cookie
      per piece holding `=`, then the check for an empty list. */
  method InjectCookies(raw: string) returns (r: Result<seq<Cookie>, ScrapeError>)
    ensures r == InjectedCookies(raw)
  {
    var pieces := Split(raw, ';');
    var cookies: seq<Cookie> := [];
    var i := 0;
    while i < |pieces|
      invariant 0 <= i <= |pieces|
      invariant cookies == ParsedCookies(pieces[..i])
    {
      assert pieces[..i + 1] == pieces[..i] + [pieces[i]];
      ParsedCookiesSnoc(pieces[..i], pieces[i]);
      var pair := Strip(pieces[i]);
      if '=' in pair {
        var (name, value) := Partition(pair, '=');
        cookies := cookies + [Cookie(Strip(name), Strip(value), CookieDomain, CookiePath)];
      } else {
        StripKeeps(pieces[i], '=');
      }
      i := i + 1;
    }
    assert pieces[..i] == pieces;
    if cookies == [] {
      return Err(NaverLoginError(NoPairsMessage));
    }
    r := Ok(cookies);
  }

  /** The string is rejected exactly when it has no `=` at all. */
  lemma InjectedCookiesErrIff(raw: string)
    ensures InjectedCookies(raw).Err? <==> '=' !in raw
    ensures InjectedCookies(raw).Err? ==> InjectedCookies(raw).error == NaverLoginError(NoPairsMessage)
  {
    JoinSplit(raw, ';');
    JoinHas(Split(raw, ';'), ';', '=');
  }

  /** `name=value` with the pairs joined by `;`. */
  function Pair(c: Cookie): string {
    c.name + "=" + c.value
  }

  function Format(cookies: seq<Cookie>): (r: seq<string>)
    ensures |r| == |cookies|
    ensures forall k | 0 <= k < |r| :: r[k] == Pair(cookies[k])
  {
    if cookies == [] then []
    else Format(cookies[..|cookies| - 1]) + [Pair(cookies[|cookies| - 1])]
  }

  /** A cookie whose text can be written into `NAVER_COOKIES`: no `;`
      anywhere, neither name nor value padded with whitespace. */
  predicate Writable(c: Cookie) {
    WellFormed(c) && ';' !in c.name && ';' !in c.value
  }

  lemma PairNoSeparator(c: Cookie)
    requires Writable(c)
    ensures ';' !in Pair(c)
  {
    assert Pair(c) == c.name + ['='] + c.value;
  }

  /** Any piece holding `=`: the cookie's name is the stripped text before
      the first `=` of the stripped piece, its value the stripped rest. */
  lemma ParsePairSplits(piece: string, n: string, v: string)
    requires '=' !in n && Strip(piece) == n + "=" + v
    ensures ParsePair(piece) == Some(Cookie(Strip(n), Strip(v), CookieDomain, CookiePath))
  {
    assert n + "=" + v == n + ['='] + v;
    PartitionFirst(n, '=', v);
  }

  lemma PairParses(c: Cookie)
    requires Writable(c)
    ensures ParsePair(Pair(c)) == Some(c)
  {
    var p := Pair(c);
    assert p == c.name + ['='] + c.value;
    assert IsStripped(p) by {
      if c.name != [] { assert p[0] == c.name[0]; } else { assert p[0] == '='; }
      if c.value != [] { assert p[|p| - 1] == c.value[|c.value| - 1]; } else { assert p[|p| - 1] == '='; }
    }
    StripStripped(p);
    PartitionFirst(c.name, '=', c.value);
    StripStripped(c.name);
    StripStripped(c.value);
  }

  lemma {:induction false} PairsParse(pieces: seq<string>, cookies: seq<Cookie>)
    requires |pieces| == |cookies|
    requires forall k | 0 <= k < |cookies| :: pieces[k] == Pair(cookies[k]) && Writable(cookies[k])
    ensures ParsedCookies(pieces) == cookies
  {
    if cookies != [] {
      var n := |cookies|;
      var cs := cookies[..n - 1];
      var c := cookies[n - 1];
      assert cookies == cs + [c];
      var ps := pieces[..n - 1];
      forall k | 0 <= k < n - 1 ensures ps[k] == Pair(cs[k]) && Writable(cs[k]) {
        assert ps[k] == pieces[k] && cs[k] == cookies[k];
      }
      PairsParse(ps, cs);
      PairParses(c);
    }
  }

  /** Writing cookies out as `name=value;name=value` and injecting the string
      gives back exactly those cookies, in order. */
  lemma InjectedCookiesRoundTrip(cookies: seq<Cookie>)
    requires |cookies| >= 1
    requires forall k | 0 <= k < |cookies| :: Writable(cookies[k])
    ensures InjectedCookies(Join(Format(cookies), ';')) == Ok(cookies)
  {
    var f := Format(cookies);
    forall k | 0 <= k < |f| ensures ';' !in f[k] {
      PairNoSeparator(cookies[k]);
    }
    SplitJoin(f, ';');
    PairsParse(f, cookies);
    assert ParsedCookies(Split(Join(f, ';'), ';')) == cookies;
  }
}
