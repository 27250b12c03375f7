/**
 * main.py: the state file holding the watermark, the configuration read
 * from the environment, and one run of the job: fetch the new posts,
 * summarise and post each one, advance the watermark past every post
 * attempted, and report the failures in one digest.
 *
 * The file system, the environment, the language model and the webhook are
 * inputs: the state file's contents, a map of variables, and the replies
 * the two services give.
 */
module Runner {
  import opened Wrappers
  import opened Text
  import opened Posts
  import opened Listing
  import opened Selection
  import opened Session
  import Summarizer
  import Notifier

  // ---------------------------------------------------------------------
  // State
  // ---------------------------------------------------------------------

  /** `last_processed_id.txt`: absent, present but unreadable (`OSError`), or
      present with some text. */
  datatype StateFile = Absent | Unreadable | Contents(text: string)

  /** `load_last_processed_id`: the integer in the stripped file, or 0 when
      there is no file, it cannot be read, it is blank or it is not an
      integer. */
  function LastProcessedId(f: StateFile): (id: int)
    ensures id != 0 ==> f.Contents? && ParseInt(Strip(f.text)) == Some(id)
    ensures f.Contents? && ParseInt(Strip(f.text)).Some? ==> id == ParseInt(Strip(f.text)).value
  {
    match f
    case Contents(text) =>
      var content := Strip(text);
      if content != "" then ParseInt(content).GetOr(0) else 0
    case _ => 0
  }

  /** `save_last_processed_id`: the file's new text, which `int` reads back
      as the id and which has nothing for `strip` to remove. */
  function SavedText(id: int): (r: string)
    ensures IsStripped(r) && ParseInt(r) == Some(id)
  {
    var d := IntToDecimal(id);
    var n := NatToDecimal(if id < 0 then -id else id);
    assert d[|d| - 1] == n[|n| - 1];
    assert !IsSpace(d[|d| - 1]);
    assert !IsSpace(d[0]) by { if id >= 0 { assert d[0] == n[0]; } }
    ParseIntToDecimal(id);
    d
  }

  /** A saved watermark is read back by the next run. */
  lemma StateRoundTrip(id: int)
    ensures LastProcessedId(Contents(SavedText(id))) == id
  {
    StripStripped(SavedText(id));
  }

  // ---------------------------------------------------------------------
  // Configuration
  // ---------------------------------------------------------------------

  type Env = map<string, string>

  /** `os.environ.get(key, "").strip()`. */
  function Setting(env: Env, key: string): (v: string)
    ensures IsStripped(v)
    ensures key !in env ==> v == ""
    ensures v == "" <==> key !in env || AllSpace(env[key])
    ensures key in env && IsStripped(env[key]) ==> v == env[key]
  {
    if key in env then
      StripEmptyIff(env[key]);
      if IsStripped(env[key]) then StripStripped(env[key]); Strip(env[key])
      else Strip(env[key])
    else Strip("")
  }

  datatype Requirement = Requirement(key: string, description: string)

  const Required: seq<Requirement> := [
    Requirement("CAFE_URL_NAME", "Naver Cafe URL name (e.g. daechi2dongchurch)"),
    Requirement("CAFE_BOARD_ID", "Naver Cafe numeric board (menu) ID"),
    Requirement("DISCORD_WEBHOOK_URL", "Discord Webhook URL"),
    Requirement("ANTHROPIC_API_KEY", "Anthropic API key")
  ]

  /** The requirement's variable is set to something other than whitespace. */
  predicate Given(env: Env, q: Requirement) {
    Setting(env, q.key) != ""
  }

  function MissingLine(q: Requirement): string {
    "  " + q.key + ": " + q.description
  }

  /** The lines reported for the requirements whose setting is empty, in
      order. */
  function Missing(env: Env, reqs: seq<Requirement>): (r: seq<string>)
    ensures |r| <= |reqs|
  {
    if reqs == [] then []
    else
      var init := reqs[..|reqs| - 1];
      var q := reqs[|reqs| - 1];
      assert forall k | 0 <= k < |init| :: init[k] == reqs[k];
      Missing(env, init) + (if Given(env, q) then [] else [MissingLine(q)])
  }

  /** Nothing is reported exactly when every requirement is given. */
  lemma {:induction false} MissingEmptyIff(env: Env, reqs: seq<Requirement>)
    ensures Missing(env, reqs) == [] <==> forall k | 0 <= k < |reqs| :: Given(env, reqs[k])
  {
    if reqs != [] {
      var init := reqs[..|reqs| - 1];
      var q := reqs[|reqs| - 1];
      MissingEmptyIff(env, init);
      var tail := if Given(env, q) then [] else [MissingLine(q)];
      assert Missing(env, reqs) == Missing(env, init) + tail;
      assert Missing(env, reqs) == [] <==> Missing(env, init) == [] && tail == [];
      assert (forall k | 0 <= k < |reqs| :: Given(env, reqs[k])) <==>
             (forall k | 0 <= k < |init| :: Given(env, init[k])) && Given(env, q) by {
        assert forall k | 0 <= k < |init| :: init[k] == reqs[k];
      }
    }
  }

  /** One requirement is reported exactly when it is not given ... */
  lemma MissingOne(env: Env, q: Requirement)
    ensures Missing(env, [q]) == if Given(env, q) then [] else [MissingLine(q)]
  {
    assert [q][..0] == [];
  }

  /** ... and the report for a list is the reports of its parts, in order. */
  lemma {:induction false} MissingAppend(env: Env, a: seq<Requirement>, b: seq<Requirement>)
    ensures Missing(env, a + b) == Missing(env, a) + Missing(env, b)
  {
    if b != [] {
      var b' := b[..|b| - 1];
      var q := b[|b| - 1];
      assert (a + b)[..|a + b| - 1] == a + b';
      assert (a + b)[|a + b| - 1] == q;
      MissingAppend(env, a, b');
    } else {
      assert a + b == a;
    }
  }

  /** The settings of the requirements, by key. */
  function Values(env: Env, reqs: seq<Requirement>): (m: map<string, string>)
    ensures forall k | 0 <= k < |reqs| :: reqs[k].key in m
    ensures forall key | key in m :: m[key] == Setting(env, key)
  {
    if reqs == [] then map[]
    else
      var init := reqs[..|reqs| - 1];
      var q := reqs[|reqs| - 1];
      assert forall k | 0 <= k < |init| :: init[k] == reqs[k];
      Values(env, init)[q.key := Setting(env, q.key)]
  }

  /** Authentication is configured: cookies, or both an id and a password. */
  predicate AuthGiven(env: Env) {
    Setting(env, "NAVER_COOKIES") != "" || (Setting(env, "NAVER_ID") != "" && Setting(env, "NAVER_PW") != "")
  }

  /** Why `load_config` exits: the missing-variable lines, or no way to log in. */
  datatype ConfigError = MissingVariables(lines: seq<string>) | NoAuth

  /** The configuration with the three authentication settings added. */
  function WithAuth(env: Env, m: map<string, string>): (r: map<string, string>)
    requires forall key | key in m :: m[key] == Setting(env, key)
    ensures forall key | key in m :: key in r
    ensures "NAVER_COOKIES" in r && "NAVER_ID" in r && "NAVER_PW" in r
    ensures forall key | key in r :: r[key] == Setting(env, key)
  {
    m["NAVER_COOKIES" := Setting(env, "NAVER_COOKIES")]
     ["NAVER_ID" := Setting(env, "NAVER_ID")]
     ["NAVER_PW" := Setting(env, "NAVER_PW")]
  }

  /** The configuration `load_config` returns, or why it exits. */
  function Configured(env: Env): (r: Result<map<string, string>, ConfigError>)
    ensures r.Ok? ==> forall key | key in r.value :: r.value[key] == Setting(env, key)
    ensures r.Ok? ==> && "CAFE_URL_NAME" in r.value && "CAFE_BOARD_ID" in r.value
                      && "DISCORD_WEBHOOK_URL" in r.value && "ANTHROPIC_API_KEY" in r.value
                      && "NAVER_COOKIES" in r.value && "NAVER_ID" in r.value && "NAVER_PW" in r.value
  {
    var missing := Missing(env, Required);
    if missing != [] then Err(MissingVariables(missing))
    else
      var values := Values(env, Required);
      assert Required[0].key in values && Required[1].key in values;
      assert Required[2].key in values && Required[3].key in values;
      var config := WithAuth(env, values);
      if !AuthGiven(env) then Err(NoAuth) else Ok(config)
  }

  /** `load_config` exits for missing variables exactly when some required
      variable is blank, reporting them all; otherwise it exits exactly when
      neither cookies nor both id and password are configured. */
  lemma ConfiguredIff(env: Env)
    ensures var r := Configured(env);
      && (r.Err? && r.error.MissingVariables? <==> exists k | 0 <= k < |Required| :: !Given(env, Required[k]))
      && (r.Err? && r.error.MissingVariables? ==> r.error.lines == Missing(env, Required))
      && (r.Ok? <==> (forall k | 0 <= k < |Required| :: Given(env, Required[k])) && AuthGiven(env))
  {
    MissingEmptyIff(env, Required);
  }

  /** The loop of `load_config` over the required keys: record each
      stripped value and collect a line for each empty one. */
  method CollectSettings(env: Env, reqs: seq<Requirement>) returns (config: map<string, string>, missing: seq<string>)
    ensures config == Values(env, reqs) && missing == Missing(env, reqs)
  {
    config := map[];
    missing := [];
    var i := 0;
    while i < |reqs|
      invariant 0 <= i <= |reqs|
      invariant config == Values(env, reqs[..i])
      invariant missing == Missing(env, reqs[..i])
    {
      var q := reqs[i];
      assert reqs[..i + 1][..i] == reqs[..i];
      var value := Setting(env, q.key);
      if value == "" {
        missing := missing + [MissingLine(q)];
      }
      config := config[q.key := value];
      i := i + 1;
    }
    assert reqs[..i] == reqs;
  }

  /** `load_config`: the required keys, then the authentication settings and
      the check that one way to log in is configured. */
  method LoadConfig(env: Env) returns (r: Result<map<string, string>, ConfigError>)
    ensures r == Configured(env)
  {
    var config, missing := CollectSettings(env, Required);
    if missing != [] {
      return Err(MissingVariables(missing));
    }
    var cookies := Setting(env, "NAVER_COOKIES");
    var id := Setting(env, "NAVER_ID");
    var pw := Setting(env, "NAVER_PW");
    config := config["NAVER_COOKIES" := cookies]["NAVER_ID" := id]["NAVER_PW" := pw];
    if cookies == "" && !(id != "" && pw != "") {
      return Err(NoAuth);
    }
    r := Ok(config);
  }

  // ---------------------------------------------------------------------
  // One post
  // ---------------------------------------------------------------------

  /** A webhook response: status code and body text. */
  datatype Response = Response(status: int, body: string)

  /** The two services: the model's reply to a request (its text blocks, or
      the message of the exception the client raised) and the webhook's
      response to a payload (or the message of the exception `requests`
      raised). */
  datatype Services = Services(
    answer: Summarizer.Request -> Result<seq<string>, string>,
    deliver: Notifier.Payload -> Result<Response, string>)

  /** `_post_webhook` for one embed. */
  function Delivered(svc: Services, e: Notifier.Embed): (r: Result<(), string>)
    ensures svc.deliver(Notifier.PayloadOf(e)).Ok? ==>
      (r.Ok? <==> svc.deliver(Notifier.PayloadOf(e)).value.status in {200, 204})
  {
    match svc.deliver(Notifier.PayloadOf(e))
    case Err(m) => Err(m)
    case Ok(resp) => Notifier.WebhookOutcome(resp.status, resp.body)
  }

  /** The summary of a post, when the model gives one. */
  function SummaryOf(post: CafePost, svc: Services): Result<string, string> {
    Summarizer.Summarize(svc.answer(Summarizer.SummaryRequest(post)))
  }

  /** The body of the `try` for one post: summarise, then send; the message
      of whichever step raised. */
  function Attempt(post: CafePost, svc: Services): Result<(), string> {
    match SummaryOf(post, svc)
    case Err(m) => Err(m)
    case Ok(summary) => Delivered(svc, Notifier.PostEmbed(post, summary))
  }

  /** Each post's attempt, as one function. */
  function Outcomes(svc: Services): CafePost -> Result<(), string> {
    p => Attempt(p, svc)
  }

  /** The digest entry for a failed post: its id, at most 40 characters of
      its title, and the exception message. */
  function ErrorEntry(post: CafePost, exc: string): (r: string)
    ensures var d := IntToDecimal(post.id); var t := Take(post.title, 40);
      && |r| == 10 + |d| + |t| + |exc|
      && r[..5] == "Post " && r[5..5 + |d|] == d && r[5 + |d|..7 + |d|] == " ("
      && r[7 + |d|..7 + |d| + |t|] == t && r[7 + |d| + |t|..10 + |d| + |t|] == "): "
      && r[10 + |d| + |t|..] == exc
  {
    var d := IntToDecimal(post.id);
    var t := Take(post.title, 40);
    Spliced("Post ", d, " (", t, "): ", exc);
    "Post " + d + " (" + t + "): " + exc
  }

  // ---------------------------------------------------------------------
  // The loop over the posts
  // ---------------------------------------------------------------------

  function Max(a: int, b: int): int {
    if a >= b then a else b
  }

  /** The watermark after the ids: the largest of them and the old one. */
  function MaxId(lastId: int, ids: seq<int>): (m: int)
    ensures m >= lastId && forall k | 0 <= k < |ids| :: m >= ids[k]
    ensures m == lastId || m in ids
  {
    if ids == [] then lastId
    else
      var init := ids[..|ids| - 1];
      assert forall k | 0 <= k < |init| :: init[k] == ids[k];
      Max(MaxId(lastId, init), ids[|ids| - 1])
  }

  /** The digest entries of the posts, one per failed attempt, in order. */
  function Failures(posts: seq<CafePost>, outcome: CafePost -> Result<(), string>): (r: seq<string>)
    ensures |r| <= |posts|
  {
    if posts == [] then []
    else
      var init := posts[..|posts| - 1];
      var p := posts[|posts| - 1];
      assert forall k | 0 <= k < |init| :: init[k] == posts[k];
      Failures(init, outcome) + (if outcome(p).Err? then [ErrorEntry(p, outcome(p).error)] else [])
  }

  /** The embeds of the posts whose summary was obtained, in order: each was
      handed to the webhook, whatever came back. */
  function Deliveries(posts: seq<CafePost>, svc: Services): (r: seq<Notifier.Embed>)
    ensures |r| <= |posts|
    ensures forall j | 0 <= j < |r| :: r[j].color == Notifier.NaverGreen
  {
    if posts == [] then []
    else
      var init := posts[..|posts| - 1];
      var p := posts[|posts| - 1];
      var s := SummaryOf(p, svc);
      Deliveries(init, svc) + (if s.Ok? then [Notifier.PostEmbed(p, s.value)] else [])
  }

  /** The `try` body for one post: summarise it, then hand its embed to the
      webhook; the embeds handed over, and how the attempt ended. */
  method ProcessPost(post: CafePost, svc: Services) returns (outcome: Result<(), string>, embeds: seq<Notifier.Embed>)
    ensures outcome == Attempt(post, svc)
    ensures embeds == if SummaryOf(post, svc).Ok? then [Notifier.PostEmbed(post, SummaryOf(post, svc).value)] else []
  {
    var summary := SummaryOf(post, svc);
    if summary.Err? {
      return Err(summary.error), [];
    }
    var embed := Notifier.PostEmbed(post, summary.value);
    embeds := [embed];
    outcome := Delivered(svc, embed);
  }

  /** The loop of `main` over the posts. */
  method ProcessPosts(posts: seq<CafePost>, lastId: int, svc: Services)
    returns (maxProcessedId: int, errors: seq<string>, sent: seq<Notifier.Embed>)
    ensures maxProcessedId == MaxId(lastId, Ids(posts))
    ensures errors == Failures(posts, Outcomes(svc))
    ensures sent == Deliveries(posts, svc)
  {
    maxProcessedId := lastId;
    errors := [];
    sent := [];
    var i := 0;
    while i < |posts|
      invariant 0 <= i <= |posts|
      invariant maxProcessedId == MaxId(lastId, Ids(posts[..i]))
      invariant errors == Failures(posts[..i], Outcomes(svc))
      invariant sent == Deliveries(posts[..i], svc)
    {
      var post := posts[i];
      LoopStep(posts, i, lastId, svc);
      var outcome, embeds := ProcessPost(post, svc);
      sent := sent + embeds;
      if outcome.Ok? {
        if post.id > maxProcessedId {
          maxProcessedId := post.id;
        }
      } else {
        errors := errors + [ErrorEntry(post, outcome.error)];
        if post.id > maxProcessedId {
          maxProcessedId := post.id;
        }
      }
      i := i + 1;
    }
    assert posts[..i] == posts;
  }

  /** How one more post extends the watermark, the entries and the embeds. */
  lemma LoopStep(posts: seq<CafePost>, i: nat, lastId: int, svc: Services)
    requires i < |posts|
    ensures var pre := posts[..i]; var next := posts[..i + 1]; var p := posts[i];
      && MaxId(lastId, Ids(next)) == Max(MaxId(lastId, Ids(pre)), p.id)
      && Failures(next, Outcomes(svc)) == Failures(pre, Outcomes(svc))
           + (if Attempt(p, svc).Err? then [ErrorEntry(p, Attempt(p, svc).error)] else [])
      && Deliveries(next, svc) == Deliveries(pre, svc)
           + (if SummaryOf(p, svc).Ok? then [Notifier.PostEmbed(p, SummaryOf(p, svc).value)] else [])
  {
    var pre := posts[..i];
    var next := posts[..i + 1];
    assert next[..i] == pre;
    assert Ids(next)[..i] == Ids(pre);
  }

  /** No entry is recorded exactly when every attempt went through. */
  lemma {:induction false} FailuresEmptyIff(posts: seq<CafePost>, outcome: CafePost -> Result<(), string>)
    ensures Failures(posts, outcome) == [] <==> forall k | 0 <= k < |posts| :: outcome(posts[k]).Ok?
  {
    if posts != [] {
      var init := posts[..|posts| - 1];
      FailuresEmptyIff(init, outcome);
      assert forall k | 0 <= k < |init| :: init[k] == posts[k];
    }
  }

  /** The entries follow the posts: the entries of a list are those of its
      parts, in order. */
  lemma {:induction false} FailuresAppend(a: seq<CafePost>, b: seq<CafePost>, outcome: CafePost -> Result<(), string>)
    ensures Failures(a + b, outcome) == Failures(a, outcome) + Failures(b, outcome)
  {
    if b != [] {
      var b' := b[..|b| - 1];
      assert (a + b)[..|a + b| - 1] == a + b';
      assert (a + b)[|a + b| - 1] == b[|b| - 1];
      FailuresAppend(a, b', outcome);
    } else {
      assert a + b == a;
    }
  }

  /** A single post has one entry exactly when its attempt raised. */
  lemma FailuresOne(p: CafePost, outcome: CafePost -> Result<(), string>)
    ensures Failures([p], outcome) == if outcome(p).Err? then [ErrorEntry(p, outcome(p).error)] else []
  {
    assert [p][..0] == [];
  }

  /** The embeds follow the posts: the embeds of a list are those of its
      parts, in order. */
  lemma {:induction false} DeliveriesAppend(a: seq<CafePost>, b: seq<CafePost>, svc: Services)
    ensures Deliveries(a + b, svc) == Deliveries(a, svc) + Deliveries(b, svc)
  {
    if b != [] {
      var b' := b[..|b| - 1];
      assert (a + b)[..|a + b| - 1] == a + b';
      assert (a + b)[|a + b| - 1] == b[|b| - 1];
      DeliveriesAppend(a, b', svc);
    } else {
      assert a + b == a;
    }
  }

  /** A single post is sent as its own embed exactly when its summary was
      obtained. */
  lemma DeliveriesOne(p: CafePost, svc: Services)
    ensures Deliveries([p], svc) ==
      if SummaryOf(p, svc).Ok? then [Notifier.PostEmbed(p, SummaryOf(p, svc).value)] else []
  {
    assert [p][..0] == [];
  }

  /** Over ids that are strictly ascending and above the watermark, the new
      watermark is the last id. */
  lemma {:induction false} MaxIdAscending(lastId: int, ids: seq<int>)
    requires ids != [] && StrictlyAscending(ids)
    requires forall k | 0 <= k < |ids| :: ids[k] > lastId
    ensures MaxId(lastId, ids) == ids[|ids| - 1]
  {
  }

  // ---------------------------------------------------------------------
  // A run
  // ---------------------------------------------------------------------

  const LoginFailed: string := "네이버 로그인 실패:\n"
  const ClubIdFailed: string := "카페 ID 자동 감지 실패:\n"
  const DigestHead: string := "일부 게시글 처리 중 오류 발생:\n"

  /** What a run leaves behind: the watermark written (if any), the embeds
      handed to the webhook in order, and the exit status. */
  datatype Outcome = Outcome(saved: Option<int>, sent: seq<Notifier.Embed>, exitCode: int)

  /** The error digest sent after the loop. */
  function Digest(errors: seq<string>): (r: string)
    requires |errors| >= 1
    ensures |r| >= |DigestHead| && r[..|DigestHead|] == DigestHead
    ensures (forall k | 0 <= k < |errors| :: '\n' !in errors[k]) ==> Split(r[|DigestHead|..], '\n') == errors
  {
    var r := DigestHead + Join(errors, '\n');
    assert r[|DigestHead|..] == Join(errors, '\n');
    if forall k | 0 <= k < |errors| :: '\n' !in errors[k] then
      SplitJoin(errors, '\n');
      r
    else r
  }

  /** What the loop over a non-empty list of posts leaves behind: the
      watermark when it moved, the posts' embeds and then the digest when
      some post failed. */
  function Processed(posts: seq<CafePost>, lastId: int, svc: Services): Outcome {
    Reported(lastId, MaxId(lastId, Ids(posts)), Failures(posts, Outcomes(svc)), Deliveries(posts, svc))
  }

  /** The end of the loop: the new watermark when it moved past the old one,
      and the embeds sent, followed by the digest when there are errors. */
  function Reported(lastId: int, maxId: int, errors: seq<string>, sent: seq<Notifier.Embed>): Outcome {
    Outcome(
      if maxId > lastId then Some(maxId) else None,
      sent + (if errors != [] then [Notifier.ErrorEmbed(Digest(errors))] else []),
      0)
  }

  /** The rest of `main` once the scraper has returned or raised. */
  function Finish(scraped: Result<seq<CafePost>, ScrapeError>, lastId: int, svc: Services): Outcome {
    match scraped
    case Err(NaverLoginError(m)) => Outcome(None, [Notifier.ErrorEmbed(LoginFailed + m)], 1)
    case Err(ClubIdResolutionError(m)) => Outcome(None, [Notifier.ErrorEmbed(ClubIdFailed + m)], 1)
    case Ok(posts) =>
      if posts == [] then Outcome(None, [Notifier.NoPostsEmbed()], 0)
      else Processed(posts, lastId, svc)
  }

  /** The posts a run with a configuration works on. */
  function PostsOf(config: map<string, string>, state: StateFile, naver: Naver): Result<seq<CafePost>, ScrapeError>
    requires "NAVER_COOKIES" in config && "CAFE_URL_NAME" in config && "CAFE_BOARD_ID" in config
  {
    NewPostsOf(config["NAVER_COOKIES"], config["CAFE_URL_NAME"], config["CAFE_BOARD_ID"],
               LastProcessedId(state), DefaultMaxPosts, naver)
  }

  /** `main`. */
  function RunOf(env: Env, state: StateFile, naver: Naver, svc: Services): Outcome {
    match Configured(env)
    case Err(_) => Outcome(None, [], 1)
    case Ok(config) => Finish(PostsOf(config, state, naver), LastProcessedId(state), svc)
  }

  method FinishRun(scraped: Result<seq<CafePost>, ScrapeError>, lastId: int, svc: Services) returns (out: Outcome)
    ensures out == Finish(scraped, lastId, svc)
  {
    if scraped.Err? {
      match scraped.error
      case NaverLoginError(m) =>
        return Outcome(None, [Notifier.ErrorEmbed(LoginFailed + m)], 1);
      case ClubIdResolutionError(m) =>
        return Outcome(None, [Notifier.ErrorEmbed(ClubIdFailed + m)], 1);
    }
    var posts := scraped.value;
    if posts == [] {
      return Outcome(None, [Notifier.NoPostsEmbed()], 0);
    }
    var maxProcessedId, errors, sent := ProcessPosts(posts, lastId, svc);
    out := Report(lastId, maxProcessedId, errors, sent);
  }

  /** After the loop: save the watermark when it moved, then send the digest
      when some post failed. */
  method Report(lastId: int, maxProcessedId: int, errors: seq<string>, sent: seq<Notifier.Embed>) returns (out: Outcome)
    ensures out == Reported(lastId, maxProcessedId, errors, sent)
  {
    var saved: Option<int> := None;
    if maxProcessedId > lastId {
      saved := Some(maxProcessedId);
    }
    var all := sent;
    if errors != [] {
      all := all + [Notifier.ErrorEmbed(Digest(errors))];
    }
    out := Outcome(saved, all, 0);
  }

  method Run(env: Env, state: StateFile, naver: Naver, svc: Services) returns (out: Outcome)
    ensures out == RunOf(env, state, naver, svc)
  {
    var config := LoadConfig(env);
    if config.Err? {
      return Outcome(None, [], 1);
    }
    var c := config.value;
    var lastId := LastProcessedId(state);
    var scraped := GetNewPosts(c["NAVER_COOKIES"], c["CAFE_URL_NAME"], c["CAFE_BOARD_ID"],
                               lastId, DefaultMaxPosts, naver);
    out := FinishRun(scraped, lastId, svc);
  }

  /** After the scraper, given ids that are strictly ascending and above the
      watermark: the watermark is written exactly when there are posts, it is
      then larger than before and equal to the newest post's id. */
  lemma FinishWatermark(scraped: Result<seq<CafePost>, ScrapeError>, lastId: int, svc: Services)
    requires scraped.Ok? ==> StrictlyAscending(Ids(scraped.value))
    requires scraped.Ok? ==> forall k | 0 <= k < |scraped.value| :: scraped.value[k].id > lastId
    ensures var out := Finish(scraped, lastId, svc);
      && (out.saved.Some? <==> scraped.Ok? && scraped.value != [])
      && (out.saved.Some? ==> (out.saved.value > lastId && out.saved.value == scraped.value[|scraped.value| - 1].id))
  {
    if scraped.Ok? && scraped.value != [] {
      MaxIdAscending(lastId, Ids(scraped.value));
    }
  }

  /** The stored watermark only moves forward; it is written exactly when the
      run got posts, and then it is the id of the newest of them, whether its
      summary and message went through or not. */
  lemma RunWatermark(env: Env, state: StateFile, naver: Naver, svc: Services)
    ensures var out := RunOf(env, state, naver, svc);
      && (out.saved.Some? ==> out.saved.value > LastProcessedId(state))
      && (out.saved.Some? <==> Configured(env).Ok? && PostsOf(Configured(env).value, state, naver).Ok?
                                && PostsOf(Configured(env).value, state, naver).value != [])
  {
    if Configured(env).Ok? {
      var config := Configured(env).value;
      var lastId := LastProcessedId(state);
      var r := PostsOf(config, state, naver);
      if r.Ok? {
        NewPostsOk(config["NAVER_COOKIES"], config["CAFE_URL_NAME"], config["CAFE_BOARD_ID"],
                   lastId, DefaultMaxPosts, naver);
      }
      FinishWatermark(r, lastId, svc);
    }
  }

  /** With no posts only the notice is sent; nothing is saved and the run
      succeeds. */
  lemma FinishNoPosts(lastId: int, svc: Services)
    ensures Finish(Ok([]), lastId, svc) == Outcome(None, [Notifier.NoPostsEmbed()], 0)
  {
  }

  /** With posts the run exits normally and sends an error embed (the
      digest, the only red one) exactly when some post failed, after the
      embeds of the posts whose summary was obtained. */
  lemma FinishDigest(posts: seq<CafePost>, lastId: int, svc: Services)
    requires posts != []
    ensures var out := Finish(Ok(posts), lastId, svc);
      && out.exitCode == 0
      && out.sent[..|Deliveries(posts, svc)|] == Deliveries(posts, svc)
      && ((exists j | 0 <= j < |out.sent| :: out.sent[j].color == Notifier.Red)
          <==> exists k | 0 <= k < |posts| :: Outcomes(svc)(posts[k]).Err?)
  {
    ReportedDigest(posts, lastId, MaxId(lastId, Ids(posts)), Outcomes(svc), Deliveries(posts, svc));
  }

  /** `FinishDigest` for any outcome of the attempts. */
  lemma ReportedDigest(posts: seq<CafePost>, lastId: int, maxId: int, outcome: CafePost -> Result<(), string>, d: seq<Notifier.Embed>)
    requires forall j | 0 <= j < |d| :: d[j].color == Notifier.NaverGreen
    ensures var out := Reported(lastId, maxId, Failures(posts, outcome), d);
      && out.exitCode == 0
      && out.sent[..|d|] == d
      && ((exists j | 0 <= j < |out.sent| :: out.sent[j].color == Notifier.Red)
          <==> exists k | 0 <= k < |posts| :: outcome(posts[k]).Err?)
  {
    FailuresEmptyIff(posts, outcome);
    OnlyDigestRed(d, Failures(posts, outcome));
  }

  /** Green embeds followed by the digest, when there is one: the digest is
      the only red embed. */
  lemma OnlyDigestRed(d: seq<Notifier.Embed>, errors: seq<string>)
    requires forall j | 0 <= j < |d| :: d[j].color == Notifier.NaverGreen
    ensures var sent := d + (if errors != [] then [Notifier.ErrorEmbed(Digest(errors))] else []);
      && sent[..|d|] == d
      && ((exists j | 0 <= j < |sent| :: sent[j].color == Notifier.Red) <==> errors != [])
  {
    var sent := d + (if errors != [] then [Notifier.ErrorEmbed(Digest(errors))] else []);
    assert sent[..|d|] == d;
    if errors != [] {
      assert sent[|d|].color == Notifier.Red;
    } else {
      forall j | 0 <= j < |sent| ensures sent[j].color != Notifier.Red {
        assert sent[j] == d[j];
      }
    }
  }

  /** A scraper error is reported with its message and ends the run with
      status 1; nothing is saved. */
  lemma FinishScrapeError(e: ScrapeError, lastId: int, svc: Services)
    ensures var out := Finish(Err(e), lastId, svc);
      && out.saved.None? && out.exitCode == 1
      && out.sent == [Notifier.ErrorEmbed((if e.NaverLoginError? then LoginFailed else ClubIdFailed) + e.message)]
  {
  }

  /** A bad configuration ends the run before anything is sent or saved. */
  lemma RunConfigError(env: Env, state: StateFile, naver: Naver, svc: Services)
    requires Configured(env).Err?
    ensures RunOf(env, state, naver, svc) == Outcome(None, [], 1)
  {
  }

  /** An article the board lists but whose page yields no record never
      reaches the loop: when it is the newest id selected, the watermark
      stays below it, so the next run selects it again. */
  lemma {:induction false} NewestUnreadableRetried(cafe: string, board: BoardPage, lastId: int, maxPosts: int, site: Site, x: int)
    requires var sel := SelectNew(HarvestIds(board.Target(), cafe), lastId, maxPosts);
      x in sel && (forall k | 0 <= k < |sel| :: sel[k] <= x)
    requires Fetch(cafe, site, x).None?
    ensures MaxId(lastId, Ids(NewPosts(cafe, board, lastId, maxPosts, site))) < x
  {
    var sel := SelectNew(HarvestIds(board.Target(), cafe), lastId, maxPosts);
    UnreadableBelow(cafe, sel, lastId, site, x);
  }

  /** The same over any selection above the watermark whose largest id
      yields no record. */
  lemma UnreadableBelow(cafe: string, sel: seq<int>, lastId: int, site: Site, x: int)
    requires x in sel && (forall k | 0 <= k < |sel| :: sel[k] <= x)
    requires forall y | y in sel :: y > lastId
    requires Fetch(cafe, site, x).None?
    ensures MaxId(lastId, Ids(FetchedPosts(cafe, sel, site))) < x
  {
    var ids := Ids(FetchedPosts(cafe, sel, site));
    FetchedPostsIds(cafe, sel, site);
    assert !Succeeds(cafe, site)(x);
    FilterBelow(sel, Succeeds(cafe, site), x);
    MaxIdBelow(lastId, ids, x);
  }

  lemma FilterBelow(sel: seq<int>, keep: int -> bool, x: int)
    requires x in sel && (forall k | 0 <= k < |sel| :: sel[k] <= x) && !keep(x)
    ensures forall y | y in Filter(sel, keep) :: y < x
  {
    forall y | y in Filter(sel, keep) ensures y < x {
      var k :| 0 <= k < |sel| && sel[k] == y;
    }
  }

  lemma MaxIdBelow(lastId: int, ids: seq<int>, x: int)
    requires lastId < x && forall y | y in ids :: y < x
    ensures MaxId(lastId, ids) < x
  {
  }
}
