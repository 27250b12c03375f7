/**
 * `AISummarizer.summarize` in src/summarizer.py: the request sent to the
 * language model for one post and the summary taken from its reply. The
 * call itself is outside the model; its reply is a parameter.
 */
module Summarizer {
  import opened Wrappers
  import opened Text
  import opened Posts

  const DefaultModel: string := "claude-sonnet-4-6"
  const MaxContentChars: nat := 8000
  const MaxTokens: nat := 1024

  const OmissionMarker: string := "\n\n[... 내용이 길어 일부 생략됨]"

  const NoTitle: string := "(제목 없음)"
  const Unknown: string := "알 수 없음"
  const NoContent: string := "(내용 없음)"

  const SystemPrompt: string :=
    "당신은 회의록 및 커뮤니티 게시글 요약 전문가입니다.\n주어진 게시글을 분석하여 핵심 정보만을 추출하고, 명확한 구조로 정리합니다.\n"

  /** The text of the user prompt around its four placeholders. */
  const PromptHead: string := "다음 네이버 카페 게시글을 분석하여 핵심 내용을 요약해주세요.\n\n---\n제목: "
  const AuthorLabel: string := "\n작성자: "
  const DateLabel: string := "\n작성일: "
  const ContentLabel: string := "\n\n본문:\n"
  const PromptTail: string :=
    "\n---\n\n아래 형식에 맞춰 요약해주세요. 각 섹션에 해당하는 내용이 없으면 \"해당 없음\"으로 표시하세요.\n\n"
    + "**📋 핵심 주제**\n- (이 게시글에서 주요하게 다루는 주제나 논의 사항)\n\n"
    + "**✅ 결정된 사항**\n- (논의 결과 확정된 내용, 합의된 사항)\n\n"
    + "**📌 향후 행동 지침 (Action Items)**\n- (앞으로 해야 할 일, 담당자 및 마감일이 있으면 함께 표기)\n\n"
    + "규칙:\n- 불렛 포인트 형식 사용 (하이픈 `-` 사용)\n- 인사말, 서론, 결론 등 불필요한 서술 제외\n"
    + "- 핵심 내용만 간결하게 작성\n- 한국어로 작성\n"

  /** The body sent for a post: at most 8000 characters of it, with the
      omission marker after a cut. */
  function TruncatedContent(content: string): (r: string)
    ensures |content| <= MaxContentChars ==> r == content
    ensures |content| > MaxContentChars ==>
      |r| == MaxContentChars + |OmissionMarker|
      && r[..MaxContentChars] == content[..MaxContentChars]
      && r[MaxContentChars..] == OmissionMarker
    ensures r == "" <==> content == ""
  {
    if |content| > MaxContentChars then content[..MaxContentChars] + OmissionMarker else content
  }

  datatype PromptArgs = PromptArgs(title: string, author: string, date: string, content: string)

  /** The values substituted into the template, with `or` defaults. */
  function PromptArgsOf(post: CafePost): (a: PromptArgs)
    ensures a.title == (if post.title != "" then post.title else NoTitle)
    ensures a.author == (if post.author != "" then post.author else Unknown)
    ensures a.date == (if post.date != "" then post.date else Unknown)
    ensures a.content == (if post.content != "" then TruncatedContent(post.content) else NoContent)
    ensures a.title != "" && a.author != "" && a.date != "" && a.content != ""
  {
    PromptArgs(Or(post.title, NoTitle), Or(post.author, Unknown), Or(post.date, Unknown),
               Or(TruncatedContent(post.content), NoContent))
  }

  /** `USER_PROMPT_TEMPLATE.format(...)`. */
  function UserPrompt(a: PromptArgs): (r: string)
    ensures |r| == |PromptHead| + |a.title| + |AuthorLabel| + |a.author| + |DateLabel| + |a.date|
                   + |ContentLabel| + |a.content| + |PromptTail|
    ensures r[..|PromptHead|] == PromptHead && r[|r| - |PromptTail|..] == PromptTail
  {
    Enclosed(PromptHead, PromptFields(a), PromptTail)
  }

  /** The filled-in part of the template between its head and its tail. */
  function PromptFields(a: PromptArgs): (r: string)
    ensures |r| == |a.title| + |AuthorLabel| + |a.author| + |DateLabel| + |a.date| + |ContentLabel| + |a.content|
  {
    a.title + AuthorLabel + a.author + DateLabel + a.date + ContentLabel + a.content
  }

  /** `head`, then `middle`, then `tail`. */
  function Enclosed(head: string, middle: string, tail: string): (r: string)
    ensures |r| == |head| + |middle| + |tail|
    ensures r[..|head|] == head && r[|r| - |tail|..] == tail
  {
    head + middle + tail
  }

  /** One `messages.create` call: model, token cap, system prompt and the
      values filled into the template; the single user message it carries is
      `UserPrompt(args)`. */
  datatype Request = Request(model: string, maxTokens: nat, system: string, args: PromptArgs)

  /** The request `summarize` makes for a post: the default model and token
      cap, the fixed system prompt, and the post's prompt values. */
  function SummaryRequest(post: CafePost): (q: Request)
    ensures q.model == DefaultModel && q.maxTokens == MaxTokens && q.system == SystemPrompt
    ensures q.args.title != "" && q.args.author != "" && q.args.date != "" && q.args.content != ""
    ensures post.title != "" ==> q.args.title == post.title
    ensures |post.content| <= MaxContentChars && post.content != "" ==> q.args.content == post.content
  {
    Request(DefaultModel, MaxTokens, SystemPrompt, PromptArgsOf(post))
  }

  /** `summarize`: `reply` is the text blocks of the response, or the
      message of the exception the client raised. The first block, stripped,
      is the summary; a reply without blocks fails at `content[0]`. */
  function Summarize(reply: Result<seq<string>, string>): (r: Result<string, string>)
    ensures r.Ok? <==> reply.Ok? && |reply.value| >= 1
    ensures r.Ok? ==> r.value == Strip(reply.value[0]) && IsStripped(r.value)
    ensures reply.Err? ==> r == Err(reply.error)
  {
    match reply
    case Err(e) => Err(e)
    case Ok(blocks) => if |blocks| == 0 then Err("list index out of range") else Ok(Strip(blocks[0]))
  }

  /** A summary is already stripped: stripping it again changes nothing. */
  lemma SummaryStable(reply: Result<seq<string>, string>)
    requires Summarize(reply).Ok?
    ensures Strip(Summarize(reply).value) == Summarize(reply).value
  {
    StripIdempotent(reply.value[0]);
  }

  /** The placeholder for the body is used exactly when the post has none:
      a cut body is never empty and never the placeholder. */
  lemma ContentPlaceholderIff(post: CafePost)
    ensures PromptArgsOf(post).content == NoContent <==> post.content == "" || post.content == NoContent
  {
    if |post.content| > MaxContentChars {
      var t := TruncatedContent(post.content);
      assert |t| != |NoContent|;
    }
  }
}
