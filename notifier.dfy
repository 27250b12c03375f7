/**
 * `DiscordNotifier` in src/notifier.py: the embeds sent to the Discord
 * webhook and the rule that decides whether a webhook call succeeded. The
 * HTTP request is outside the model: its status code and body are inputs.
 */
module Notifier {
  import opened Wrappers
  import opened Text
  import opened Posts

  const DescriptionLimit: nat := 4096
  const NaverGreen: nat := 0x03C75A
  const Red: nat := 0xFF0000
  const Grey: nat := 0xAAAAAA

  const Username: string := "MimiEcho"
  const SummaryCut: string := "\n\n*(내용 일부 생략)*"
  const TitlePrefix: string := "📝 "
  const NoTitle: string := "(제목 없음)"
  const Unknown: string := "알 수 없음"
  const FooterText: string := "MimiEcho • 네이버 카페 자동 요약봇"
  const FooterIcon: string := "https://ssl.pstatic.net/static/cafe/cafe_pc/favicon/favicon.ico"

  datatype Field = Field(name: string, value: string, inline: bool)
  datatype Footer = Footer(text: string, iconUrl: Option<string>)

  /** One embed; the `timestamp` (the current time) is not modelled. */
  datatype Embed = Embed(
    title: string, url: Option<string>, color: nat, description: string,
    fields: seq<Field>, footer: Footer)

  datatype Payload = Payload(username: string, content: string, embeds: seq<Embed>)

  /** The embed description for a summary: unchanged up to the limit, else
      its first 4076 characters and the cut marker. */
  function Description(summary: string): (r: string)
    ensures |r| <= DescriptionLimit
    ensures |summary| <= DescriptionLimit ==> r == summary
    ensures |summary| > DescriptionLimit ==>
      |r| == DescriptionLimit - 6 && r[..DescriptionLimit - 20] == summary[..DescriptionLimit - 20]
      && r[DescriptionLimit - 20..] == SummaryCut
  {
    if |summary| > DescriptionLimit then summary[..DescriptionLimit - 20] + SummaryCut else summary
  }

  /** The post title after the memo emoji, or the no-title placeholder. */
  function EmbedTitle(title: string): (r: string)
    ensures |r| > |TitlePrefix| && r[..|TitlePrefix|] == TitlePrefix
    ensures r[|TitlePrefix|..] == (if title != "" then title else NoTitle)
  {
    TitlePrefix + Or(title, NoTitle)
  }

  /** The Markdown link the third field carries: the label, then the URL in
      parentheses. */
  function LinkMarkdown(url: string): (r: string)
    ensures |r| == |url| + 12 && r[..11] == "[게시글 바로가기](" && r[11..|r| - 1] == url && r[|r| - 1] == ')'
  {
    "[게시글 바로가기](" + url + ")"
  }

  /** The embed `send` posts for one summarised post. */
  function PostEmbed(post: CafePost, summary: string): (e: Embed)
    ensures e.url == Some(post.url) && e.color == NaverGreen
    ensures e.title == EmbedTitle(post.title) && e.description == Description(summary)
    ensures |e.description| <= DescriptionLimit
    ensures post.title != "" ==> e.title == TitlePrefix + post.title
    ensures |e.fields| == 3 && e.fields[0].inline && e.fields[1].inline && !e.fields[2].inline
    ensures e.fields[0].value == (if post.author != "" then post.author else Unknown)
    ensures e.fields[1].value == (if post.date != "" then post.date else Unknown)
    ensures e.fields[2].value == LinkMarkdown(post.url)
  {
    Embed(
      EmbedTitle(post.title),
      Some(post.url),
      NaverGreen,
      Description(summary),
      [ Field("✍️ 작성자", Or(post.author, Unknown), true),
        Field("📅 작성일", Or(post.date, Unknown), true),
        Field("🔗 원문 링크", LinkMarkdown(post.url), false) ],
      Footer(FooterText, Some(FooterIcon)))
  }

  /** `send_error`'s description: at most 4086 characters of the message
      inside a code fence. */
  function ErrorDescription(message: string): (r: string)
    ensures |r| <= DescriptionLimit - 2
    ensures |r| >= 8 && r[..4] == "```\n" && r[|r| - 4..] == "\n```"
    ensures r[4..|r| - 4] <= message
    ensures |message| <= DescriptionLimit - 10 ==> r[4..|r| - 4] == message
    ensures |message| > DescriptionLimit - 10 ==> |r[4..|r| - 4]| == DescriptionLimit - 10
  {
    "```\n" + Take(message, DescriptionLimit - 10) + "\n```"
  }

  function ErrorEmbed(message: string): (e: Embed)
    ensures e.description == ErrorDescription(message)
    ensures |e.description| <= DescriptionLimit && e.color == Red && e.fields == [] && e.url.None?
    ensures e.footer == Footer(Username, None)
  {
    Embed("❌ MimiEcho 오류 발생", None, Red, ErrorDescription(message), [], Footer(Username, None))
  }

  /** `send_no_posts_notice`'s embed: grey, so neither a post nor an error. */
  function NoPostsEmbed(): (e: Embed)
    ensures e.color == Grey && e.color != NaverGreen && e.color != Red
    ensures e.fields == [] && e.url.None? && e.footer == Footer(Username, None)
  {
    Embed("ℹ️ 새로운 게시글 없음", None, Grey, "이번 주기에 새로운 게시글이 없습니다.", [], Footer(Username, None))
  }

  /** Every message goes out as the bot user, with empty content and one embed. */
  function PayloadOf(e: Embed): (p: Payload)
    ensures p.username == Username && p.content == "" && p.embeds == [e]
  {
    Payload(Username, "", [e])
  }

  /** `_post_webhook`'s verdict on the response: success for 200 and 204,
      otherwise the `RuntimeError` message with the status and body. */
  function WebhookOutcome(status: int, body: string): (r: Result<(), string>)
    ensures r.Ok? <==> status == 200 || status == 204
    ensures r.Err? ==> r.error == "Discord webhook returned " + IntToDecimal(status) + ": " + body
  {
    if status == 200 || status == 204 then Ok(())
    else Err("Discord webhook returned " + IntToDecimal(status) + ": " + body)
  }

  /** The status code can be read back from a failure message. */
  lemma WebhookErrorNamesStatus(status: int, body: string)
    requires status != 200 && status != 204
    ensures var msg := WebhookOutcome(status, body).error;
      var d := IntToDecimal(status);
      msg[25..25 + |d|] == d && ParseInt(msg[25..25 + |d|]) == Some(status)
  {
    var d := IntToDecimal(status);
    var msg := "Discord webhook returned " + d + ": " + body;
    assert |"Discord webhook returned "| == 25;
    assert msg[25..25 + |d|] == d;
    ParseIntToDecimal(status);
  }
}
