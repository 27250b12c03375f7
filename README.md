# MimiEcho in Dafny

MimiEcho is a scheduled batch job. One run does the following:

- it reads the id of the last article it handled from `last_processed_id.txt`;
- it opens a Naver Cafe board in a headless browser and collects the article ids newer than that watermark;
- it fetches each of those articles;
- it summarises each article with a language model;
- it posts each summary to a Discord webhook as an embed;
- it saves the new watermark and reports the posts that failed in one error digest.

This project models the deterministic rules under the browser, HTTP and model calls, and proves what they promise:

- how the next watermark is read and written (`Runner`);
- how the configuration is validated (`Runner`);
- how the session cookies are parsed (`Cookies`);
- how the numeric club id is resolved (`ClubId`);
- how article ids are harvested from link `href`s (`Listing`, over the regular expressions of `Patterns`);
- how ids are selected and capped (`Selection`);
- how a post's fields are extracted by ordered selector fallback (`Extraction`);
- the request sent to the model and the summary taken from its reply (`Summarizer`);
- the embeds and the webhook verdict (`Notifier`);
- one whole run of `main` (`Runner`, over the browser session of `Session`).

`Text` gives the Python `str` operations the code relies on: `strip`, `split`, `partition`, `[:n]`, `str(int)` and `int(str)`. `Wrappers` holds `Option` and `Result`, which stand for `None` and for raised exceptions.

The outside world is an input to the model:

- what each Naver page renders: a map from CSS selector to the element's texts, and a list of link `href`s. The outcome of the login form and of each navigation is an input too.
- the contents of the state file, and the environment as a map.
- the model's reply to each request, and the webhook's response to each payload.

The loops of the source appear as methods with loop invariants, each proved equal to a function that specifies it:

- the article-id scan;
- the fetch loop;
- the cookie loop;
- the selector fallback;
- the club-id strategies;
- the configuration loop;
- the per-post loop of `main`.

Three behaviours of the code are worth stating outright:

- **Listing.** The scan tries the modern pattern only when the legacy one did not match: the `continue` at src/scraper.py:417-420 skips it. `Listing.LinkArticleId` and `Listing.LegacyTakesPrecedence` state this.
- **Unreadable posts.** `_fetch_post` returns `None` for an article whose page yields no record, so its id never reaches `main` and does not advance the watermark. `Runner.NewestUnreadableRetried` proves the consequence: when the newest selected id is unreadable, the saved watermark stays below it, so the next run selects it again.
- **Notice and digest failures.** Only the per-post `send` is inside the loop's `try`. A failing no-posts notice or digest `send_error` reaches `except Exception` (main.py:172-176) and ends the run with status 1. This path is not modelled; see "Left out".

## Model

| member | source | states |
|---|---|---|
| Text.Strip | src/scraper.py:480 | `strip()` returns a string with no whitespace (Python's `isspace` set) at either end, no longer than its input |
| Text.StripSlice | src/scraper.py:480 | `strip()` removes exactly the surrounding whitespace: the result is a slice `s[i:j]` with only whitespace before `i` and from `j` on |
| Text.StripEndStart | src/scraper.py:206 | `strip()` equals `lstrip()` followed by `rstrip()` |
| Text.StripIdempotent | src/summarizer.py:98 | stripping twice gives the same string as stripping once |
| Text.StripEmptyIff | src/scraper.py:480-481 | `strip()` yields "" exactly when the string is all whitespace |
| Text.StripKeeps | src/scraper.py:206-207 | a non-space character (such as `=`) occurs after `strip()` exactly when it occurred before |
| Text.Split | src/scraper.py:205 | `split(";")` gives at least one piece and no piece contains the separator |
| Text.JoinHas | src/scraper.py:205-207 | a non-separator character occurs in the joined pieces exactly when it occurs in one of them |
| Text.JoinSplit | src/scraper.py:205 | joining the pieces of `split` with the separator gives back the original string |
| Text.SplitJoin | src/scraper.py:205 | splitting a join of separator-free pieces gives back exactly those pieces |
| Text.Partition | src/scraper.py:208 | `partition("=")` gives a head without `=` such that head + `=` + tail is the input |
| Text.PartitionFirst | src/scraper.py:208 | `partition` splits at the first `=` and nowhere else |
| Text.Or | src/summarizer.py:85-88 | `s or d` is one of its two operands, is "" only when both are, and is `s` whenever `s` is non-empty |
| Text.Take | main.py:149 | `s[:n]` has at most `n` characters, is a prefix of `s`, is all of `s` when it fits, and has exactly `n` characters otherwise |
| Text.NatToDecimal | main.py:58 | `str(n)` is a non-empty run of digits whose value is `n`, with no leading zero |
| Text.DropUnderscores | main.py:49 | dropping `int()`'s digit-group underscores leaves only digits |
| Text.DropUnderscoresAppend | main.py:49 | dropping underscores distributes over concatenation |
| Text.DropUnderscoresOne | main.py:49 | a single underscore is dropped and a single digit is kept |
| Text.ParseInt | main.py:49 | `int()` succeeds only on a non-empty string |
| Text.ParseIntRejects | main.py:49-52 | `int()` rejects every string holding a character other than a digit, an underscore or one leading sign |
| Text.ParseDigits | main.py:49 | `int()` reads a plain run of digits as its decimal value |
| Text.ParseNegative | main.py:49 | `int()` reads `-` followed by digits as the negated value |
| Text.IntToDecimal | main.py:58 | `str(i)` starts with `-` exactly for a negative `i`, followed by the decimal digits of its magnitude |
| Text.ParseIntToDecimal | main.py:49-58 | `int(str(i)) == i` for every integer `i` |
| Patterns.DigitRun | src/scraper.py:323 | the greedy `\d+` run at a position is all digits and ends at the end of the string or at a non-digit |
| Patterns.MatchAt | src/scraper.py:323-335 | every one of the six patterns, tried at a position, captures a non-empty run of digits or nothing |
| Patterns.ModernAtDigits | src/scraper.py:423 | after `/<cafe>/`, digits that run to the end of the href are the modern pattern's group |
| Patterns.Search | src/scraper.py:323-335 | `re.search(...).group(1)` is a non-empty run of digits or nothing; `Patterns.SearchLeftmost` and `Patterns.SearchNone` say where it is found |
| Patterns.SearchFrom | src/scraper.py:335 | `re.search` from a position captures a non-empty run of digits or nothing |
| Patterns.SearchLeftmost | src/scraper.py:335 | `re.search` reports the match at the leftmost position where the pattern matches |
| Patterns.SearchNone | src/scraper.py:335-336 | `re.search` finds nothing exactly when the pattern matches at no position |
| Patterns.SearchClubIdImpliesClubIdKey | src/scraper.py:330-333 | wherever `search\.clubid=(\d+)` finds a match, `clubid=(\d+)` finds one too |
| Cookies.ParsePair | src/scraper.py:206-214 | a piece yields a cookie exactly when it contains `=`; the cookie has stripped name and value, no `=` in the name, domain `.naver.com` and path `/` |
| Cookies.ParsedCookies | src/scraper.py:204-214 | no cookie results exactly when no piece contains `=` |
| Cookies.ParsedCookiesWellFormed | src/scraper.py:209-214 | every cookie produced is well formed |
| Cookies.InjectCookies | src/scraper.py:204-216 | the append loop with its emptiness check computes the cookie list or the `NaverLoginError` |
| Cookies.InjectedCookiesErrIff | src/scraper.py:215-216 | `NaverLoginError` with the fixed message is raised exactly when the cookie string contains no `=` |
| Cookies.ParsePairSplits | src/scraper.py:206-214 | for any piece whose stripped text is `n=v` with no `=` in `n`, the cookie's name is `n.strip()` and its value `v.strip()` |
| Cookies.PairParses | src/scraper.py:206-214 | a cookie written `name=value` parses back to itself |
| Cookies.InjectedCookiesRoundTrip | src/scraper.py:204-216 | writing cookies as `name=value;name=value` and injecting the string gives back exactly those cookies, in order |
| ClubId.FirstMatch | src/scraper.py:329-337 | the patterns yield nothing exactly when none of them matches, and otherwise a run of digits |
| ClubId.FirstMatchPicksFirst | src/scraper.py:329-337 | the group comes from the first pattern in list order that matches |
| ClubId.ResolvedClubId | src/scraper.py:319-342 | a resolved club id is a non-empty run of digits; a failure is `ClubIdResolutionError` with the message naming the cafe |
| ClubId.ResolveClubId | src/scraper.py:319-342 | the early-returning strategy loop computes the resolved id or the error |
| ClubId.FrameClubId | src/scraper.py:320-325 | the frame strategy gives a non-empty run of digits only when the page has a frame, and is then the `clubid=` search over its `src` (`""` when the attribute is missing) |
| ClubId.FrameWins | src/scraper.py:320-325 | a `clubid=` match in the frame's `src` decides the id, whatever the markup holds |
| ClubId.MarkupInOrder | src/scraper.py:328-337 | otherwise the first markup pattern that matches supplies the id |
| ClubId.UnresolvedIff | src/scraper.py:339-342 | resolution fails exactly when neither the frame nor any markup pattern matches |
| ClubId.SearchPatternRedundant | src/scraper.py:329-337 | the first three markup patterns alone resolve every page the same way as all four |
| Extraction.Candidate | src/scraper.py:474-482 | a selector offers stripped text, and "" when it finds no element or raises |
| Extraction.FirstText | src/scraper.py:472-485 | the text is stripped, and is "" exactly when every selector offers "" |
| Extraction.FirstTextPicksFirst | src/scraper.py:472-482 | the text is that of the first selector in priority order that offers non-empty text |
| Extraction.FirstTextIgnoresLater | src/scraper.py:481-482 | selectors after the winning one do not affect the result |
| Extraction.ExtractText | src/scraper.py:465-485 | the early-returning selector loop computes the first non-empty stripped text |
| Extraction.FetchedPost | src/scraper.py:430-463 | no record exactly when navigation raised or both title and content are empty; otherwise the record has the given id, the name-based read URL and the four extracted fields, all stripped |
| Extraction.FetchPost | src/scraper.py:430-463 | the four extractions and the emptiness check compute that record |
| Listing.BoardUrl | src/scraper.py:387-393 | the board URL is the cafe address followed by `?iframe_url=` and a parameter that percent-decodes to the article-list query, for ids without `%` |
| Listing.IframeTargetDecodes | src/scraper.py:387-393 | percent-decoded, the `iframe_url` parameter is `/ArticleList.nhn?search.clubid=<club>&search.menuid=<board>&userDisplay=50` |
| Listing.HarvestIds | src/scraper.py:412-428 | the harvested ids have no duplicates and are exactly the ids that some link's href yields |
| Listing.LinkArticleId | src/scraper.py:414-425 | one link's href yields the legacy match when there is one (the `continue`), else the modern match |
| Listing.ListArticleIds | src/scraper.py:403-428 | the scan over the frame's links, or the page's when there is no frame, computes the harvested ids |
| Listing.LegacyTakesPrecedence | src/scraper.py:416-420 | a legacy `articleid=` match decides the link's id |
| Listing.ModernNeedsTerminator | src/scraper.py:423 | a modern match ends at the end of the href, or is followed by `?`, by `#`, or by a newline that is the href's last character |
| Posts.ArticleReadUrl | src/scraper.py:83 | the read URL is `https://cafe.naver.com/`, the cafe name, `/` and `str(article_id)`, in that order and nothing else |
| Listing.ReadUrlYieldsId | src/scraper.py:83 | the read URL of article `n`, for a cafe name without `/`, `?` or `&`, is an href the scan reads back as `n` |
| Selection.Filter | src/scraper.py:356 | the kept elements are exactly the accepted elements of the input |
| Selection.FilterStrictlyAscending | src/scraper.py:367-373 | filtering a strictly ascending list keeps it strictly ascending |
| Selection.Sorted | src/scraper.py:356 | `sorted` returns an ascending permutation of its input |
| Selection.AscendingUnique | src/scraper.py:356 | two ascending lists with the same elements are equal |
| Selection.TailStart | src/scraper.py:363 | the start of `xs[-m:]`: `-0` keeps all, a positive `m` keeps the last `min(m, len)`, a negative `m` skips the first `min(-m, len)` |
| Selection.Candidates | src/scraper.py:356 | the candidates are ascending and are exactly the harvested ids above the watermark |
| Selection.SelectNew | src/scraper.py:356-363 | the selected ids are ascending, harvested and above the watermark |
| Selection.SelectNewStrictlyAscending | src/scraper.py:356 | from duplicate-free ids the selection is strictly ascending |
| Selection.SelectNewEmpty | src/scraper.py:357-359 | nothing is selected exactly when no id exceeds the watermark |
| Selection.SelectNewCap | src/scraper.py:361-363 | over the cap exactly `max_posts` ids survive, and every dropped candidate is smaller than every kept one |
| Selection.SelectNewAtMost | src/scraper.py:361-363 | with `max_posts >= 1` at most `max_posts` ids are selected |
| Selection.SelectNewKeepsAll | src/scraper.py:361-363 | under the cap, or with `max_posts == 0`, every candidate is selected |
| Selection.SelectNewOrderFree | src/scraper.py:356 | the selection depends only on which ids the set held, not on their order |
| Selection.FetchedPosts | src/scraper.py:367-373 | no more records than ids, each a valid record for its own id |
| Selection.FetchedPostsAreFetches | src/scraper.py:367-371 | every record is exactly the one `_fetch_post` returned for its id |
| Selection.FetchedPostsIds | src/scraper.py:367-373 | the record ids are exactly the ids whose fetch gave a record, in their order |
| Selection.FetchAll | src/scraper.py:367-371 | the fetch-and-append loop computes those records |
| Selection.FetchNewPosts | src/scraper.py:344-373 | listing, selection and the fetch loop compute the posts of `_fetch_new_posts` |
| Selection.NewPostsProperties | src/scraper.py:344-373 | the posts are valid records, each the one `_fetch_post` returned for its id, whose ids are strictly ascending, above the watermark and listed on the board, at most `max_posts` of them |
| Session.Authenticated | src/scraper.py:179-183 | with cookies, success exactly when cookie injection succeeds; without, exactly when the login form succeeds; failures are `NaverLoginError` |
| Session.GetNewPosts | src/scraper.py:146-194 | authentication, one club-id resolution and the fetch compute the run's posts or its scraper error |
| Session.NewPostsErrors | src/scraper.py:176-191 | `NaverLoginError` exactly when the cookies hold no `=` (or the login fails without cookies); `ClubIdResolutionError` exactly when authentication succeeds and resolution fails |
| Session.NewPostsOk | src/scraper.py:119-140 | a successful run gives strictly ascending ids above the watermark, each with its read URL and exactly the record `_fetch_post` returned, at most `max_posts` of them |
| Summarizer.TruncatedContent | src/summarizer.py:76-82 | content of up to 8000 characters is unchanged; longer content is its first 8000 characters plus the omission marker; the result is empty exactly when the content is |
| Summarizer.PromptArgsOf | src/summarizer.py:84-89 | the title, author and date fall back to their placeholders exactly when empty, and the content is the truncated body or `(내용 없음)` |
| Summarizer.UserPrompt | src/summarizer.py:21-49 | the formatted prompt starts with the template's head, ends with its tail, and its length is that of the template plus the four values |
| Summarizer.SummaryRequest | src/summarizer.py:91-96 | the request carries the default model, 1024 tokens, the system prompt and the post's non-empty prompt values |
| Summarizer.Summarize | src/summarizer.py:98 | the summary is the first text block stripped; a reply without blocks, or an exception, is an error |
| Summarizer.SummaryStable | src/summarizer.py:98 | a summary is already stripped |
| Summarizer.ContentPlaceholderIff | src/summarizer.py:88 | `(내용 없음)` is used exactly when the body is empty or is that placeholder itself: a cut body never is |
| Notifier.Description | src/notifier.py:43-45 | a summary of up to 4096 characters is unchanged; a longer one becomes its first 4076 characters plus the 14-character marker, so at most 4096 |
| Notifier.EmbedTitle | src/notifier.py:48 | the title is `📝 ` followed by the post title, or by `(제목 없음)` when it is empty |
| Notifier.LinkMarkdown | src/notifier.py:65 | the link field is exactly `[게시글 바로가기](`, the URL, and `)` |
| Notifier.PostEmbed | src/notifier.py:47-80 | the embed links to the post URL in Naver green, its title is the post's embed title and its description the cut summary; its fields are author, date and link in that order, with `알 수 없음` for an empty author or date |
| Notifier.ErrorDescription | src/notifier.py:87 | the message's first 4086 characters inside code fences, at most 4094 characters |
| Notifier.ErrorEmbed | src/notifier.py:82-92 | a red embed without fields or link whose description is the fenced, cut message, within the limit |
| Notifier.NoPostsEmbed | src/notifier.py:94-103 | the no-posts notice is grey, so neither a post embed nor an error, and has no fields and no link |
| Notifier.WebhookOutcome | src/notifier.py:121-124 | success exactly for status 200 or 204; otherwise the `RuntimeError` message naming the status and body |
| Notifier.WebhookErrorNamesStatus | src/notifier.py:122-124 | the status code can be read back from the failure message |
| Runner.LastProcessedId | main.py:44-52 | the watermark is the integer of the stripped file, and 0 when the file is absent, unreadable, blank or not an integer |
| Runner.SavedText | main.py:55-59 | the text written to the state file is already stripped and `int()` reads it back as the id |
| Runner.StateRoundTrip | main.py:44-59 | a saved watermark is read back unchanged by the next run |
| Runner.Setting | main.py:79 | a setting is stripped; it is "" exactly when the variable is unset or all whitespace, and an already-stripped variable is taken unchanged |
| Runner.Missing | main.py:76-82 | at most one report line per requirement |
| Runner.MissingEmptyIff | main.py:78-86 | nothing is reported exactly when every required variable is non-blank |
| Runner.MissingOne | main.py:80-81 | one requirement is reported exactly when its variable is blank |
| Runner.MissingAppend | main.py:78-81 | the report preserves the declaration order of the requirements |
| Runner.Values | main.py:78-82 | every required key is recorded with its stripped value |
| Runner.WithAuth | main.py:89-91 | the three authentication settings are added, stripped |
| Runner.Configured | main.py:65-100 | a returned configuration holds all seven keys with their stripped values |
| Runner.ConfiguredIff | main.py:84-98 | exit for missing variables exactly when a required one is blank, with all of them reported; success exactly when all are given and cookies, or both id and password, are set |
| Runner.CollectSettings | main.py:76-82 | the loop over the required keys computes the values and the report lines |
| Runner.LoadConfig | main.py:65-100 | `load_config` computes the configuration or the reason it exits |
| Runner.Delivered | src/notifier.py:115-124 | a delivered payload counts as sent exactly when the status is 200 or 204 |
| Runner.ErrorEntry | main.py:149 | a digest entry is `Post `, `str(id)`, ` (`, the first 40 characters of the title, `): ` and the exception message, in that order |
| Runner.MaxId | main.py:138-152 | the new watermark is at least the old one and every post id, and is one of them |
| Runner.Failures | main.py:139-149 | at most one digest entry per post |
| Runner.Deliveries | main.py:141-144 | at most one embed per post, all in Naver green |
| Runner.ProcessPost | main.py:142-149 | summarising and sending one post gives its outcome and the embed handed to the webhook |
| Runner.ProcessPosts | main.py:138-152 | the loop computes the watermark over every post, successful or not, the entries of the failed posts, and the sent embeds |
| Runner.Digest | main.py:158-160 | the digest starts with its heading, and when no entry holds a newline its lines after the heading are exactly the entries |
| Runner.FailuresEmptyIff | main.py:158-160 | no entry is recorded exactly when every attempt went through |
| Runner.FailuresAppend | main.py:141-149 | the entries follow the posts in order |
| Runner.DeliveriesAppend | main.py:141-144 | the embeds sent follow the posts in order |
| Runner.DeliveriesOne | main.py:141-144 | a post is sent as its own `PostEmbed` of its summary exactly when the summary was obtained |
| Runner.FailuresOne | main.py:147-149 | a post gets one entry exactly when its attempt raised |
| Runner.MaxIdAscending | main.py:145-152 | over strictly ascending ids above the watermark, the new watermark is the last id |
| Runner.FinishRun | main.py:123-170 | the rest of `main` after the scraper computes what the run sends, saves and exits with |
| Runner.Report | main.py:155-160 | the watermark is saved only when it moved, and the digest is sent only when there are errors |
| Runner.Run | main.py:106-178 | `main` computes the run's outcome |
| Runner.FinishWatermark | main.py:155-156 | the watermark is saved exactly when there are posts, and is then above the old one and equal to the newest post's id |
| Runner.RunWatermark | main.py:155-156 | the stored watermark only moves forward, and is written exactly when the run got posts |
| Runner.FinishNoPosts | main.py:129-132 | with no posts only the notice is sent, nothing is saved and the run succeeds |
| Runner.FinishDigest | main.py:158-160 | with posts the run exits 0, sends the post embeds first, and sends a red embed exactly when some post failed |
| Runner.ReportedDigest | main.py:155-160 | the digest, the only red embed, follows the post embeds exactly when some attempt failed |
| Runner.FinishScrapeError | main.py:162-170 | a scraper error is reported with its prefix and message, nothing is saved, and the run exits 1 |
| Runner.RunConfigError | main.py:84-98 | a bad configuration ends the run with status 1 before anything is sent or saved |
| Runner.NewestUnreadableRetried | src/scraper.py:367-371 | when the newest selected article yields no record, the new watermark stays below its id |

## Left out

- Browser I/O: Playwright, `asyncio`, `goto`, the waits and `browser.close()` are not modelled. Each page is the input it renders.
- The ID/PW login flow (`_login`, src/scraper.py:220-303) is not modelled. Its outcome is an input: success, or the `NaverLoginError` message.
- Exceptions from the browser calls around the scan, such as `query_selector_all` or `get_attribute` raising inside `_list_article_ids`: the rendered page is taken as given.
- A failure inside `browser.new_context` or `page.content()` is not modelled.
- The Anthropic client call and `requests.post` are parameters: the model's reply and the webhook's response or exception. Network errors appear as the exception message.
- Summarizer.Request: it records the four prompt values. The text actually sent is `Summarizer.UserPrompt` of them, and is not a field of the request.
- Summarizer.UserPrompt: only the template's head, its tail and the length are stated. The Korean template text is a constant with no further property.
- The `timestamp` of every embed is the current time, and is left out.
- The `EMBED_FIELD_VALUE_LIMIT` and `ARTICLE_LIST_URL` constants are not modelled, because the code never uses them.
- Logging, `load_dotenv` and `sys.exit` are not modelled. An exit is the outcome's exit code.
- The state file and the environment are inputs. A failed state write is not modelled.
- The `except Exception` branch of `main` (main.py:172-176) is not modelled. The other failures it catches are also absent from the modelled outcomes: a failing no-posts notice, a failing digest `send_error`, and an error message that cannot be rendered. The traceback text is not modelled either.
- Runner.RunOf: a failing `send_error` after a login or club-id error is not modelled.
- The id set of `_list_article_ids` is a duplicate-free sequence in first-seen order. Python's `list(set)` order is unspecified. `Selection.SelectNewOrderFree` shows the selection does not depend on it.
- Text.ParseInt: only ASCII digits are modelled. Python's `int()` also accepts other Unicode decimal digits.
- `\d` in `Patterns` is ASCII digits only. Python's `re` also matches other Unicode decimal digits.
- Text.ParseInt: CPython's limit on `int()` of strings longer than 4300 digits (a `ValueError`) is not modelled. Under it, `Runner.LastProcessedId` would give 0 for such a state file, and an id that long in an href would make `Listing.HarvestIds` raise and end the run through `except Exception`.
- Listing.HarvestIds: the same 4300-digit `int()` limit is not modelled.
- Text.ParseInt is applied to the already-stripped file content, so `int()`'s own whitespace handling is not needed.
- Listing.ReadUrlYieldsId: it is stated for cafe names without `/`, `?` or `&`. The read URL splices the name into the address unescaped.
- Session.NewPostsOk: it is stated for `max_posts >= 1`. The default is 20.
