# Slack reply formatting and streaming, in Dafny

This project models the part of the Slack bot that moves text between Slack and the AI
(`slack/ai_ops.py`), and proves properties of that model. It covers four functions:

- `format_ai_message_content`: undoes Slack's HTML escaping of `&`, `<` and `>` in a user
  message, then optionally converts Slack mrkdwn to markdown.
- `format_assistant_reply`: runs an ordered table of 26 regular-expression substitutions over
  an AI reply. They strip leading newlines, strip an echoed `<@U…>:` user mention and strip
  the language tag from code fences. It then optionally converts markdown to Slack mrkdwn.
- `write_answer`: writes a finished answer into the conversation and the Slack
  "work in progress" message. First comes one update with the loading marker
  `" ... :writing_hand:"`, then the final rendering.
- `consume_custom_stream_to_write_reply`: builds the answer chunk by chunk from a stream. It
  counts words and dispatches an update thread whenever ten or more words have accumulated.
  It gives up when a chunk arrives after the timeout, pushes the final rendering when the
  stream ends, and always joins the update threads and closes the stream.

Modules, one per file:

- `PyText` (`py_text.dfy`): the Python string primitives involved. These are `str.isspace`,
  which is also the character set of `\s`, plus `str.replace` and `str.split()`.
- `AiMessage` (`ai_message.dfy`): `format_ai_message_content`.
- `AssistantReply` (`assistant_reply.dfy`): the substitution table, with its quirks copied
  literally. Each pattern has a hand-written matcher that follows `re.sub` semantics. The
  table is run as a fold (`ApplyRules`) and as a method with the source's loop
  (`FormatAssistantReply`).
- `ReplyStream` (`reply_stream.dfy`): the two writers, written imperatively.
  - `Chat` holds the conversation `messages`, the stored text `wip_reply["message"]["text"]`
    and a log of the calls to `update_wip_message`.
  - `FragmentStream` is the generator, modelled as the chunks it yields, whether it then
    raises, and a count of `close()` calls.
  - The flow is specified against pure functions of the chunk sequence: `Concat`, `Counter`,
    `Dispatched` and `Taken`.

Abstractions:

- Threads and time are replaced by explicit data. A dispatched update thread is a record of the
  content it was dispatched with, and it runs when it is joined. The clock is an input listing
  the whole seconds elapsed when each chunk arrives.
- `slack_to_markdown` and `markdown_to_slack` are in another file. They are parameters of type
  `string -> string`, and every property below either holds for any such function or is stated
  for the case without markdown translation.
- In `ReplyStream` every rendering goes through a parameter `render: string -> string`. It
  stands for `format_assistant_reply(·, translate_markdown)`, which is
  `s => AssistantReply.FormatReply(s, translateMarkdown, markdownToSlack)`. The writers'
  properties hold for every rendering function. The formatter's own properties are proved
  in `AssistantReply`.

What the code does on the paths where one might expect otherwise:

- A timeout or a failing stream ends without a final push. The `TimeoutError` and a stream
  exception propagate out of the `try`, which has no `except`. Only the `finally` runs: it
  joins the threads and closes the stream. The partial answer stays in `messages`, and
  `wip_reply["message"]["text"]` keeps whatever the last update stored, or its old value when
  nothing was pushed. `ConsumeCustomStreamToWriteReply` states this.
- The unescaping is not idempotent. The three `replace` passes each run once, so `&amp;lt;`
  becomes `&lt;`, and a second application turns that into `<` (`EntitiesUnescapedOnce`,
  `UnescapeNotIdempotent`).
- Update threads may push after the final push, because they are joined only in the `finally`.
  The model's log puts the joined threads' pushes after the final push, and nothing here claims
  that the final rendering is the last one Slack sees.

## Model

| member | source | states |
|---|---|---|
| PyText.IsSpace | slack/ai_ops.py:126 | the whitespace of `str.split()` and of `\s`: space, tab, newline and carriage return are whitespace; the pattern delimiters `:`, `<`, `>` and the backquote are not |
| PyText.Split | slack/ai_ops.py:126 | `str.split()`: every word is non-empty and holds no whitespace |
| PyText.SplitCountsWordStarts | slack/ai_ops.py:126 | `len(s.split())` is the number of positions holding a non-whitespace character that comes first or right after whitespace |
| PyText.Replace | slack/ai_ops.py:186 | `str.replace` with a non-empty pattern: a replacement no longer than the pattern never lengthens the text, and text that lacks the pattern's first character is returned unchanged |
| PyText.SplitKeepsNonSpace | slack/ai_ops.py:126 | the words of `chunk.split()`, joined, are exactly the chunk's non-whitespace characters in order: splitting loses only whitespace |
| PyText.SplitOneWord | slack/ai_ops.py:126 | a non-empty run of non-whitespace followed only by whitespace splits into exactly that one word |
| AiMessage.Unescape | slack/ai_ops.py:186 | the three passes never lengthen the text, and text without `&` is unchanged |
| AiMessage.FormatAiMessageContent | slack/ai_ops.py:180-192 | `None` exactly when the input is `None`; without markdown translation the result is no longer than the input and equals it when the input has no `&` |
| AiMessage.EscapeRoundTrip | slack/ai_ops.py:184-186 | for every text, escaping it the way Slack does (`&`→`&amp;`, `<`→`&lt;`, `>`→`&gt;`) and then formatting it without translation gives the text back |
| AiMessage.EntitiesUnescapedOnce | slack/ai_ops.py:186 | each pass runs once in the fixed order, so `&amp;lt;` becomes `&lt;` and not `<` |
| AiMessage.UnescapeNotIdempotent | slack/ai_ops.py:186 | unescaping twice differs from unescaping once, on `&amp;lt;` |
| AssistantReply.StripLeadingNewlines | slack/ai_ops.py:199 | the `^\n+` rule never lengthens the text |
| AssistantReply.LeadingNewlinesRemoved | slack/ai_ops.py:199 | `^\n+` removed: the result is a suffix of the input, everything removed is `\n`, and the result does not start with `\n` |
| AssistantReply.LeadingNewlinesKeepBackquotes | slack/ai_ops.py:199 | stripping leading newlines keeps every backquote |
| AssistantReply.OptionalSpace | slack/ai_ops.py:201 | `\s?` takes at most one character, and only a whitespace character |
| AssistantReply.ColonAt | slack/ai_ops.py:201 | `\s?:\s?` matches at a position exactly when a colon is there or one whitespace character and then a colon are there; the match is non-empty and inside the text |
| AssistantReply.MentionClose | slack/ai_ops.py:201 | the lazy `.*?>` of the mention pattern stops at the first `>` followed by `\s?:\s?` with no newline before it; when there is none, every such `>` has a newline before it |
| AssistantReply.MentionEnd | slack/ai_ops.py:201 | a match of `^<@U.*?>\s?:\s?` exists only for text starting with `<@U`, and it ends inside the text, after at least `<@U>:` |
| AssistantReply.StripMention | slack/ai_ops.py:201 | the mention rule leaves a suffix of the input, and text that does not start with `<@U` is unchanged |
| AssistantReply.StripMentionRemovesMention | slack/ai_ops.py:201 | `<@U` + id + `>` + optional whitespace + `:` is removed, together with one whitespace character after the colon, whenever the id holds no `>` and no newline |
| AssistantReply.SpaceEnd | slack/ai_ops.py:203-226 | the greedy `\s*` takes the whole run of whitespace: everything it takes is whitespace, and the character after it is not |
| AssistantReply.FenceMatch | slack/ai_ops.py:203-226 | a fence match is at least "```\n" long and lies inside the text; `FenceMatchIsRegexMatch` ties it to the regular expression |
| AssistantReply.FenceMatchIsRegexMatch | slack/ai_ops.py:203-228 | for every amount of whitespace the `\s*` may take, the pattern fence + `\s*` + tag + `\n` matches with that amount exactly when the matcher reports a match of that length (both directions) |
| AssistantReply.SubFence | slack/ai_ops.py:228 | a fence rule never lengthens the text |
| AssistantReply.SubFenceStripsTag | slack/ai_ops.py:203-228 | fence + any whitespace + a listed language name + newline becomes a bare fence, and the scan goes on after the newline |
| AssistantReply.BareFenceLosesLanguageLine | slack/ai_ops.py:220 | `\s*` also matches newlines, so the `sh` rule turns "```\nsh\n" into "```\n" |
| AssistantReply.SubFenceNoFence | slack/ai_ops.py:228 | a fence rule leaves text without "```" unchanged |
| AssistantReply.FenceMatchShape | slack/ai_ops.py:203-228 | a fence match consists of the fence followed by whitespace, the language name and a newline, none of which is a backquote |
| AssistantReply.SubFenceKeepsBackquotes | slack/ai_ops.py:203-228 | a fence rule keeps the number of backquotes: only the whitespace and the language name go |
| AssistantReply.ObjectiveCRejectsUsualSpelling | slack/ai_ops.py:210 | `[Oo]objective[Cc]` does not match "objectivec" |
| AssistantReply.ObjectiveCAcceptsDoubleO | slack/ai_ops.py:210 | `[Oo]objective[Cc]` matches "oobjectivec" |
| AssistantReply.TypeScriptRejectsLowercase | slack/ai_ops.py:225 | `[Ty]ype[Ss]cript` does not match "typescript" |
| AssistantReply.TypeScriptAcceptsCapitalT | slack/ai_ops.py:225 | `[Ty]ype[Ss]cript` matches "Typescript" |
| AssistantReply.TypeScriptAcceptsY | slack/ai_ops.py:225 | `[Ty]ype[Ss]cript` matches "yypescript" |
| AssistantReply.RulesShape | slack/ai_ops.py:197-227 | the table starts with the leading-newline rule and the mention rule, and all its other entries are language fences |
| AssistantReply.ApplyRules | slack/ai_ops.py:197-228 | running rules one after another never lengthens the text |
| AssistantReply.ApplyRulesTable | slack/ai_ops.py:197-228 | running the table means stripping the leading newlines, then the mention, then running the language rules in order |
| AssistantReply.FenceRulesNoOp | slack/ai_ops.py:203-228 | language-fence rules leave text without "```" unchanged |
| AssistantReply.FenceRulesKeepBackquotes | slack/ai_ops.py:203-228 | language-fence rules keep the number of backquotes |
| AssistantReply.FormatReply | slack/ai_ops.py:196-234 | without markdown translation, the reply never gets longer |
| AssistantReply.FormatAssistantReply | slack/ai_ops.py:196-234 | the loop over the table, followed by the optional translation, computes `FormatReply` |
| AssistantReply.FormatReplyNoOp | slack/ai_ops.py:197-228 | without translation, a reply that does not start with `\n` or `<@U` and contains no "```" is returned unchanged |
| AssistantReply.SubFenceSkipsPython | slack/ai_ops.py:203-225 | a language rule whose pattern cannot match "python" leaves a reply opening with "```python\n" unchanged, when the rest holds no fence |
| AssistantReply.FormatReplyStripsPythonTag | slack/ai_ops.py:196-228 | through the whole table, without translation, "```python\n" followed by text without fences becomes "```\n" followed by the same text: no earlier rule matches, and the Python rule comes last |
| AssistantReply.FormatReplyKeepsBackquotes | slack/ai_ops.py:197-228 | without translation, and unless the reply starts with a mention after its leading newlines, every backquote is kept: fences lose only their language tags |
| ReplyStream.IntermediatePush | slack/ai_ops.py:131-143 | an update sends the stored text followed by `" ... :writing_hand:"` |
| ReplyStream.FinalPush | slack/ai_ops.py:152-163 | the final push sends exactly the stored text, with no loading marker |
| ReplyStream.Chat.Show | slack/ai_ops.py:135-143 | storing a rendering in `wip_reply["message"]["text"]` and sending it appends exactly one entry to the log and changes nothing else |
| ReplyStream.FragmentStream.Next | slack/ai_ops.py:119 | a pull yields the next chunk and advances by one; past the last chunk it ends or raises, without advancing |
| ReplyStream.FragmentStream.Close | slack/ai_ops.py:173-176 | `close()` is counted once per call |
| ReplyStream.WordCount | slack/ai_ops.py:126 | `len(chunk.split())` is the number of places in the chunk where a word begins |
| ReplyStream.Concat | slack/ai_ops.py:125 | the content after the chunks: each one appended in order, as `content += chunk` does; `ConcatFront` gives the same text joined from the front |
| ReplyStream.ConcatFront | slack/ai_ops.py:125 | appending the chunks one by one gives the first chunk followed by the rest appended: the same as joining them all in order |
| ReplyStream.Dispatched | slack/ai_ops.py:125-149 | one snapshot at most per chunk: a chunk dispatches when the counter plus its words reaches 10, with the content so far |
| ReplyStream.Counter | slack/ai_ops.py:125-149 | after every chunk the word counter is below 10: it drops to 0 whenever it reaches 10 |
| ReplyStream.Taken | slack/ai_ops.py:119-122 | the number of chunks taken before the timeout is the first index whose elapsed time is strictly above the timeout (or all of them) |
| ReplyStream.UpdatePush | slack/ai_ops.py:131-143 | a thread pushes once if it is still alive when joined, and not at all otherwise |
| ReplyStream.Joined | slack/ai_ops.py:167-172 | the joined threads are the same threads, with the same contents, and none of them is alive |
| ReplyStream.JoinUpdate | slack/ai_ops.py:131-143 | joining a thread that is still alive runs its `update_message`: it stores its rendering and pushes it with the loading marker; a finished thread pushes nothing and leaves the stored text as it was |
| ReplyStream.JoinUpdates | slack/ai_ops.py:167-172 | joining runs every thread still alive, in order, each pushing its rendering with the loading marker; afterwards none is alive, `messages` is untouched and the stored text is the last push's, or the old one when no thread was alive |
| ReplyStream.PushedAfter | slack/ai_ops.py:167-172 | the pushes of the joined threads are appended after whatever was pushed before |
| ReplyStream.NoneAlivePushNothing | slack/ai_ops.py:167-172 | threads none of which is alive push nothing when joined |
| ReplyStream.NothingAliveAfterJoin | slack/ai_ops.py:92-98 | joining already-joined threads again pushes nothing |
| ReplyStream.WriteAnswer | slack/ai_ops.py:38-98 | `messages` grows by exactly one assistant entry holding the answer; Slack receives exactly one update with the loading marker, followed by exactly one final push of the rendered answer without it, which is also what is stored; the second join finds nothing alive |
| ReplyStream.TakeStep | slack/ai_ops.py:125-149 | one turn of the loop keeps the content, the counter and the threads equal to what the chunks taken so far determine |
| ReplyStream.TakeChunks | slack/ai_ops.py:111-149 | the assistant entry is appended and holds the raw concatenation of the chunks taken; chunks are taken up to the first one that arrives after the timeout; the outcome is a timeout exactly then, a stream failure when the stream raises after its last chunk, and a normal end otherwise; the threads dispatched are those the word counter calls for, each with the content so far |
| ReplyStream.AddChunk | slack/ai_ops.py:125-149 | a chunk in time is appended to the content and to the assistant entry; its words are added to the counter, and reaching 10 dispatches an update with the new content and resets the counter |
| ReplyStream.ConsumeCustomStreamToWriteReply | slack/ai_ops.py:100-176 | `messages` grows by exactly one assistant entry whose content is the raw concatenation of the chunks taken. The stream is exhausted normally exactly when no chunk came late and the stream does not raise. Only then is the final unsuffixed rendering of the whole content pushed. A timeout is reported when a chunk arrives after it: that chunk is pulled but not appended, and nothing after it is pulled. Every dispatched update is joined and pushes its rendered snapshot with the loading marker. When nothing is pushed, the stored text is left as it was. `close()` runs exactly once on every exit path |
| ReplyStream.ThrottleBound | slack/ai_ops.py:125-149 | 10 × (number of dispatches) + the counter ≤ the total words taken, and no chunk dispatches more than once |
| ReplyStream.SnapshotsGrow | slack/ai_ops.py:125-148 | every dispatched snapshot is a prefix of the content, and each is a proper prefix of every later one |
| ReplyStream.OneWordChunks | slack/ai_ops.py:125-149 | with one word per chunk, there are ⌊n/10⌋ dispatches after n chunks and the counter holds n mod 10 |
| ReplyStream.OneWordStep | slack/ai_ops.py:125-149 | one more one-word chunk moves the counter on by one, dispatching when it wraps from 9 to 0 |
| ReplyStream.TenOneWordChunks | slack/ai_ops.py:125-149 | ten one-word chunks dispatch exactly one update, carrying the whole content, and leave the counter at 0 |
| ReplyStream.SpawnedUpdatesPush | slack/ai_ops.py:131-148 | the dispatched updates push once each, in dispatch order; each stores the rendered snapshot and sends it followed by the loading marker |

## Left out

- Thread scheduling: an update thread reads `assistant_reply["content"]` when it runs, not when
  it is dispatched. The model records the content at dispatch time and runs the thread at the
  latest moment the code allows (when it is joined). Updates that land out of order, or that
  run before the join, are not modelled.
- ConsumeCustomStreamToWriteReply: the order of the log is the model's choice of schedule: the
  final push comes before the joined updates' pushes. It is not a claim about the order Slack
  sees the writes in.
- The network: `update_wip_message`, the `WebClient` and `stream.close()` never fail in the
  model, so the `except Exception: pass` around the joins and around `close()` has nothing to
  catch. The transcript passed to `update_wip_message` is not recorded.
- A stream that raises can only do so after its last listed chunk. A stream that fails earlier
  is the same as a shorter stream that raises.
- `time.time()` floats: elapsed time is an integer input, one value per chunk.
- `update_message` calls `format_assistant_reply` in the source; in `ReplyStream` this is the
  `render` parameter, so the writers' contracts name the rendering function rather than the
  table of substitutions.
- `slack_to_markdown` and `markdown_to_slack` are in another file and are not part of this
  model. They are uninterpreted parameters.
- `get_answer` and `build_system_text` (`slack/ai_ops.py`) and `slack_app.py` are I/O and
  event routing, outside this model.
- PyText.Replace: `str.replace` with an empty pattern is not modelled; only the three
  non-empty entity patterns are used.
- Strings are sequences of Unicode scalar values: `str.isspace` is encoded for those
  characters, and Python's case-insensitive flags are not involved (the patterns spell out
  their character classes).
