# Gem2 message pipeline in Dafny

Gem2 is a Discord bot that forwards channel messages to a generative-AI
model and relays the model's replies back into Discord. This project models
the text handling at the core of its `messageCreate` handler (`index.js`):

- **Prompt composition** (`prompt.dfy`, `mentions.dfy`, `attachments.dfy`).
  - Raw mention tokens `<@id>`, `<@!id>` and `<#id>` of cached members and
    channels become `"@displayName"` and `"#channelName"`.
  - A header `[Name's Message In #channel Channel]: ` goes in front.
  - `extractText` then appends one fenced block per attachment, if the
    attachment's extension is on the 13-entry allow-list and its download
    succeeds.
- **The retry loop** (`retry.dfy`).
  - There are at most three attempts.
  - When an attempt fails because the service blocked the reply candidate,
    the last two turns of the server's history are dropped, but only when
    there are at least two.
  - The per-server history map is a class whose methods update it in place.
- **Reply delivery** (`chunker.dfy`).
  - A reply longer than 1950 characters goes through `sendTextInChunks`. It
    cuts the reply just before the last whitespace character within reach.
  - Each piece is trimmed and sent. The first piece is a reply; the later
    pieces are plain channel messages.
  - `text.dfy` holds JavaScript's `\s` whitespace class, `trim` and
    `startsWith`.

Everything the handler receives from outside is a parameter:
- the message and its attachments' downloaded texts;
- the member and channel caches;
- the outcome of each attempt.

Each attempt's outcome says whether it succeeded, and which turns the chat
session pushed onto the server's history array before the attempt ended. A
failed outcome also says whether the attempt had already stored that array
under the server (index.js:189) when the error was raised.
Sends are entries in a returned log.

Where the code falls short of its evident intent, the model follows the
code and proves the intended behaviour of a corrected definition beside it:
- The comment at index.js:282 asks for a split at a word boundary. A
  1950-character limit then needs a hard cut wherever a window holds no word
  boundary. The code has none: its loop stops making progress (Findings,
  row 1).
- A display name or channel name is meant to reach the prompt as written.
  The replacement strings are not protected against JavaScript's
  `$`-patterns, so a name holding one is altered (Findings, row 2).

## Model

| member | source | states |
|---|---|---|
| Text.IsSpace | index.js:283 | The `\s` class: JavaScript's WhiteSpace and LineTerminator characters, the same set `trim` strips. |
| Text.Trim | index.js:288 | `trim()`: the result is no longer than the string; `Text.TrimKeepsInnerStretch` says which stretch it is. |
| Text.StartsWith | index.js:205 | `s.startsWith(prefix)`: `prefix` is a prefix of `s`. |
| Text.TrimKeepsInnerStretch | index.js:288 | `trim` keeps exactly the stretch from the first to the last non-whitespace character. Only whitespace is dropped on either side, and a string without whitespace at either end is unchanged. |
| Chunker.SpaceAt | index.js:283 | `/\s/.test(text[k])`: whitespace at index `k`, never at or past the end, where `text[k]` is `undefined`. `Chunker.BackUp` and `Chunker.CutAt` state their cuts through it. |
| Chunker.BackUp | index.js:283-285 | The inner loop stops at the largest whitespace index in `(offset, end]`, or at `offset` when there is none. Index `text.length` never counts as whitespace. |
| Chunker.CutAt | index.js:278-286 | A cut lies at most 1950 characters past `offset`. Near the end of the text it is the end of the text. Otherwise it falls just before the last whitespace within reach, or at `offset` when the window has none. |
| Chunker.PlanFrom | index.js:277-298 | The outer loop either cuts non-empty spans that tile `[offset, length)`, each ending where `CutAt` says, or reaches an offset whose cut does not advance. |
| Chunker.Chunks | index.js:272-299 | One message per span. Each is at most 1950 characters. Only the first is a reply. Nothing is sent exactly when the text is empty. |
| Chunker.SendTextInChunks | index.js:272-299 | The two loops send exactly `Chunks(text)`, whenever the source loop terminates. |
| Chunker.CutPoint | index.js:278-286 | The inner loop computes `CutAt`. |
| Chunker.SendResponse | index.js:192-200 | A text of up to 1950 characters is one reply carrying the text. A longer one goes through the chunker and takes at least two messages. Either way only the first message is a reply, and every message is within the limit. |
| Chunker.LongTextSplits | index.js:192-196 | A text longer than 1950 characters is cut into at least two spans. |
| Chunker.ChunksCoverText | index.js:277-289 | The untrimmed slices tile the text and join back to it. Each piece is its slice trimmed. Every slice but the last ends just before whitespace, with no whitespace after it within reach. |
| Chunker.StallIsWindowWithoutSpace | index.js:283-289 | Every stall sits at a window of 1950 characters without whitespace inside the text, and its piece is empty. |
| Chunker.WindowWithoutSpaceStalls | index.js:277-289 | Conversely, once the loop reaches an offset whose window of 1950 characters lies inside the text and holds no whitespace, the plan stalls; from offset 0 the loop then never ends. |
| Chunker.WordThenRunStalls | index.js:277-289 | A short word, a space and then at least 1950 non-whitespace characters: the first piece is the word, and the loop stalls at the start of the run. |
| Chunker.OffsetAfter | index.js:277-289 | The outer loop's `offset` after `n` iterations, never past the end of the text and never behind the start; `Chunker.LoopEndsIffTerminates` says when it reaches the end. |
| Chunker.LoopEndsIffTerminates | index.js:277-298 | The loop reaches the end of the text after some number of iterations if and only if the plan does not stall. Otherwise `offset` never reaches the end of the text. |
| Chunker.UnbrokenRunStalls | index.js:277-289 | A text of at least 1950 non-whitespace characters stalls at offset 0. |
| Chunker.HardCutAt | index.js:278-286 | The corrected cut always advances, by at most 1950, and agrees with the code's cut wherever that one advances. |
| Chunker.HardCutSpans | index.js:277-298 | The corrected loop always terminates. Its spans tile the text, each at most 1950 long. |
| Chunker.HardCutCoversText | index.js:277-298 | For every text, the corrected loop's slices join back to the text and every piece fits the limit. |
| Chunker.HardCutAgrees | index.js:277-298 | Wherever the source loop terminates, the corrected loop cuts exactly the same spans. |
| Retry.IsBlocked | index.js:205 | The error message starts with `[GoogleGenerativeAI Error]: Candidate was blocked due to`. |
| Retry.AfterAttempt | index.js:111-211 | One attempt touches only its own server. A success stores the history extended by the exchange. A failure that is not blocked leaves the history extended when the array was in the map or had been stored at line 189, and leaves a server without history without one otherwise. |
| Retry.History | index.js:112 | `serverHistory.get(guildId)`, or `[]` when that is undefined, also read at line 206: the stored history, or empty for a server without one; every retry lemma states its result through it. |
| Retry.DropLastPair | index.js:206-211 | With at least two turns, the history loses exactly its last two. With fewer it is untouched. Other servers' histories are unchanged. |
| Retry.RunFrom | index.js:105-219 | At most three attempts run. Success holds exactly when some attempt succeeds, and the loop stops at the first success. All earlier attempts failed. Failure means three attempts were made. Other servers' histories are untouched. |
| Retry.ServerHistory.HandleMessage | index.js:105-219 | The loop over the in-place history map ends in the state, `retryCount` and `success` that `RunFrom` gives. |
| Retry.ServerHistory.Attempt | index.js:111-211 | One attempt extends the shared history array. A success, or a failure raised after line 189, has stored it, and a blocked failure pops the last pair. The new map is `AfterAttempt` of the old. |
| Retry.ServerHistory.PopPair | index.js:206-211 | Two pops when there are at least two turns. |
| Retry.FailureWithoutExchange | index.js:189-212 | A failure that is not a blocked candidate leaves the history as it is. A blocked one shortens it by exactly two turns when it has two, and otherwise leaves it alone. A server without history gets the empty array stored only when line 189 had run. |
| Retry.BlockedPairUndone | index.js:189-211 | A blocked reply whose user and model turns were pushed leaves the server's history exactly as it was before the attempt. |
| Retry.BlockedPairsThenSuccess | index.js:105-219 | Blocked replies that had pushed their pairs, then a success: the loop succeeds on that attempt, and the map is the old one with the server's history extended by the successful exchange alone. |
| Retry.TwoBlockedThenSuccess | index.js:105-219 | Two blocked failures followed by a success remove two pairs, then extend the history. `retryCount` is 2 and `success` holds. |
| Retry.FailuresOnlyShorten | index.js:105-219 | When every attempt fails without pushing turns, the loop makes three attempts and leaves a prefix of the history. |
| Attachments.LastSegment | index.js:231 | `split('.').pop()` is the suffix after the last `.`, which holds no `.`. It is the whole name when there is no `.`. |
| Attachments.Lower | index.js:231 | `toLowerCase` keeps the length and lowers each letter. |
| Attachments.Includes | index.js:234 | `fileTypes.includes(fileType)`; `Attachments.IncludesIff` proves it is list membership. |
| Attachments.Allowed | index.js:231-234 | The file type is on the 13-entry list; `Attachments.CaseDoesNotMatter` and `Attachments.ExtensionContributes` state what decides it. |
| Attachments.Contribution | index.js:234-241 | What one attachment adds: its block when allowed and downloaded, else nothing; `Attachments.ContributesIff` states both directions. |
| Attachments.Contributions | index.js:230-242 | The contributions of the attachments, in order; `Attachments.ExtractText`, `Attachments.InAttachmentOrder` and `Attachments.UnchangedIff` state it. |
| Attachments.ExtractText | index.js:227-245 | The result is the message followed by the contribution of each attachment, in order. |
| Attachments.AddAttachment | index.js:230-241 | An attachment adds its fenced block exactly when its type is allowed and its download succeeded, and adds nothing otherwise. |
| Attachments.ContributionsAppend | index.js:230-242 | The blocks of two lists of attachments are those of the first followed by those of the second. |
| Attachments.InAttachmentOrder | index.js:230-242 | Attachment `i`'s block lies between the blocks of the attachments before it and those after it. |
| Attachments.ContributesIff | index.js:234-240 | An attachment adds text if and only if it is allowed and downloaded, and then exactly its block. |
| Attachments.UnchangedIff | index.js:227-245 | The prompt comes back unchanged exactly when no attachment is both allowed and downloaded. |
| Attachments.IncludesIff | index.js:234 | `includes` finds an entry wherever it stands in the list. |
| Attachments.ExtensionDecides | index.js:231 | The file type of `prefix.ext` is `ext` lower-cased. |
| Attachments.CaseDoesNotMatter | index.js:231-234 | A name and its lower-cased form have the same file type, and one is allowed exactly when the other is. |
| Attachments.FileType | index.js:231 | `split('.').pop().toLowerCase()`: the lower-cased text after the last `.`; `Attachments.ExtensionDecides` states it. |
| Attachments.Block | index.js:237 | The fenced block labelled with the file name. |
| Attachments.ExtensionContributes | index.js:231-241 | An attachment `prefix.ext` adds its block when `ext` lower-cased is on the list and the download succeeded, and adds nothing when `ext` is not on the list. |
| Attachments.TextFileContributes | index.js:231-241 | Every downloaded `.txt` file, whatever its name, adds its content as a fenced block labelled with its name. |
| Mentions.MatchLength | index.js:146-150 | The length of the match of `<@!?id>` or `<#id>` at the start of the text, never longer than the text, and 0 unless the text starts with `<`. |
| Mentions.MatchLengthMeans | index.js:146 | `<@!?id>` matches `<@!id>` first and otherwise `<@id>`; `<#id>` matches only `<#id>`. The match length says which token the text starts with. |
| Mentions.TokenPrefix | index.js:146-150 | A text starts with a token exactly when it holds the token's pieces in order. |
| Mentions.Substitute | index.js:146-150 | GetSubstitution, the rule `String.prototype.replace` applies to a string replacement: `$$`, `$&`, `` $` `` and `$'` expand, any other character stands for itself. |
| Mentions.ReplaceRest | index.js:146-150 | The global replace from a position on: a match is substituted and skipped, otherwise one character is copied. |
| Mentions.JsReplaceAll | index.js:146-150 | `replace` with a global pattern and a string replacement, as JavaScript evaluates it. |
| Mentions.LiteralReplaceAll | index.js:146-150 | The corrected replace: every match replaced by the replacement as written. |
| Mentions.LiteralTranslate | index.js:145-151 | The corrected translation: the member pass and then the channel pass with literal replacement. |
| Mentions.SubstituteLiteral | index.js:146-150 | A replacement string without `$` is inserted as written. |
| Mentions.ReplaceAgreesWithoutDollar | index.js:146-150 | The JavaScript global replace equals literal replacement whenever the replacement holds no `$`. |
| Mentions.MentionReplaced | index.js:146-150 | A mention after text in which no match starts becomes the replacement in place, and the scan resumes after it. |
| Mentions.UnmatchedPrefixCopied | index.js:146-150 | Text ahead of the rest in which no match starts is copied unchanged. |
| Mentions.PlainTextNoMatch | index.js:146-150 | No match starts inside text without `<`. |
| Mentions.MemberReplacement | index.js:146 | The replacement string `"@${member.displayName}"`; `Mentions.MemberMentionTranslated` shows it reaches the prompt when the name holds no `$`. |
| Mentions.ChannelReplacement | index.js:150 | The replacement string `"#${channel.name}"`. |
| Mentions.MembersApplied | index.js:145-147 | One JavaScript replace per cached member, in cache order; `Mentions.MembersKeepPlainText` and `Mentions.MembersAgree` state it. |
| Mentions.ChannelsApplied | index.js:149-151 | One JavaScript replace per cached channel, in cache order; `Mentions.ChannelsKeepPlainText` and `Mentions.ChannelsAgree` state it. |
| Mentions.Translate | index.js:145-151 | The member pass, then the channel pass; `Mentions.TranslateAgreesWithoutDollar` and `Mentions.TranslateKeepsPlainText` state it. |
| Mentions.TranslateInbound | index.js:145-151 | The member pass and then the channel pass compute `Translate`. |
| Mentions.TranslateAgreesWithoutDollar | index.js:145-151 | When no name holds `$`, the translation as written equals the literal translation. |
| Mentions.TranslateKeepsPlainText | index.js:145-151 | A message without `<` reaches the model unchanged, whatever the names are. |
| Mentions.ReplaceKeepsPlainText | index.js:146-150 | One replace leaves text without `<` alone, whatever the replacement holds. |
| Mentions.MemberMentionTranslated | index.js:146 | A lone mention `<@id>` becomes `"@displayName"` when the name holds no `$`. |
| Mentions.DollarAmpersandExpands | index.js:146 | As written, display name `$&` turns `<@1>` into `"@<@1>"`. The literal replacement gives `"@$&"`. |
| Prompt.ComposePrompt | index.js:143-155 | The prompt is the header, then the translated message, then the attachment blocks. |
| Prompt.PlainMessagePrompt | index.js:143-155 | A message without `<` and without readable attachments yields exactly the header followed by the message. |
| Prompt.Header | index.js:154 | The header `[displayName's Message In #channelName Channel]: `. |
| Prompt.HeaderFrames | index.js:154 | The header opens with `[`, then the display name, and closes with `]: `, and the message follows right after it. |

## Left out

- **Discord and the model service.** Gateway events, the mention/name
  trigger and the bot-author check are left out. So are the `memory` slash
  command, the image-generation client, the system-instruction template
  (with `Date`) and the calls to the model service. The outcome of each
  attempt is an input.
- **Persistence.** Loading and saving histories as JSON files is filesystem
  I/O and is not part of this model.
- **Downloads.** Downloading attachments, extracting text from PDFs and
  base64-encoding images are I/O or foreign code. An attachment carries the
  text the download produced, or the fact that it threw.
- **Timing.** The one-second `setTimeout` between attempts changes no state
  the model tracks.
- **Outbound rewrite.** The rewrite of `@displayName` and `#channelName` in
  the model's reply back to mention tokens (index.js:180-186) is not
  modelled.
- **`sendAsTextFile`.** Switched off by the constant `sendAsFile = false`, so
  it is left out.
- **Concurrency.** The handlers for different messages interleave at every
  `await`, and that interleaving is not modelled. Each message is handled as
  if alone.
- **Rejected sends.** Discord rejects a message with empty content, and the
  chunker model does not capture that. A stalled or whitespace-only piece
  would make `reply`/`send` throw, and the whole attempt would fail; in the
  retry model that is a failure raised after line 189.
- **Characters beyond U+FFFF.** A JavaScript string is a sequence of UTF-16
  code units. The model's strings are texts with no character beyond
  U+FFFF, where one `char` is exactly one code unit. A text holding such a
  character (an emoji, say) is two code units per character in JavaScript
  and one `char` here, so for it `text.length`, the `text.length > 1950`
  dispatch (index.js:192), the 1950-unit window (index.js:278-279) and
  every cut position differ from the model's; JavaScript can also cut
  between the two halves of a surrogate pair, which has no counterpart
  here. For example, 1000 such emoji with no whitespace are 2000 code units
  and stall the source chunker, while `Chunker.SendResponse` sends them as
  one reply. Those texts are not modelled.
- Attachments.Lower: lowers ASCII letters only, not full Unicode case
  mapping. The only non-ASCII characters that `toLowerCase` maps into ASCII
  are U+212A KELVIN SIGN (to `k`) and U+0130 (to `i` plus a combining dot).
  No allow-listed extension contains `k` or a combining dot, so the
  allow-list decision is the same.
- Mentions.TranslateInbound: requires decimal identifiers. Member and
  channel identifiers are Discord snowflakes, so the regular expression
  built from one matches only that literal token. Identifiers holding
  regular-expression syntax are outside the model.
- Chunker.SendTextInChunks: requires that the source loop terminates. On
  other texts the loop stops making progress, which
  `Chunker.LoopEndsIffTerminates` states; its first empty piece would then
  make the send throw (see "Rejected sends").

## Findings

| source | as written | input that shows it | evidently intended | confidence | as-written member | corrected member |
|---|---|---|---|---|---|---|
| index.js:283-289 | When the window `(offset, offset + 1950]` inside the text holds no whitespace, the inner loop backs up to `end == offset`. The piece is empty and `offset` does not advance, so the loop stops making progress; its first empty `reply`/`send` throws, the attempt fails, and the retry loop asks the model again. | A reply of 2000 non-whitespace characters, e.g. a long URL or a code line. | A hard cut at `offset + 1950` when the window holds no whitespace. | not executed | Chunker.UnbrokenRunStalls | Chunker.HardCutCoversText |
| index.js:146-150 | The replacement argument of `String.prototype.replace` is a string built from the display name or channel name. JavaScript expands `$$`, `$&`, `` $` `` and `$'` in it. | Member `1` with display name `$&` and message `<@1>`. The prompt gets `"@<@1>"`. | The name inserted as written, `"@$&"`, as with a replacer function. | not executed | Mentions.DollarAmpersandExpands | Mentions.MentionReplaced |

The corrected definitions are `Chunker.HardCutSpans`, which always
terminates and covers the text, and `Mentions.LiteralReplaceAll` /
`Mentions.LiteralTranslate`, which put each mention's replacement in place
as written. `Chunker.HardCutAgrees` proves that the corrected chunker cuts
the same spans as the code wherever the code terminates.
`Mentions.TranslateAgreesWithoutDollar` proves that the literal translation
equals the code's wherever no name holds `$`. On those inputs, the pipeline
methods therefore compute the corrected behaviour.
