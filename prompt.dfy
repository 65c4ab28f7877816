/** The text sent to the model for one incoming message (lines 143-155):
    the author's display name and the channel name in a header, then the
    message with its mentions translated, then the blocks of the readable
    attachments. */
module Prompt {
  import opened Mentions
  import opened Attachments

  /** `[${displayName}'s Message In #${channelName} Channel]: ` */
  function Header(displayName: string, channelName: string): string
  {
    "[" + displayName + "'s Message In #" + channelName + " Channel]: "
  }

  /** Lines 143-155: the prompt passed to `extractText` is the header and
      the translated message; `extractText` appends the attachments. */
  method ComposePrompt(content: string, displayName: string, channelName: string,
                       members: seq<Member>, channels: seq<Channel>, attachments: seq<Attachment>)
    returns (prompt: string)
    requires forall i :: 0 <= i < |members| ==> IsSnowflake(members[i].id)
    requires forall i :: 0 <= i < |channels| ==> IsSnowflake(channels[i].id)
    ensures prompt == Header(displayName, channelName) + Translate(content, members, channels) + Contributions(attachments)
  {
    prompt := TranslateInbound(content, members, channels);
    prompt := Header(displayName, channelName) + prompt;
    prompt := ExtractText(attachments, prompt);
  }

  /** A message without `<` and without readable attachments reaches the
      model as the header followed by the message exactly as written. */
  lemma PlainMessagePrompt(content: string, displayName: string, channelName: string,
                           members: seq<Member>, channels: seq<Channel>, attachments: seq<Attachment>)
    requires '<' !in content
    requires forall i :: 0 <= i < |attachments| ==> !(Allowed(attachments[i].name) && attachments[i].download.Fetched?)
    ensures Header(displayName, channelName) + Translate(content, members, channels) + Contributions(attachments)
      == Header(displayName, channelName) + content
  {
    TranslateKeepsPlainText(content, members, channels);
    UnchangedIff(attachments);
    var h := Header(displayName, channelName) + content;
    assert h + "" == h;
  }

  /** The header names the author and the channel and ends in `]: `; the
      message starts right after it. */
  lemma HeaderFrames(displayName: string, channelName: string, rest: string)
    ensures var h := Header(displayName, channelName);
      && h[0] == '['
      && h[1..1 + |displayName|] == displayName
      && h[|h| - 3..] == "]: "
      && (h + rest)[|h|..] == rest
  {
    var h := Header(displayName, channelName);
    assert h == "[" + (displayName + ("'s Message In #" + channelName + " Channel]: "));
  }
}
