/** Inbound mention translation: before a message goes to the model, every
    user mention `<@id>` or `<@!id>` of a cached member becomes
    `"@displayName"` and every channel mention `<#id>` of a cached channel
    becomes `"#name"`, one member and then one channel at a time.

    Each replacement is a global regular-expression `String.prototype.replace`
    whose replacement argument is a string. JavaScript expands the patterns
    `$$`, `$&`, `` $` `` and `$'` in such a string, so a display name that
    contains them is not inserted as written. `JsReplaceAll` models the call
    as it behaves; `LiteralReplaceAll` is the insertion the code evidently
    intends, and the two agree whenever the replacement holds no `$`. */
module Mentions {

  /** A cached guild member: its snowflake identifier and display name. */
  datatype Member = Member(id: string, displayName: string)

  /** A cached guild channel: its snowflake identifier and name. */
  datatype Channel = Channel(id: string, name: string)

  /** The regular expressions built from an identifier:
      `<@!?${id}>` and `<#${id}>`. */
  datatype Pattern = UserMention(id: string) | ChannelMention(id: string)

  /** Discord identifiers are decimal digit strings, so the identifier
      spliced into a regular expression matches only itself. */
  predicate IsSnowflake(id: string)
  {
    |id| > 0 && forall k :: 0 <= k < |id| ==> '0' <= id[k] <= '9'
  }

  /** Length of the match of `p` at the very start of `t`, or 0 when `p`
      does not match there. The optional `!` is tried first, as the
      greedy `!?` does, and the match without it is tried when that fails. */
  function MatchLength(t: string, p: Pattern): (n: nat)
    ensures n <= |t|
    ensures n > 0 ==> t[0] == '<'
  {
    if |t| < 2 || t[0] != '<' then 0
    else match p
      case UserMention(id) =>
        if t[1] != '@' then 0
        else if |t| >= |id| + 4 && t[2] == '!' && t[3..3 + |id|] == id && t[3 + |id|] == '>' then |id| + 4
        else if |t| >= |id| + 3 && t[2..2 + |id|] == id && t[2 + |id|] == '>' then |id| + 3
        else 0
      case ChannelMention(id) =>
        if t[1] == '#' && |t| >= |id| + 3 && t[2..2 + |id|] == id && t[2 + |id|] == '>' then |id| + 3
        else 0
  }

  /** What the match length says: which of the mention forms `t` starts
      with, the `<@!` form winning. */
  lemma MatchLengthMeans(t: string, p: Pattern)
    ensures var n := MatchLength(t, p);
      && (p.UserMention? ==>
        && (n == |p.id| + 4 <==> "<@!" + p.id + ">" <= t)
        && (n == |p.id| + 3 <==> !("<@!" + p.id + ">" <= t) && "<@" + p.id + ">" <= t)
        && (n == 0 <==> !("<@!" + p.id + ">" <= t) && !("<@" + p.id + ">" <= t)))
      && (p.ChannelMention? ==>
        && (n == |p.id| + 3 <==> "<#" + p.id + ">" <= t)
        && (n == 0 <==> !("<#" + p.id + ">" <= t)))
  {
    match p
    case UserMention(id) =>
      TokenPrefix(t, "<@!", id);
      TokenPrefix(t, "<@", id);
    case ChannelMention(id) =>
      TokenPrefix(t, "<#", id);
  }

  /** `t` starts with the token `open + id + ">"` exactly when its
      characters are those of the token, piece by piece. */
  lemma TokenPrefix(t: string, open: string, id: string)
    ensures open + id + ">" <= t <==>
      && |t| >= |open| + |id| + 1
      && t[..|open|] == open
      && t[|open|..|open| + |id|] == id
      && t[|open| + |id|] == '>'
  {
    var tok := open + id + ">";
    if tok <= t {
      assert t[..|tok|] == tok;
      assert t[..|open|] == tok[..|open|] == open;
      assert t[|open|..|open| + |id|] == tok[|open|..|open| + |id|] == id;
      assert t[|open| + |id|] == tok[|open| + |id|];
    }
  }

  /** GetSubstitution: the text that replaces one match. `$$` is a `$`,
      `$&` the match, `` $` `` the text before it and `$'` the text after
      it; any other `$` stands for itself, since the patterns have no
      capture groups. */
  function Substitute(rep: string, matched: string, before: string, after: string): string
    decreases |rep|
  {
    if rep == [] then []
    else if rep[0] == '$' && |rep| >= 2 && rep[1] in {'$', '&', '`', '\''} then
      var expansion :=
        if rep[1] == '$' then "$"
        else if rep[1] == '&' then matched
        else if rep[1] == '`' then before
        else after;
      expansion + Substitute(rep[2..], matched, before, after)
    else [rep[0]] + Substitute(rep[1..], matched, before, after)
  }

  /** A replacement string without `$` is inserted as written. */
  lemma {:induction false} SubstituteLiteral(rep: string, matched: string, before: string, after: string)
    requires '$' !in rep
    ensures Substitute(rep, matched, before, after) == rep
    decreases |rep|
  {
    if rep != [] {
      assert rep[0] != '$';
      assert '$' !in rep[1..];
      SubstituteLiteral(rep[1..], matched, before, after);
      assert rep == [rep[0]] + rep[1..];
    }
  }

  /** The global replace over the rest `t` of the string, `before` being
      the part already scanned: at each position the pattern is tried, a
      match is substituted and skipped, and otherwise one character is
      copied. The `$`-patterns see the original string, not the text
      substituted so far. */
  function ReplaceRest(before: string, t: string, p: Pattern, rep: string): string
    decreases |t|
  {
    if t == [] then []
    else
      var n := MatchLength(t, p);
      if n > 0 then Substitute(rep, t[..n], before, t[n..]) + ReplaceRest(before + t[..n], t[n..], p, rep)
      else [t[0]] + ReplaceRest(before + [t[0]], t[1..], p, rep)
  }

  /** `s.replace(new RegExp(pattern, 'g'), rep)` as JavaScript evaluates it. */
  function JsReplaceAll(s: string, p: Pattern, rep: string): string
  {
    ReplaceRest([], s, p, rep)
  }

  /** Every match of `p` in `t` replaced by `rep` as written. */
  function LiteralReplaceAll(t: string, p: Pattern, rep: string): string
    decreases |t|
  {
    if t == [] then []
    else
      var n := MatchLength(t, p);
      if n > 0 then rep + LiteralReplaceAll(t[n..], p, rep)
      else [t[0]] + LiteralReplaceAll(t[1..], p, rep)
  }

  /** The JavaScript replace inserts the replacement as written whenever it
      holds no `$`. */
  lemma ReplaceAgreesWithoutDollar(s: string, p: Pattern, rep: string)
    requires '$' !in rep
    ensures JsReplaceAll(s, p, rep) == LiteralReplaceAll(s, p, rep)
  {
    ReplaceRestAgrees([], s, p, rep);
  }

  lemma {:induction false} ReplaceRestAgrees(before: string, t: string, p: Pattern, rep: string)
    requires '$' !in rep
    ensures ReplaceRest(before, t, p, rep) == LiteralReplaceAll(t, p, rep)
    decreases |t|
  {
    if t != [] {
      var n := MatchLength(t, p);
      if n > 0 {
        SubstituteLiteral(rep, t[..n], before, t[n..]);
        ReplaceRestAgrees(before + t[..n], t[n..], p, rep);
      } else {
        ReplaceRestAgrees(before + [t[0]], t[1..], p, rep);
      }
    }
  }

  /** No match of `p` starts at any position of `a` when `b` follows it. */
  predicate NoMatchBefore(a: string, b: string, p: Pattern)
  {
    forall k :: 0 <= k < |a| ==> MatchLength((a + b)[k..], p) == 0
  }

  /** Text that holds no `<` cannot start a match, whatever follows it. */
  lemma PlainTextNoMatch(a: string, b: string, p: Pattern)
    requires '<' !in a
    ensures NoMatchBefore(a, b, p)
  {
    forall k | 0 <= k < |a|
      ensures MatchLength((a + b)[k..], p) == 0
    {
      assert (a + b)[k..][0] == a[k];
    }
  }

  /** A mention is replaced in place: the text before it, where no match
      starts, is kept, the mention itself becomes `rep`, and the scan
      carries on after it. */
  lemma MentionReplaced(a: string, b: string, p: Pattern, rep: string)
    requires NoMatchBefore(a, b, p)
    requires MatchLength(b, p) > 0
    ensures LiteralReplaceAll(a + b, p, rep) ==
      a + rep + LiteralReplaceAll(b[MatchLength(b, p)..], p, rep)
  {
    UnmatchedPrefixCopied(a, b, p, rep);
    MatchStep(b, p, rep);
  }

  /** Text in front of the rest where no match starts is copied as it is. */
  lemma UnmatchedPrefixCopied(a: string, b: string, p: Pattern, rep: string)
    requires NoMatchBefore(a, b, p)
    ensures LiteralReplaceAll(a + b, p, rep) == a + LiteralReplaceAll(b, p, rep)
  {
    NoMatchScanned(a, b, p);
    ScannedPrefixCopied(a, b, p, rep);
  }

  /** `NoMatchBefore`, position by position from the front. */
  predicate NoMatchFromFront(a: string, b: string, p: Pattern)
    decreases |a|
  {
    a == [] || (MatchLength(a + b, p) == 0 && NoMatchFromFront(a[1..], b, p))
  }

  lemma {:induction false} NoMatchScanned(a: string, b: string, p: Pattern)
    requires NoMatchBefore(a, b, p)
    ensures NoMatchFromFront(a, b, p)
    decreases |a|
  {
    if a != [] {
      NoMatchBeforeTail(a, b, p);
      NoMatchScanned(a[1..], b, p);
    }
  }

  lemma {:induction false} ScannedPrefixCopied(a: string, b: string, p: Pattern, rep: string)
    requires NoMatchFromFront(a, b, p)
    ensures LiteralReplaceAll(a + b, p, rep) == a + LiteralReplaceAll(b, p, rep)
    decreases |a|
  {
    if a == [] {
      assert a + b == b;
    } else {
      PrefixStep(a, b, p, rep);
      ScannedPrefixCopied(a[1..], b, p, rep);
      ConsAppend(a, LiteralReplaceAll(b, p, rep));
    }
  }

  lemma ConsAppend(a: string, x: string)
    requires a != []
    ensures [a[0]] + (a[1..] + x) == a + x
  {
    assert a == [a[0]] + a[1..];
  }

  /** One step of the scan over `a` in front of `b`, where no match starts. */
  lemma PrefixStep(a: string, b: string, p: Pattern, rep: string)
    requires a != [] && MatchLength(a + b, p) == 0
    ensures LiteralReplaceAll(a + b, p, rep) == [a[0]] + LiteralReplaceAll(a[1..] + b, p, rep)
  {
    var t := a + b;
    NoMatchStep(t, p, rep);
    assert t[0] == a[0] && t[1..] == a[1..] + b;
  }

  /** No match at the head of `a + b`, and none starts in the rest of `a`. */
  lemma NoMatchBeforeTail(a: string, b: string, p: Pattern)
    requires a != [] && NoMatchBefore(a, b, p)
    ensures MatchLength(a + b, p) == 0
    ensures NoMatchBefore(a[1..], b, p)
  {
    assert (a + b)[0..] == a + b;
    forall k | 0 <= k < |a[1..]|
      ensures MatchLength((a[1..] + b)[k..], p) == 0
    {
      assert (a[1..] + b)[k..] == (a + b)[k + 1..];
    }
  }

  /** One step of the scan at a match. */
  lemma MatchStep(t: string, p: Pattern, rep: string)
    requires MatchLength(t, p) > 0
    ensures LiteralReplaceAll(t, p, rep) == rep + LiteralReplaceAll(t[MatchLength(t, p)..], p, rep)
  {
  }

  /** One step of the scan where the pattern does not match. */
  lemma NoMatchStep(t: string, p: Pattern, rep: string)
    requires t != [] && MatchLength(t, p) == 0
    ensures LiteralReplaceAll(t, p, rep) == [t[0]] + LiteralReplaceAll(t[1..], p, rep)
  {
  }

  // ---- The two passes ----------------------------------------------------

  /** `"@${member.displayName}"` */
  function MemberReplacement(m: Member): string
  {
    "\"@" + m.displayName + "\""
  }

  /** `"#${channel.name}"` */
  function ChannelReplacement(c: Channel): string
  {
    "\"#" + c.name + "\""
  }

  /** The member pass over the first members, one replace per member in
      cache order. */
  function MembersApplied(t: string, members: seq<Member>): string
    decreases |members|
  {
    if members == [] then t
    else
      var m := members[|members| - 1];
      JsReplaceAll(MembersApplied(t, members[..|members| - 1]), UserMention(m.id), MemberReplacement(m))
  }

  /** The channel pass, likewise. */
  function ChannelsApplied(t: string, channels: seq<Channel>): string
    decreases |channels|
  {
    if channels == [] then t
    else
      var c := channels[|channels| - 1];
      JsReplaceAll(ChannelsApplied(t, channels[..|channels| - 1]), ChannelMention(c.id), ChannelReplacement(c))
  }

  /** Lines 145-151: the members pass, then the channels pass. */
  function Translate(content: string, members: seq<Member>, channels: seq<Channel>): string
  {
    ChannelsApplied(MembersApplied(content, members), channels)
  }

  /** Lines 145-151. */
  method TranslateInbound(content: string, members: seq<Member>, channels: seq<Channel>) returns (prompt: string)
    requires forall i :: 0 <= i < |members| ==> IsSnowflake(members[i].id)
    requires forall i :: 0 <= i < |channels| ==> IsSnowflake(channels[i].id)
    ensures prompt == Translate(content, members, channels)
  {
    prompt := content;
    for i := 0 to |members|
      invariant prompt == MembersApplied(content, members[..i])
    {
      var member := members[i];
      prompt := JsReplaceAll(prompt, UserMention(member.id), MemberReplacement(member));
      assert members[..i + 1][..i] == members[..i];
    }
    assert members[..|members|] == members;
    ghost var afterMembers := prompt;
    for i := 0 to |channels|
      invariant prompt == ChannelsApplied(afterMembers, channels[..i])
    {
      var channel := channels[i];
      prompt := JsReplaceAll(prompt, ChannelMention(channel.id), ChannelReplacement(channel));
      assert channels[..i + 1][..i] == channels[..i];
    }
    assert channels[..|channels|] == channels;
  }

  // ---- The intended translation -------------------------------------------

  /** The member pass inserting each display name as written. */
  function LiteralMembersApplied(t: string, members: seq<Member>): string
    decreases |members|
  {
    if members == [] then t
    else
      var m := members[|members| - 1];
      LiteralReplaceAll(LiteralMembersApplied(t, members[..|members| - 1]), UserMention(m.id), MemberReplacement(m))
  }

  /** The channel pass inserting each channel name as written. */
  function LiteralChannelsApplied(t: string, channels: seq<Channel>): string
    decreases |channels|
  {
    if channels == [] then t
    else
      var c := channels[|channels| - 1];
      LiteralReplaceAll(LiteralChannelsApplied(t, channels[..|channels| - 1]), ChannelMention(c.id), ChannelReplacement(c))
  }

  /** The translation the code evidently intends. */
  function LiteralTranslate(content: string, members: seq<Member>, channels: seq<Channel>): string
  {
    LiteralChannelsApplied(LiteralMembersApplied(content, members), channels)
  }

  /** The translation as written is the intended one whenever no member's
      display name and no channel's name holds a `$`. */
  lemma TranslateAgreesWithoutDollar(content: string, members: seq<Member>, channels: seq<Channel>)
    requires forall i :: 0 <= i < |members| ==> '$' !in members[i].displayName
    requires forall i :: 0 <= i < |channels| ==> '$' !in channels[i].name
    ensures Translate(content, members, channels) == LiteralTranslate(content, members, channels)
  {
    MembersAgree(content, members);
    ChannelsAgree(MembersApplied(content, members), channels);
  }

  lemma {:induction false} MembersAgree(t: string, members: seq<Member>)
    requires forall i :: 0 <= i < |members| ==> '$' !in members[i].displayName
    ensures MembersApplied(t, members) == LiteralMembersApplied(t, members)
    decreases |members|
  {
    if members != [] {
      var m := members[|members| - 1];
      var init := members[..|members| - 1];
      assert forall i :: 0 <= i < |init| ==> init[i] == members[i];
      MembersAgree(t, init);
      assert '$' !in MemberReplacement(m);
      ReplaceAgreesWithoutDollar(MembersApplied(t, init), UserMention(m.id), MemberReplacement(m));
    }
  }

  lemma {:induction false} ChannelsAgree(t: string, channels: seq<Channel>)
    requires forall i :: 0 <= i < |channels| ==> '$' !in channels[i].name
    ensures ChannelsApplied(t, channels) == LiteralChannelsApplied(t, channels)
    decreases |channels|
  {
    if channels != [] {
      var c := channels[|channels| - 1];
      var init := channels[..|channels| - 1];
      assert forall i :: 0 <= i < |init| ==> init[i] == channels[i];
      ChannelsAgree(t, init);
      assert '$' !in ChannelReplacement(c);
      ReplaceAgreesWithoutDollar(ChannelsApplied(t, init), ChannelMention(c.id), ChannelReplacement(c));
    }
  }

  // ---- Properties --------------------------------------------------------

  /** A message without `<` holds no mention and reaches the model as it
      was written. */
  lemma TranslateKeepsPlainText(content: string, members: seq<Member>, channels: seq<Channel>)
    requires '<' !in content
    ensures Translate(content, members, channels) == content
  {
    MembersKeepPlainText(content, members);
    ChannelsKeepPlainText(content, channels);
  }

  lemma {:induction false} MembersKeepPlainText(t: string, members: seq<Member>)
    requires '<' !in t
    ensures MembersApplied(t, members) == t
    decreases |members|
  {
    if members != [] {
      var m := members[|members| - 1];
      MembersKeepPlainText(t, members[..|members| - 1]);
      ReplaceKeepsPlainText(t, UserMention(m.id), MemberReplacement(m));
    }
  }

  lemma {:induction false} ChannelsKeepPlainText(t: string, channels: seq<Channel>)
    requires '<' !in t
    ensures ChannelsApplied(t, channels) == t
    decreases |channels|
  {
    if channels != [] {
      var c := channels[|channels| - 1];
      ChannelsKeepPlainText(t, channels[..|channels| - 1]);
      ReplaceKeepsPlainText(t, ChannelMention(c.id), ChannelReplacement(c));
    }
  }

  /** The JavaScript replace leaves text without `<` alone, whatever the
      replacement string holds. */
  lemma ReplaceKeepsPlainText(t: string, p: Pattern, rep: string)
    requires '<' !in t
    ensures JsReplaceAll(t, p, rep) == t
  {
    ReplaceRestUntouched([], t, p, rep);
  }

  lemma {:induction false} ReplaceRestUntouched(before: string, t: string, p: Pattern, rep: string)
    requires '<' !in t
    ensures ReplaceRest(before, t, p, rep) == t
    decreases |t|
  {
    if t != [] {
      assert '<' !in t[1..];
      ReplaceRestUntouched(before + [t[0]], t[1..], p, rep);
      assert t == [t[0]] + t[1..];
    }
  }

  /** A single mention of a member, alone in a message, becomes the quoted
      display name when that name holds no `$`. */
  lemma MemberMentionTranslated(m: Member)
    requires '$' !in m.displayName
    ensures JsReplaceAll("<@" + m.id + ">", UserMention(m.id), MemberReplacement(m)) == MemberReplacement(m)
  {
    var t := "<@" + m.id + ">";
    var rep := MemberReplacement(m);
    assert '$' !in rep;
    ReplaceAgreesWithoutDollar(t, UserMention(m.id), rep);
    assert |"<@!" + m.id + ">"| > |t|;
    assert MatchLength(t, UserMention(m.id)) == |t|;
    assert t[|t|..] == [];
    assert ([] + rep) + [] == rep;
  }

  /** As written, a display name `$&` does not reach the prompt: the
      replace puts the matched mention back in its place. */
  lemma DollarAmpersandExpands()
    ensures JsReplaceAll("<@1>", UserMention("1"), MemberReplacement(Member("1", "$&"))) == "\"@<@1>\""
    ensures LiteralReplaceAll("<@1>", UserMention("1"), MemberReplacement(Member("1", "$&"))) == "\"@$&\""
  {
    var t := "<@1>";
    var p := UserMention("1");
    assert MatchLength(t, p) == 4;
    assert t[..4] == t && t[4..] == [];
    assert Substitute("\"", t, [], []) == "\"";
    assert Substitute("$&\"", t, [], []) == t + "\"";
    assert Substitute("@$&\"", t, [], []) == "@" + t + "\"";
    assert Substitute("\"@$&\"", t, [], []) == "\"@" + t + "\"";
    assert LiteralReplaceAll(t[4..], p, "\"@$&\"") == [];
  }
}
