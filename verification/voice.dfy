/**
 * The voice-state log (mothy_events/src/voice/mod.rs): a voice-state
 * update is classified as a join, a leave or a switch of channel and
 * logged to the guild's voice-log channel; staying in the same channel
 * logs nothing.
 */
module Voice {
  import opened Wrappers
  import opened Ints
  import opened Text

  /** The part of a platform voice state the handler reads. */
  datatype VoiceState = VoiceState(
    userId: u64,
    guildId: Option<u64>,
    channelId: Option<u64>,
    memberName: Option<string>)

  datatype Transition = Join | Leave | Switch

  /** The embed colour: positive for a join, negative for a leave, neutral for a switch. */
  datatype Tone = PositiveTone | NegativeTone | NeutralTone

  /** The logged embed, without its avatar icon and timestamp. */
  datatype LogEmbed = LogEmbed(author: string, tone: Tone, description: string, footer: string)

  /** The send failed; the error is returned to the caller. */
  datatype SendError = SendError

  /** What the handler does: the message it sends (log channel and embed), and its result. */
  datatype Outcome = Outcome(sent: Option<(u64, LogEmbed)>, result: Result<(), SendError>)

  /** `Option::unwrap_or_default` on an id. */
  function IdOrZero(id: Option<u64>): u64
  {
    if id.Some? then id.value else 0
  }

  /** The match on the old state and the new channel; `None` is the early return for an unchanged channel. */
  function Classify(oldState: Option<VoiceState>, newState: VoiceState): (t: Option<Transition>)
    ensures oldState.None? ==> t == Some(Join)
    ensures oldState.Some? && newState.channelId.None? ==> t == Some(Leave)
    ensures oldState.Some? && newState.channelId.Some? ==> (t == Some(Switch) <==> oldState.value.channelId != newState.channelId)
    ensures t.None? <==> oldState.Some? && newState.channelId.Some? && oldState.value.channelId == newState.channelId
  {
    match (oldState, newState.channelId)
    case (None, _) => Some(Join)
    case (Some(_), None) => Some(Leave)
    case (Some(o), Some(c)) => if o.channelId != Some(c) then Some(Switch) else None
  }

  /** The author line: the member's name, or "Unknown". */
  function Username(newState: VoiceState): string
  {
    if newState.memberName.Some? then newState.memberName.value else "Unknown"
  }

  /** The mention `m` in brackets. */
  function Bracketed(m: string): string
  {
    "<" + m + ">"
  }

  /** `<@id>` */
  function UserMention(newState: VoiceState): string
  {
    Bracketed("@" + NatToString(newState.userId))
  }

  /** `<#id>`, with 0 for a missing channel. */
  function ChannelMention(id: Option<u64>): string
  {
    Bracketed("#" + NatToString(IdOrZero(id)))
  }

  function Footer(newState: VoiceState): string
  {
    "ID: " + NatToString(newState.userId)
  }

  /** The separators around a mention. */
  const BRACKETS: set<char> := {'<', '>'}

  /** The texts between each '<' and the following '>': the mentions a description makes, in order. */
  function Mentions(d: string): seq<string>
  {
    var p := Split(d, BRACKETS);
    seq(|p| / 2, i requires 0 <= i < |p| / 2 => p[2 * i + 1])
  }

  /** A mention's kind ('@' a user, '#' a channel) and the id after it. */
  function ReadMention(m: string): Option<(char, nat)>
  {
    if |m| == 0 then None
    else match ParseNat(m[1..])
      case Some(id) => Some((m[0], id))
      case None => None
  }

  /** What a description mentions: the kind and id of every mention, in order. */
  function MentionedIds(d: string): seq<Option<(char, nat)>>
  {
    var ms := Mentions(d);
    seq(|ms|, i requires 0 <= i < |ms| => ReadMention(ms[i]))
  }

  /** A mention of kind `kind` and id `id`, without its brackets, reads back as both. */
  lemma {:induction false} MentionReadsBack(kind: char, id: nat)
    requires kind !in BRACKETS && !IsDigit(kind)
    ensures FreeOf([kind] + NatToString(id), BRACKETS)
    ensures ReadMention([kind] + NatToString(id)) == Some((kind, id))
  {
    ParseNatToString(id);
    assert ([kind] + NatToString(id))[1..] == NatToString(id);
  }

  /** A text free of brackets, then a bracketed mention, gives two pieces: the text and the mention. */
  lemma {:induction false} TextThenMention(b: string, m: string, rest: string)
    requires FreeOf(b, BRACKETS) && FreeOf(m, BRACKETS)
    ensures Split(b + (Bracketed(m) + rest), BRACKETS) == [b, m] + Split(rest, BRACKETS)
  {
    assert b + (Bracketed(m) + rest) == b + ['<'] + (m + ['>'] + rest);
    SplitFreeThen(b, '<', m + ['>'] + rest, BRACKETS);
    SplitFreeThen(m, '>', rest, BRACKETS);
  }

  /** A description that opens with a mention has an empty first piece. */
  lemma {:induction false} MentionFirst(m: string, rest: string)
    requires FreeOf(m, BRACKETS)
    ensures Split(Bracketed(m) + rest, BRACKETS) == ["", m] + Split(rest, BRACKETS)
  {
    assert Bracketed(m) + rest == "" + (Bracketed(m) + rest);
    TextThenMention("", m, rest);
  }

  /** A description that closes with a mention has an empty last piece. */
  lemma {:induction false} MentionLast(b: string, m: string)
    requires FreeOf(b, BRACKETS) && FreeOf(m, BRACKETS)
    ensures Split(b + Bracketed(m), BRACKETS) == [b, m, ""]
  {
    assert b + Bracketed(m) == b + (Bracketed(m) + "");
    TextThenMention(b, m, "");
  }

  /** A description made of a mention, a free text and a mention, mentions the two. */
  lemma {:induction false} TwoMentions(m1: string, b: string, m2: string)
    requires FreeOf(m1, BRACKETS) && FreeOf(b, BRACKETS) && FreeOf(m2, BRACKETS)
    ensures MentionedIds(Bracketed(m1) + b + Bracketed(m2)) == [ReadMention(m1), ReadMention(m2)]
  {
    var d := Bracketed(m1) + b + Bracketed(m2);
    assert d == Bracketed(m1) + (b + Bracketed(m2));
    MentionFirst(m1, b + Bracketed(m2));
    MentionLast(b, m2);
    assert Split(d, BRACKETS) == ["", m1, b, m2, ""];
  }

  /** A description made of three mentions with free texts between them, mentions the three. */
  lemma {:induction false} ThreeMentions(m1: string, b: string, m2: string, c: string, m3: string)
    requires FreeOf(m1, BRACKETS) && FreeOf(b, BRACKETS) && FreeOf(m2, BRACKETS)
    requires FreeOf(c, BRACKETS) && FreeOf(m3, BRACKETS)
    ensures MentionedIds(Bracketed(m1) + b + Bracketed(m2) + c + Bracketed(m3))
            == [ReadMention(m1), ReadMention(m2), ReadMention(m3)]
  {
    var d := Bracketed(m1) + b + Bracketed(m2) + c + Bracketed(m3);
    assert d == Bracketed(m1) + (b + (Bracketed(m2) + (c + Bracketed(m3))));
    MentionFirst(m1, b + (Bracketed(m2) + (c + Bracketed(m3))));
    TextThenMention(b, m2, c + Bracketed(m3));
    MentionLast(c, m3);
    assert Split(d, BRACKETS) == ["", m1, b, m2, c, m3, ""];
  }

  /** `handle_join`: mentions the user, then the channel joined. */
  function HandleJoin(newState: VoiceState): (r: LogEmbed)
    ensures r.tone == PositiveTone && r.author == Username(newState)
    ensures MentionedIds(r.description) == [Some(('@', newState.userId as nat)), Some(('#', IdOrZero(newState.channelId) as nat))]
  {
    MentionReadsBack('@', newState.userId);
    MentionReadsBack('#', IdOrZero(newState.channelId));
    TwoMentions("@" + NatToString(newState.userId), " joined the voice channel ", "#" + NatToString(IdOrZero(newState.channelId)));
    LogEmbed(Username(newState), PositiveTone,
             UserMention(newState) + " joined the voice channel " + ChannelMention(newState.channelId), Footer(newState))
  }

  /** `handle_leave`: mentions the user, then the channel left. */
  function HandleLeave(oldState: VoiceState, newState: VoiceState): (r: LogEmbed)
    ensures r.tone == NegativeTone && r.author == Username(newState)
    ensures MentionedIds(r.description) == [Some(('@', newState.userId as nat)), Some(('#', IdOrZero(oldState.channelId) as nat))]
  {
    MentionReadsBack('@', newState.userId);
    MentionReadsBack('#', IdOrZero(oldState.channelId));
    TwoMentions("@" + NatToString(newState.userId), " left the voice channel ", "#" + NatToString(IdOrZero(oldState.channelId)));
    LogEmbed(Username(newState), NegativeTone,
             UserMention(newState) + " left the voice channel " + ChannelMention(oldState.channelId), Footer(newState))
  }

  /** `handle_switch`: mentions the user, then the channel left, then the channel joined. */
  function HandleSwitch(oldState: VoiceState, newState: VoiceState): (r: LogEmbed)
    ensures r.tone == NeutralTone && r.author == Username(newState)
    ensures MentionedIds(r.description) == [Some(('@', newState.userId as nat)),
                                            Some(('#', IdOrZero(oldState.channelId) as nat)),
                                            Some(('#', IdOrZero(newState.channelId) as nat))]
  {
    MentionReadsBack('@', newState.userId);
    MentionReadsBack('#', IdOrZero(oldState.channelId));
    MentionReadsBack('#', IdOrZero(newState.channelId));
    ThreeMentions("@" + NatToString(newState.userId), " switched voice channel from ",
                  "#" + NatToString(IdOrZero(oldState.channelId)), " to ", "#" + NatToString(IdOrZero(newState.channelId)));
    LogEmbed(Username(newState), NeutralTone,
             UserMention(newState) + " switched voice channel from " + ChannelMention(oldState.channelId)
             + " to " + ChannelMention(newState.channelId), Footer(newState))
  }

  /** The embed for a transition. */
  function EmbedFor(t: Transition, oldState: Option<VoiceState>, newState: VoiceState): LogEmbed
    requires t != Join ==> oldState.Some?
  {
    match t
    case Join => HandleJoin(newState)
    case Leave => HandleLeave(oldState.value, newState)
    case Switch => HandleSwitch(oldState.value, newState)
  }

  /**
   * `voice_state_update`: the log channel is looked up under the guild id
   * (0 when absent); `sendSucceeds` is the outcome of the platform call.
   */
  function VoiceStateUpdate(voiceLogsChannel: map<u64, u64>, oldState: Option<VoiceState>, newState: VoiceState,
                            sendSucceeds: bool): (o: Outcome)
    ensures Classify(oldState, newState).None? ==> o == Outcome(None, Ok(()))
    ensures o.sent.Some? <==> Classify(oldState, newState).Some? && IdOrZero(newState.guildId) in voiceLogsChannel
    ensures o.sent.Some? ==> o.sent.value.0 == voiceLogsChannel[IdOrZero(newState.guildId)]
    ensures o.result.Err? <==> o.sent.Some? && !sendSucceeds
  {
    match Classify(oldState, newState)
    case None => Outcome(None, Ok(()))
    case Some(t) =>
      var embed := EmbedFor(t, oldState, newState);
      var key := IdOrZero(newState.guildId);
      if key in voiceLogsChannel then
        Outcome(Some((voiceLogsChannel[key], embed)), if sendSucceeds then Ok(()) else Err(SendError))
      else Outcome(None, Ok(()))
  }

  /** The embed sent names the transition by its colour: join, leave and switch each have their own. */
  lemma ToneNamesTransition(voiceLogsChannel: map<u64, u64>, oldState: Option<VoiceState>, newState: VoiceState, sendSucceeds: bool)
    requires VoiceStateUpdate(voiceLogsChannel, oldState, newState, sendSucceeds).sent.Some?
    ensures var tone := VoiceStateUpdate(voiceLogsChannel, oldState, newState, sendSucceeds).sent.value.1.tone;
            && (tone == PositiveTone <==> oldState.None?)
            && (tone == NegativeTone <==> oldState.Some? && newState.channelId.None?)
            && (tone == NeutralTone <==> oldState.Some? && newState.channelId.Some? && oldState.value.channelId != newState.channelId)
  {
  }

  /** Every logged embed is attributed to the user in the new state. */
  lemma LogNamesUser(voiceLogsChannel: map<u64, u64>, oldState: Option<VoiceState>, newState: VoiceState, sendSucceeds: bool)
    requires VoiceStateUpdate(voiceLogsChannel, oldState, newState, sendSucceeds).sent.Some?
    ensures var e := VoiceStateUpdate(voiceLogsChannel, oldState, newState, sendSucceeds).sent.value.1;
            && e.footer == "ID: " + NatToString(newState.userId)
            && e.description[..|UserMention(newState)|] == UserMention(newState)
            && e.author == Username(newState)
  {
  }
}
