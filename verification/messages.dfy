/**
 * The message handler and its moderation filters
 * (mothy_events/src/messages/mod.rs). Regex matching is an oracle `find`;
 * the platform's delete and send calls are recorded as `Action`s, and
 * whether each succeeds is an input.
 */
module Messages {
  import opened Wrappers
  import opened Ints
  import opened Text
  import opened DatabaseModels

  /** The process-wide configuration the handler reads. */
  datatype Config = Config(
    filtersAllowedGuilds: seq<u64>,
    filterBypassRoles: seq<u64>,
    blacklistLogsChannel: map<u64, u64>)   // guild id -> log channel id

  datatype Attachment = Attachment(filename: string, contentType: Option<string>)
  datatype Embed = Embed(kind: Option<string>)
  datatype Member = Member(roles: seq<u64>)

  /**
   * A received message. `safeContent` is what `content_safe` renders from
   * the cache: the content with mentions shown as names.
   */
  datatype Message = Message(
    id: u64,
    guildId: Option<u64>,
    channelId: u64,
    authorId: u64,
    authorTag: string,
    content: string,
    safeContent: string,
    member: Option<Member>,
    attachments: seq<Attachment>,
    embeds: seq<Embed>)

  /** A guild role as the cache knows it; `colour` is an RGB `u32`. */
  datatype Role = Role(id: u64, colour: u32, position: int)

  /** The text of a regex match. */
  datatype Match = Match(text: string)

  /** One item of `captures_iter`: its groups, group 0 being the whole match. */
  datatype Captures = Captures(groups: seq<Option<string>>)

  /**
   * A request the handler makes of the chat platform. An audit entry goes
   * to the log channel `channelId`; it names the author and the channel the
   * message was deleted in, and holds the message text, the match and the
   * rule, each with its backticks escaped.
   */
  datatype Action =
    | DeleteMessage(messageId: u64)
    | SendAudit(channelId: u64, authorId: u64, deletedIn: u64, content: string, reason: string, rule: string)

  /** The error `regex_blacklist_filter` returns: a failed audit send, propagated by `?`. */
  datatype FilterError = SendFailed

  // ---------------------------------------------------------------- gate

  /** The author's roles; an author with no member record has none. */
  function UserRoles(msg: Message): seq<u64>
  {
    match msg.member
    case None => []
    case Some(m) => m.roles
  }

  /** `msg.guild_id.unwrap_or_default()`. */
  function GuildOrDefault(msg: Message): u64
  {
    match msg.guildId
    case None => 0
    case Some(g) => g
  }

  /** Filtering runs only in allow-listed guilds and for authors without a bypass role. */
  predicate FiltersApply(config: Config, msg: Message)
  {
    && GuildOrDefault(msg) in config.filtersAllowedGuilds
    && !(exists x :: x in config.filterBypassRoles && x in UserRoles(msg))
  }

  // ---------------------------------------------------------------- link buffer

  /** Group 0 of each capture that has one, in order: the link detector's whole matches. */
  function WholeMatches(caps: seq<Captures>): seq<string>
    decreases |caps|
  {
    if |caps| == 0 then []
    else
      var last := caps[|caps| - 1];
      WholeMatches(caps[..|caps| - 1])
        + (if |last.groups| > 0 && last.groups[0].Some? then [last.groups[0].value] else [])
  }

  /**
   * The candidate buffer of `regex_blacklist_filter`: a fold pushes group 0
   * of every capture into `acc`, which is then joined with "\n".
   */
  method LinkBuffer(caps: seq<Captures>) returns (links: string)
    ensures links == Join(WholeMatches(caps), "\n")
    ensures WholeMatches(caps) == [] ==> links == ""
  {
    var acc: seq<string> := [];
    for i := 0 to |caps|
      invariant acc == WholeMatches(caps[..i])
    {
      assert caps[..i + 1][..i] == caps[..i];
      var groups := caps[i].groups;
      if |groups| > 0 && groups[0].Some? {
        acc := acc + [groups[0].value];
      }
    }
    assert caps[..|caps|] == caps;
    links := Join(acc, "\n");
  }

  // ---------------------------------------------------------------- denylist scan

  /** The first pattern, in list order, that `find` matches in `links`, with its match. */
  function FirstMatch(patterns: seq<Pattern>, links: string, find: (Pattern, string) -> Option<Match>): (r: Option<(nat, Match)>)
    ensures r.Some? ==> r.value.0 < |patterns| && find(patterns[r.value.0], links) == Some(r.value.1)
    ensures r.Some? ==> forall j :: 0 <= j < r.value.0 ==> find(patterns[j], links).None?
    ensures r.None? ==> forall j :: 0 <= j < |patterns| ==> find(patterns[j], links).None?
    decreases |patterns|
  {
    if |patterns| == 0 then None
    else match find(patterns[0], links)
      case Some(m) => Some((0, m))
      case None =>
        match FirstMatch(patterns[1..], links, find)
        case None => None
        case Some(hit) => Some((hit.0 + 1, hit.1))
  }

  /** Backticks escaped, as `.replace("`", "\\`")` before a value goes into a code block. */
  function EscapeBackticks(s: string): (r: string)
    ensures forall c :: c != '`' && c != '\\' ==> (c in r <==> c in s)
  {
    ReplaceChar(s, '`', "\\`")
  }

  /** Escaping adds exactly one character, a backslash, per backtick. */
  lemma {:induction false} EscapeLength(s: string)
    ensures |EscapeBackticks(s)| == |s| + multiset(s)['`']
    decreases |s|
  {
    if |s| > 0 {
      assert s == [s[0]] + s[1..];
      assert multiset(s) == multiset([s[0]]) + multiset(s[1..]);
      EscapeLength(s[1..]);
    }
  }

  /** Undoes `EscapeBackticks`: a backslash directly before a backtick is dropped. */
  function UnescapeBackticks(t: string): string
    decreases |t|
  {
    if |t| == 0 then ""
    else if |t| >= 2 && t[0] == '\\' && t[1] == '`' then "`" + UnescapeBackticks(t[2..])
    else [t[0]] + UnescapeBackticks(t[1..])
  }

  /** Escaping a non-empty string never yields a leading backtick. */
  lemma EscapedHead(s: string)
    requires |s| > 0
    ensures EscapeBackticks(s)[0] != '`'
  {
  }

  /** Escaping loses nothing: unescaping gives the original text back. */
  lemma {:induction false} EscapeRoundTrip(s: string)
    ensures UnescapeBackticks(EscapeBackticks(s)) == s
    decreases |s|
  {
    if |s| > 0 {
      var e, tail := EscapeBackticks(s), EscapeBackticks(s[1..]);
      EscapeRoundTrip(s[1..]);
      if s[0] == '`' {
        assert e == "\\`" + tail;
        assert e[2..] == tail;
      } else {
        assert e == [s[0]] + tail;
        assert e[1..] == tail;
        if |tail| > 0 {
          EscapedHead(s[1..]);
        }
        assert s == [s[0]] + s[1..];
      }
    }
  }

  /**
   * Every backtick of the escaped text has a backslash before it, so no two
   * backticks are adjacent and the text cannot close the code block it is
   * put in.
   */
  lemma {:induction false} BackticksEscaped(s: string, i: nat)
    ensures var e := EscapeBackticks(s);
            i < |e| && e[i] == '`' ==> i > 0 && e[i - 1] == '\\'
    decreases |s|
  {
    if |s| > 0 {
      var e, tail := EscapeBackticks(s), EscapeBackticks(s[1..]);
      var h := if s[0] == '`' then "\\`" else [s[0]];
      assert e == h + tail;
      if |h| + 1 <= i < |e| {
        BackticksEscaped(s[1..], i - |h|);
        assert e[i] == tail[i - |h|] && e[i - 1] == tail[i - |h| - 1];
      }
    }
  }

  /** The audit entry for a message deleted because `rule` matched `m`. */
  function AuditFor(channel: u64, msg: Message, m: Match, rule: Pattern): Action
  {
    SendAudit(channel, msg.authorId, msg.channelId, EscapeBackticks(msg.safeContent),
              EscapeBackticks(m.text), EscapeBackticks(rule.source))
  }

  /**
   * What `regex_blacklist_filter` asks of the platform: nothing without a
   * match; otherwise one delete, then an audit entry if the delete
   * succeeded and the guild has a log channel.
   */
  function BlacklistActions(config: Config, patterns: seq<Pattern>, msg: Message, links: string,
                            find: (Pattern, string) -> Option<Match>, deleteSucceeds: bool): (r: seq<Action>)
    ensures r == [] <==> forall j :: 0 <= j < |patterns| ==> find(patterns[j], links).None?
    ensures r != [] ==> r[0] == DeleteMessage(msg.id)
    ensures |r| == 2 <==> r != [] && deleteSucceeds && GuildOrDefault(msg) in config.blacklistLogsChannel
  {
    match FirstMatch(patterns, links, find)
    case None => []
    case Some((i, m)) =>
      [DeleteMessage(msg.id)]
        + (if deleteSucceeds && GuildOrDefault(msg) in config.blacklistLogsChannel
           then [AuditFor(config.blacklistLogsChannel[GuildOrDefault(msg)], msg, m, patterns[i])]
           else [])
  }

  /**
   * `regex_blacklist_filter`: the patterns are tried in order on the link
   * buffer and the loop breaks at the first match. `tried` counts the
   * patterns `find` was called on. A failed delete is logged and swallowed;
   * a failed audit send is returned as the error.
   */
  method RegexBlacklistFilter(config: Config, patterns: seq<Pattern>, msg: Message, caps: seq<Captures>,
                              find: (Pattern, string) -> Option<Match>, deleteSucceeds: bool, sendSucceeds: bool)
    returns (result: Result<(), FilterError>, tried: nat, actions: seq<Action>)
    ensures var links := Join(WholeMatches(caps), "\n");
            && actions == BlacklistActions(config, patterns, msg, links, find, deleteSucceeds)
            && (match FirstMatch(patterns, links, find)
                case None => tried == |patterns|
                case Some(hit) => tried == hit.0 + 1)
    ensures result.Err? <==> !sendSucceeds && |actions| == 2
  {
    var links := LinkBuffer(caps);
    result, tried, actions := Ok(()), 0, [];
    var i := 0;
    while i < |patterns|
      invariant 0 <= i <= |patterns| && tried == i
      invariant forall j :: 0 <= j < i ==> find(patterns[j], links).None?
      invariant actions == [] && result == Ok(())
    {
      tried := tried + 1;
      var found := find(patterns[i], links);
      if found.Some? {
        assert FirstMatch(patterns, links, find) == Some((i, found.value));
        actions := [DeleteMessage(msg.id)];
        if deleteSucceeds {
          var guild := GuildOrDefault(msg);
          if guild in config.blacklistLogsChannel {
            actions := actions + [AuditFor(config.blacklistLogsChannel[guild], msg, found.value, patterns[i])];
            if !sendSucceeds {
              result := Err(SendFailed);
            }
          }
        }
        return;
      }
      i := i + 1;
    }
  }

  /** At most one delete is attempted per message, and it is the first action. */
  lemma AtMostOneDelete(config: Config, patterns: seq<Pattern>, msg: Message, links: string,
                        find: (Pattern, string) -> Option<Match>, deleteSucceeds: bool)
    ensures var actions := BlacklistActions(config, patterns, msg, links, find, deleteSucceeds);
            && |actions| <= 2
            && (actions != [] ==> actions[0] == DeleteMessage(msg.id))
            && forall k :: 0 < k < |actions| ==> actions[k].SendAudit?
  {
  }

  /** An audit entry is sent only after a successful delete, and only to the guild's log channel. */
  lemma AuditOnlyAfterDelete(config: Config, patterns: seq<Pattern>, msg: Message, links: string,
                             find: (Pattern, string) -> Option<Match>, deleteSucceeds: bool)
    requires exists k :: 0 <= k < |BlacklistActions(config, patterns, msg, links, find, deleteSucceeds)|
                         && BlacklistActions(config, patterns, msg, links, find, deleteSucceeds)[k].SendAudit?
    ensures deleteSucceeds
    ensures GuildOrDefault(msg) in config.blacklistLogsChannel
    ensures BlacklistActions(config, patterns, msg, links, find, deleteSucceeds)[1].channelId
              == config.blacklistLogsChannel[GuildOrDefault(msg)]
  {
  }

  /**
   * First match wins: when pattern `i` matches and none before it does, the
   * audit names pattern `i` and its match, whatever the later patterns are.
   */
  lemma FirstMatchWins(config: Config, patterns: seq<Pattern>, i: nat, msg: Message, links: string,
                       find: (Pattern, string) -> Option<Match>)
    requires i < |patterns| && find(patterns[i], links).Some?
    requires forall j :: 0 <= j < i ==> find(patterns[j], links).None?
    requires GuildOrDefault(msg) in config.blacklistLogsChannel
    ensures BlacklistActions(config, patterns, msg, links, find, true)
              == [DeleteMessage(msg.id),
                  AuditFor(config.blacklistLogsChannel[GuildOrDefault(msg)], msg, find(patterns[i], links).value, patterns[i])]
  {
    var hit := FirstMatch(patterns, links, find);
    assert hit.Some?;
    var k := hit.value.0;
    assert find(patterns[k], links).Some? && find(patterns[i], links).Some?;
    assert k == i;
  }

  // ---------------------------------------------------------------- image spam counter

  predicate IsImage(a: Attachment)
  {
    a.contentType.Some? && Contains(a.contentType.value, "image")
  }

  predicate IsOtherTyped(a: Attachment)
  {
    a.contentType.Some? && !Contains(a.contentType.value, "image")
  }

  function CountImages(atts: seq<Attachment>): (n: nat)
    ensures n <= |atts|
    decreases |atts|
  {
    if |atts| == 0 then 0 else CountImages(atts[..|atts| - 1]) + (if IsImage(atts[|atts| - 1]) then 1 else 0)
  }

  function CountOtherTyped(atts: seq<Attachment>): (n: nat)
    decreases |atts|
  {
    if |atts| == 0 then 0 else CountOtherTyped(atts[..|atts| - 1]) + (if IsOtherTyped(atts[|atts| - 1]) then 1 else 0)
  }

  function CountUntyped(atts: seq<Attachment>): nat
    decreases |atts|
  {
    if |atts| == 0 then 0 else CountUntyped(atts[..|atts| - 1]) + (if atts[|atts| - 1].contentType.None? then 1 else 0)
  }

  /** Every attachment is counted once: as an image, as something else, or (untyped) not at all. */
  lemma {:induction false} CountsPartition(atts: seq<Attachment>)
    ensures CountImages(atts) + CountOtherTyped(atts) + CountUntyped(atts) == |atts|
    decreases |atts|
  {
    if |atts| > 0 {
      CountsPartition(atts[..|atts| - 1]);
    }
  }

  /**
   * `image_spambot_filter`: counts the attachments whose content type
   * mentions "image" and those with another content type. It takes no
   * action whatever the counts are.
   */
  method ImageSpambotFilter(msg: Message) returns (imageCount: nat, notImage: nat)
    ensures imageCount == CountImages(msg.attachments)
    ensures notImage == CountOtherTyped(msg.attachments)
    ensures imageCount + notImage == |msg.attachments| - CountUntyped(msg.attachments)
  {
    imageCount, notImage := 0, 0;
    var atts := msg.attachments;
    for i := 0 to |atts|
      invariant imageCount == CountImages(atts[..i])
      invariant notImage == CountOtherTyped(atts[..i])
    {
      assert atts[..i + 1][..i] == atts[..i];
      if atts[i].contentType.Some? {
        if Contains(atts[i].contentType.value, "image") {
          imageCount := imageCount + 1;
        } else {
          notImage := notImage + 1;
        }
      }
    }
    assert atts[..|atts|] == atts;
    CountsPartition(atts);
  }

  // ---------------------------------------------------------------- console summary

  /** The attachments' file names, in order. */
  function FileNames(msg: Message): (r: seq<string>)
    ensures |r| == |msg.attachments|
    ensures forall i :: 0 <= i < |r| ==> r[i] == msg.attachments[i].filename
  {
    seq(|msg.attachments|, i requires 0 <= i < |msg.attachments| => msg.attachments[i].filename)
  }

  /** The embeds' kinds, in order, a missing kind shown as empty. */
  function EmbedKinds(msg: Message): (r: seq<string>)
    ensures |r| == |msg.embeds|
    ensures forall i :: 0 <= i < |r| ==> r[i] == KindOrEmpty(msg.embeds[i])
  {
    seq(|msg.embeds|, i requires 0 <= i < |msg.embeds| => KindOrEmpty(msg.embeds[i]))
  }

  /** The attachment part of `attachments_embed_fmt`: " <names>", `None` without attachments. */
  function AttachmentsFmt(msg: Message): (r: Option<string>)
    ensures r.None? <==> |msg.attachments| == 0
    ensures r.Some? ==> |r.value| >= 3 && r.value[..2] == " <" && r.value[|r.value| - 1] == '>'
  {
    if |msg.attachments| == 0 then None else Some(" <" + Join(FileNames(msg), ", ") + ">")
  }

  /** The embed part of `attachments_embed_fmt`: " {kinds}", `None` without embeds. */
  function EmbedsFmt(msg: Message): (r: Option<string>)
    ensures r.None? <==> |msg.embeds| == 0
    ensures r.Some? ==> |r.value| >= 3 && r.value[..2] == " {" && r.value[|r.value| - 1] == '}'
  {
    if |msg.embeds| == 0 then None else Some(" {" + Join(EmbedKinds(msg), ", ") + "}")
  }

  /** `attachments_embed_fmt`: the attachment part and the embed part of the console summary. */
  function AttachmentsEmbedFmt(msg: Message): (Option<string>, Option<string>)
  {
    (AttachmentsFmt(msg), EmbedsFmt(msg))
  }

  /** The attachment summary shows file name `i` at its offset in the list. */
  lemma {:induction false} AttachmentNamesListed(msg: Message, i: nat)
    requires i < |msg.attachments|
    ensures var t, names := AttachmentsFmt(msg).value, FileNames(msg);
            var o := 2 + JoinOffset(names, ", ", i);
            o + |names[i]| <= |t| && t[o..o + |names[i]|] == names[i] == msg.attachments[i].filename
  {
    ListedAt(AttachmentsFmt(msg).value, " <", FileNames(msg), ">", i);
  }

  /** File name `i` is followed by ", ", or by the closing '>' when it is the last. */
  lemma {:induction false} AttachmentNamesSeparated(msg: Message, i: nat)
    requires i < |msg.attachments|
    ensures var t, names := AttachmentsFmt(msg).value, FileNames(msg);
            var o := 2 + JoinOffset(names, ", ", i) + |names[i]|;
            if i + 1 < |names| then o + 2 <= |t| && t[o..o + 2] == ", " else o <= |t| && t[o..] == ">"
  {
    ListedSeparated(AttachmentsFmt(msg).value, " <", FileNames(msg), ">", i);
  }

  /** The embed summary shows kind `i` at its offset in the list, a missing kind as empty. */
  lemma {:induction false} EmbedKindsListed(msg: Message, i: nat)
    requires i < |msg.embeds|
    ensures var t, kinds := EmbedsFmt(msg).value, EmbedKinds(msg);
            var o := 2 + JoinOffset(kinds, ", ", i);
            o + |kinds[i]| <= |t| && t[o..o + |kinds[i]|] == kinds[i] == KindOrEmpty(msg.embeds[i])
  {
    ListedAt(EmbedsFmt(msg).value, " {", EmbedKinds(msg), "}", i);
  }

  /** Kind `i` is followed by ", ", or by the closing '}' when it is the last. */
  lemma {:induction false} EmbedKindsSeparated(msg: Message, i: nat)
    requires i < |msg.embeds|
    ensures var t, kinds := EmbedsFmt(msg).value, EmbedKinds(msg);
            var o := 2 + JoinOffset(kinds, ", ", i) + |kinds[i]|;
            if i + 1 < |kinds| then o + 2 <= |t| && t[o..o + 2] == ", " else o <= |t| && t[o..] == "}"
  {
    ListedSeparated(EmbedsFmt(msg).value, " {", EmbedKinds(msg), "}", i);
  }

  /** In a list between two-character `pre` and `post`, joined with ", ", part `i` sits at its offset. */
  lemma {:induction false} ListedAt(t: string, pre: string, parts: seq<string>, post: string, i: nat)
    requires t == pre + Join(parts, ", ") + post && |pre| == 2 && i < |parts|
    ensures var o := 2 + JoinOffset(parts, ", ", i);
            o + |parts[i]| <= |t| && t[o..o + |parts[i]|] == parts[i]
  {
    JoinWrapped(pre, parts, ", ", post, i);
  }

  /** In such a list, part `i` is followed by ", ", or by `post` when it is the last. */
  lemma {:induction false} ListedSeparated(t: string, pre: string, parts: seq<string>, post: string, i: nat)
    requires t == pre + Join(parts, ", ") + post && |pre| == 2 && i < |parts|
    ensures var o := 2 + JoinOffset(parts, ", ", i) + |parts[i]|;
            if i + 1 < |parts| then o + 2 <= |t| && t[o..o + 2] == ", " else o <= |t| && t[o..] == post
  {
    JoinWrapped(pre, parts, ", ", post, i);
  }

  /** `embed.kind.clone().unwrap_or_default()`. */
  function KindOrEmpty(e: Embed): string
  {
    match e.kind
    case None => ""
    case Some(k) => k
  }

  // ---------------------------------------------------------------- author_string

  /** The escape that ends a colour, `mothy_ansi::RESET` (the SGR reset sequence). */
  const RESET: string := "\U{1B}[0m"

  /** Role `a` is preferred to `b`: a higher position, or the same position and a smaller id. */
  predicate Outranks(a: Role, b: Role)
  {
    a.position > b.position || (a.position == b.position && a.id < b.id)
  }

  /** Some role the member holds, known to the guild, has a colour. */
  predicate HasColouredRole(memberRoles: seq<u64>, guildRoles: map<u64, Role>)
  {
    exists rid :: rid in memberRoles && rid in guildRoles && guildRoles[rid].colour != 0
  }

  /** `h` is a coloured role of the member that no other coloured role of the member outranks. */
  predicate IsHighestColoured(h: Role, memberRoles: seq<u64>, guildRoles: map<u64, Role>)
  {
    && h.colour != 0
    && (exists rid :: rid in memberRoles && rid in guildRoles && guildRoles[rid] == h)
    && forall rid :: rid in memberRoles && rid in guildRoles && guildRoles[rid].colour != 0
                     ==> !Outranks(guildRoles[rid], h)
  }

  /** The loop of `author_string` that keeps the highest coloured role seen so far. */
  method HighestColouredRole(memberRoles: seq<u64>, guildRoles: map<u64, Role>) returns (highest: Option<Role>)
    ensures highest.None? <==> !HasColouredRole(memberRoles, guildRoles)
    ensures highest.Some? ==> IsHighestColoured(highest.value, memberRoles, guildRoles)
  {
    highest := None;
    for i := 0 to |memberRoles|
      invariant highest.None? <==> !HasColouredRole(memberRoles[..i], guildRoles)
      invariant highest.Some? ==> IsHighestColoured(highest.value, memberRoles[..i], guildRoles)
    {
      assert memberRoles[..i + 1] == memberRoles[..i] + [memberRoles[i]];
      var rid := memberRoles[i];
      if rid in guildRoles {
        var role := guildRoles[rid];
        if role.colour == 0 {
          continue;
        }
        if highest.Some? && (role.position < highest.value.position
                             || (role.position == highest.value.position && role.id > highest.value.id)) {
          continue;
        }
        highest := Some(role);
      }
    }
    assert memberRoles[..|memberRoles|] == memberRoles;
  }

  /** The introducer of a 24-bit foreground colour escape. */
  const FOREGROUND_RGB: string := "\U{1B}[38;2;"

  /** The 24-bit foreground escape `"\x1B[38;2;{r};{g};{b}m"` for an RGB colour. */
  function ColourEscape(colour: u32): string
  {
    FOREGROUND_RGB + NatToString((colour / 0x1_0000) % 0x100) + ";" + NatToString((colour / 0x100) % 0x100)
      + ";" + NatToString(colour % 0x100) + "m"
  }

  /** Reads a foreground escape back into the 24-bit colour it sets. */
  function ReadColourEscape(e: string): Option<nat>
  {
    if |e| < |FOREGROUND_RGB| + 1 || e[..|FOREGROUND_RGB|] != FOREGROUND_RGB || e[|e| - 1] != 'm' then None
    else ReadRgb(e[|FOREGROUND_RGB|..|e| - 1])
  }

  /** Reads "r;g;b", three decimal bytes, as a 24-bit colour. */
  function ReadRgb(body: string): Option<nat>
  {
    var parts := Split(body, {';'});
    if |parts| != 3 then None
    else match (ParseNat(parts[0]), ParseNat(parts[1]), ParseNat(parts[2]))
      case (Some(r), Some(g), Some(b)) =>
        if r < 0x100 && g < 0x100 && b < 0x100 then Some(r * 0x1_0000 + g * 0x100 + b) else None
      case _ => None
  }

  /** The red, green and blue bytes of a colour make up its low 24 bits. */
  lemma RgbBytes(c: nat)
    ensures (c / 0x1_0000) % 0x100 * 0x1_0000 + (c / 0x100) % 0x100 * 0x100 + c % 0x100 == c % 0x100_0000
  {
    var q0, b := c / 0x100, c % 0x100;
    var q1, g := q0 / 0x100, q0 % 0x100;
    var q2, r := q1 / 0x100, q1 % 0x100;
    assert c == 0x100 * q0 + b;
    assert q0 == 0x100 * q1 + g;
    assert q1 == 0x100 * q2 + r;
    assert c == 0x1_0000 * q1 + 0x100 * g + b;
    assert c / 0x1_0000 == q1;
    assert c == 0x100_0000 * q2 + (0x1_0000 * r + 0x100 * g + b);
  }

  /** Between the introducer and the final 'm' the escape holds its colour. */
  lemma ReadEscapeBody(body: string)
    ensures ReadColourEscape(FOREGROUND_RGB + body + "m") == ReadRgb(body)
  {
    var e := FOREGROUND_RGB + body + "m";
    assert e[..|FOREGROUND_RGB|] == FOREGROUND_RGB && e[|e| - 1] == 'm';
    assert e[|FOREGROUND_RGB|..|e| - 1] == body;
  }

  /** Three bytes written in decimal, separated by ';', read back as the colour they make up. */
  lemma {:induction false} ReadRgbOf(r: nat, g: nat, b: nat)
    requires r < 0x100 && g < 0x100 && b < 0x100
    ensures ReadRgb(NatToString(r) + ";" + NatToString(g) + ";" + NatToString(b)) == Some(r * 0x1_0000 + g * 0x100 + b)
  {
    NatToStringHasNo(r, ';');
    NatToStringHasNo(g, ';');
    NatToStringHasNo(b, ';');
    SplitThree(NatToString(r), NatToString(g), NatToString(b), ';');
    ParseNatToString(r);
    ParseNatToString(g);
    ParseNatToString(b);
  }

  /** The escape of a colour reads back as its red, green and blue bytes: nothing else is shown. */
  lemma ColourEscapeRoundTrip(colour: u32)
    ensures ReadColourEscape(ColourEscape(colour)) == Some(colour % 0x100_0000)
  {
    var r, g, b := (colour / 0x1_0000) % 0x100, (colour / 0x100) % 0x100, colour % 0x100;
    var body := NatToString(r) + ";" + NatToString(g) + ";" + NatToString(b);
    assert ColourEscape(colour) == FOREGROUND_RGB + body + "m";
    ReadEscapeBody(body);
    ReadRgbOf(r, g, b);
    RgbBytes(colour);
  }

  /** The panic of `author_string`: `msg.guild(&ctx.cache).unwrap()` on a guild not in the cache. */
  datatype AuthorPanic = GuildNotCached

  /**
   * `author_string`: the author's tag, coloured by the highest coloured
   * role when the author has one. Without a member record it is the bare
   * tag (no reset sequence).
   */
  method AuthorString(msg: Message, guildRoles: Option<map<u64, Role>>) returns (r: Result<string, AuthorPanic>)
    ensures msg.member.None? ==> r == Ok(msg.authorTag)
    ensures msg.member.Some? ==> (r.Err? <==> guildRoles.None?)
    ensures (msg.member.Some? && r.Ok? && !HasColouredRole(msg.member.value.roles, guildRoles.value))
              ==> r.value == msg.authorTag + RESET
    ensures (msg.member.Some? && r.Ok? && HasColouredRole(msg.member.value.roles, guildRoles.value))
              ==> exists h :: IsHighestColoured(h, msg.member.value.roles, guildRoles.value)
                              && r.value == ColourEscape(h.colour) + msg.authorTag + RESET
  {
    if msg.member.None? {
      return Ok(msg.authorTag);
    }
    if guildRoles.None? {
      return Err(GuildNotCached);
    }
    var highest := HighestColouredRole(msg.member.value.roles, guildRoles.value);
    var prefix := "";
    if highest.Some? {
      if highest.value.colour != 0 {
        prefix := ColourEscape(highest.value.colour);
      }
    }
    r := Ok(prefix + msg.authorTag + RESET);
  }

  // ---------------------------------------------------------------- on_message

  /**
   * `on_message`: the author string is computed first (and may panic);
   * then, when the gate passes, both filters run and their results are
   * discarded. Returns what was asked of the platform.
   */
  method OnMessage(config: Config, denylist: seq<Pattern>, msg: Message, guildRoles: Option<map<u64, Role>>,
                   caps: seq<Captures>, find: (Pattern, string) -> Option<Match>,
                   deleteSucceeds: bool, sendSucceeds: bool)
    returns (panicked: bool, actions: seq<Action>)
    ensures panicked <==> msg.member.Some? && guildRoles.None?
    ensures (panicked || !FiltersApply(config, msg)) ==> actions == []
    ensures (!panicked && FiltersApply(config, msg))
              ==> actions == BlacklistActions(config, denylist, msg, Join(WholeMatches(caps), "\n"), find, deleteSucceeds)
  {
    var _ := AttachmentsEmbedFmt(msg);
    var author := AuthorString(msg, guildRoles);
    if author.Err? {
      return true, [];
    }
    panicked, actions := false, [];
    if FiltersApply(config, msg) {
      var _, _ := ImageSpambotFilter(msg);
      var _, _, filterActions := RegexBlacklistFilter(config, denylist, msg, caps, find, deleteSucceeds, sendSucceeds);
      actions := filterActions;
    }
  }

  /** A message from a guild outside the allow-list never causes a delete. */
  lemma GateBlocksOtherGuilds(config: Config, msg: Message)
    requires GuildOrDefault(msg) !in config.filtersAllowedGuilds
    ensures !FiltersApply(config, msg)
  {
  }

  /** In an allow-listed guild, an author holding no bypass role is filtered. */
  lemma GateOpens(config: Config, msg: Message)
    requires GuildOrDefault(msg) in config.filtersAllowedGuilds
    requires forall x :: x in config.filterBypassRoles ==> x !in UserRoles(msg)
    ensures FiltersApply(config, msg)
  {
  }

  /** An author holding a bypass role is never filtered. */
  lemma GateBlocksBypassRoles(config: Config, msg: Message, role: u64)
    requires role in config.filterBypassRoles && msg.member.Some? && role in msg.member.value.roles
    ensures !FiltersApply(config, msg)
  {
  }
}
