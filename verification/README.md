# mothy, modelled in Dafny

mothy is a Discord bot written in Rust. This project models, in Dafny, the
parts of it that compute something:

- the storage-row decoders that turn database rows into per-guild settings
  (`GuildFeatures` and the other bit-sets, `truncate_convert`, the
  `From<Raw…>` conversions and the defaults);
- the link denylist loader;
- the message handler's filter gate, its regex denylist filter (the link
  buffer and the first-match scan), the image-spam counter, the console
  summary of attachments and embeds, and the colour choice of the author
  string;
- the `hex` colour command (`hex_to_rgba` and the splitting of the argument);
- the `jamesscore` formatting helpers (game version, mod string, date, rank,
  map length);
- the `patch_fix` command (bytes to little-endian UTF-16 words, UTF-16
  decoding, carriage-return removal, the size gate);
- the account-age text of the join log (`truncate_datetime_string`);
- `get_moth_rank_vec` and the embed of the `moth` command;
- the classification of voice-state changes and the voice log.

Rust panics (`expect`, `unwrap`, an index past a chunk's end, a string cut
inside a character) are modelled as explicit error outcomes, never as
preconditions. Calls into the chat platform are recorded as values:

- what the handler asks for (a delete, a send) is an `Action`;
- whether each request succeeds is an input.

The regex engines are oracles passed as function values: `compiles` says
whether a pattern builds, and `find` says what a pattern matches.

Each source file becomes one module:

| module | file |
|---|---|
| `DatabaseModels` | database_models.dfy |
| `RegexFilters` | regex_filters.dfy |
| `Messages` | messages.dfy |
| `Colour`, `HexCommand` | colour.dfy |
| `JamesScore` | james_score.dfy |
| `PatchFix` | patch_fix.dfy |
| `JoinLeave` | join_leave.dfy |
| `MothHelpers` | moth_helpers.dfy |
| `Moth` | moth.dfy |
| `Voice` | voice.dfy |

Three modules are shared by the others: `Wrappers` (`Option`, `Result`),
`Ints` (the fixed-width integer types and Rust's `as` casts) and `Text`
(join, split, replace, decimal printing).

No per-guild settings cache or concurrent settings map exists in the code;
`GuildSettings` is the plain value it builds.

## Model

| member | source | states |
|---|---|---|
| DatabaseModels.TruncateConvert | mothy_core/src/database_models.rs:6-12 | a string of at most `MAX_SIZE` bytes is returned unchanged; a longer one becomes its first `MAX_SIZE` bytes, and that cut panics exactly when it falls inside a UTF-8 character; a result always fits |
| DatabaseModels.TruncateConvertIdempotent | mothy_core/src/database_models.rs:6-12 | truncating an already truncated string gives the same result |
| DatabaseModels.FeatureBits | mothy_core/src/database_models.rs:30-40 | the bits of any set of features lie below 64 (six flags) |
| DatabaseModels.AllFeaturesComplete | mothy_core/src/database_models.rs:30-40 | the six constants are all the features there are |
| DatabaseModels.FeatureBitsDistinct | mothy_core/src/database_models.rs:30-40 | each feature constant is one single bit, and two different features never share a bit |
| DatabaseModels.FeaturesRoundTrip | mothy_core/src/database_models.rs:30-40 | any subset of the features encodes below 64 and `from_bits_truncate` decodes it back to exactly that subset |
| DatabaseModels.FeaturesTruncate | mothy_core/src/database_models.rs:30-40 | decoding any byte keeps its six low bits and drops the others, without rejecting it |
| DatabaseModels.DecodeTriggerContext | mothy_core/src/database_models.rs:128-148 | after the `i16` is cast to `u8`, TEXT is set iff bit 0 of the stored value is, OCR iff bit 1 is; unknown bits are dropped |
| DatabaseModels.LowBitsOfCast | mothy_core/src/database_models.rs:140-148 | the cast `as u8` keeps the two low bits of the stored value, negative values included |
| DatabaseModels.DefaultDmActivitySettings | mothy_core/src/database_models.rs:49-57 | the default has a cooldown of 3600 seconds, no announce channel and no retention window |
| DatabaseModels.IdFrom | mothy_core/src/database_models.rs:66-76 | an optional stored id keeps its presence and is cast `as u64` |
| DatabaseModels.DmActivitySettingsFrom | mothy_core/src/database_models.rs:66-76 | the cooldown is cast to `u32`; each optional field keeps its presence; the retention is the stored value mod 256 |
| DatabaseModels.PatternFor | mothy_core/src/database_models.rs:102-112 | a `Fancy` pattern is built exactly when `is_fancy` is set, otherwise a `Simple` one with default options, over the stored text |
| DatabaseModels.RegexTriggerFrom | mothy_core/src/database_models.rs:102-124 | the conversion succeeds iff the pattern compiles and the metadata deserialises; a bad pattern panics first, then bad metadata; the pattern is the one `PatternFor` builds from the stored text and flag; id, channel, context, flags and metadata are carried over |
| DatabaseModels.GlobalRegexDenylistChannelFrom | mothy_core/src/database_models.rs:163-170 | the channel id cast back to `i64` is the stored one, and the recursion flag is copied |
| DatabaseModels.ModRoleFrom | mothy_core/src/database_models.rs:189-203 | the role id is kept bit for bit; EXIST is set iff bit 0 of the stored permissions is, and every other bit is dropped |
| DatabaseModels.DefaultStickyRoleSettings | mothy_core/src/database_models.rs:220-233 | the default has both lists empty, mode `None` (the `#[default]` variant) and is disabled |
| DatabaseModels.RoleIdsFrom | mothy_core/src/database_models.rs:235-252 | the role list keeps its length and order, element by element cast to `u64` |
| DatabaseModels.RoleIdsFromInverse | mothy_core/src/database_models.rs:235-252 | casting the decoded ids back gives the stored list exactly |
| DatabaseModels.StickyRoleSettingsFrom | mothy_core/src/database_models.rs:235-252 | both role lists keep length, order and every id; mode and flag are copied |
| DatabaseModels.RoleColoursFrom | mothy_core/src/database_models.rs:276-294 | a row is accepted iff it is non-empty; primary is element 0, secondary element 1 and tertiary element 2 when present; later elements are ignored |
| DatabaseModels.ColoursFrom | mothy_core/src/database_models.rs:276-294 | the rows decode iff none is empty, keeping their number and order; an empty row is the panic |
| DatabaseModels.CotdRoleSettingsFrom | mothy_core/src/database_models.rs:276-294 | malformed colour JSON or an empty row panics; otherwise the colours are decoded row by row, the SVG target colour keeps its presence, and the other fields are copied or cast |
| DatabaseModels.DefaultGuildSettings | mothy_core/src/database_models.rs:14-28 | the default guild is not banned, has no prefix and no features, all lists are empty, and it holds the default sticky-role and DM-activity settings |
| RegexFilters.NonBlank | mothy_core/src/regex_filters.rs:2-5 | the filter keeps exactly the lines that are not all white space, untrimmed |
| RegexFilters.NonBlankAppend | mothy_core/src/regex_filters.rs:2-5 | the filter distributes over concatenation, so file order is kept |
| RegexFilters.NonBlankKeepsAll | mothy_core/src/regex_filters.rs:2-5 | a file without blank lines keeps every line |
| RegexFilters.CompileAll | mothy_core/src/regex_filters.rs:6-12 | every line is built case-insensitive, in order, one pattern per line; a line that does not compile panics |
| RegexFilters.Init | mothy_core/src/regex_filters.rs:1-15 | loading succeeds iff every non-blank line compiles; pattern `i` is non-blank line `i`, untrimmed and case-insensitive; the count equals the number of non-blank lines |
| RegexFilters.InitPatternsAreLines | mothy_core/src/regex_filters.rs:1-15 | no loaded pattern contains a line break |
| Messages.LinkBuffer | mothy_events/src/messages/mod.rs:76-85 | the buffer is group 0 of each capture, in order, joined with "\n"; it is "" when nothing matched |
| Messages.FirstMatch | mothy_events/src/messages/mod.rs:87-88 | the pattern found is the first in list order whose `find` succeeds; no pattern before it matches, and none at all when nothing is found |
| Messages.EscapeBackticks | mothy_events/src/messages/mod.rs:108-117 | escaping backticks adds or removes no character other than backtick and backslash |
| Messages.EscapeLength | mothy_events/src/messages/mod.rs:108-117 | escaping adds exactly one character per backtick |
| Messages.EscapeRoundTrip | mothy_events/src/messages/mod.rs:108-117 | unescaping (dropping a backslash before a backtick) gives the original text back, so escaping loses nothing |
| Messages.BackticksEscaped | mothy_events/src/messages/mod.rs:108-117 | every backtick of the escaped text is preceded by a backslash |
| Messages.BlacklistActions | mothy_events/src/messages/mod.rs:87-135 | nothing is asked iff no pattern matches the links; otherwise the first request is the delete of the message, and a second one (the audit entry) is asked iff the delete succeeded and the guild has a log channel |
| Messages.RegexBlacklistFilter | mothy_events/src/messages/mod.rs:65-139 | without a match nothing is asked and the result is `Ok`; at the first match one delete, then an audit entry only after a successful delete to the guild's log channel; the result is `Err` iff that audit send failed |
| Messages.AtMostOneDelete | mothy_events/src/messages/mod.rs:87-137 | at most one delete per message, and it is the first request |
| Messages.AuditOnlyAfterDelete | mothy_events/src/messages/mod.rs:89-125 | an audit entry implies the delete succeeded and the guild has a log channel, and it goes to that channel |
| Messages.FirstMatchWins | mothy_events/src/messages/mod.rs:87-135 | for any list, when pattern `i` matches and no earlier one does, a successful delete is followed by the audit entry naming pattern `i` and its match, whatever the later patterns are |
| Messages.CountImages | mothy_events/src/messages/mod.rs:144-152 | the image count is at most the number of attachments |
| Messages.CountsPartition | mothy_events/src/messages/mod.rs:144-152 | every attachment counts exactly once: as an image, as another typed file, or as untyped |
| Messages.ImageSpambotFilter | mothy_events/src/messages/mod.rs:141-157 | the two counts are the images and the other typed attachments; untyped attachments count in neither; no action is taken |
| Messages.AttachmentsFmt | mothy_events/src/messages/mod.rs:160-169 | `None` iff there is no attachment; otherwise the text opens with " <" and closes with '>' |
| Messages.EmbedsFmt | mothy_events/src/messages/mod.rs:171-181 | `None` iff there is no embed; otherwise the text opens with " {" and closes with '}' |
| Messages.FileNames | mothy_events/src/messages/mod.rs:164-167 | one name per attachment, in order, each its file name |
| Messages.EmbedKinds | mothy_events/src/messages/mod.rs:175-178 | one kind per embed, in order, a missing kind shown as empty |
| Messages.AttachmentNamesListed | mothy_events/src/messages/mod.rs:164-168 | file name `i` appears in the attachment text at its offset in the ", "-joined list |
| Messages.AttachmentNamesSeparated | mothy_events/src/messages/mod.rs:164-168 | file name `i` is followed by ", ", or by the closing '>' when it is the last |
| Messages.EmbedKindsListed | mothy_events/src/messages/mod.rs:175-180 | embed kind `i` appears in the embed text at its offset in the ", "-joined list |
| Messages.EmbedKindsSeparated | mothy_events/src/messages/mod.rs:175-180 | embed kind `i` is followed by ", ", or by the closing '}' when it is the last |
| Messages.HighestColouredRole | mothy_events/src/messages/mod.rs:198-217 | the role kept is a coloured role of the member known to the guild, with the highest position and the smallest id among equals; none iff no such role exists |
| Messages.ColourEscapeRoundTrip | mothy_events/src/messages/mod.rs:220-224 | the escape written for a role colour reads back as the colour's low 24 bits: its red, green and blue bytes, in that order |
| Messages.ReadRgbOf | mothy_events/src/messages/mod.rs:223 | three bytes printed in decimal and separated by ';' read back as the colour they make up |
| Messages.RgbBytes | mothy_events/src/messages/mod.rs:223 | the red, green and blue bytes of a colour make up its low 24 bits |
| Messages.AuthorString | mothy_events/src/messages/mod.rs:188-228 | without a member the bare tag; a guild missing from the cache panics; otherwise the tag followed by the reset sequence, led by the highest coloured role's escape when there is one |
| Messages.OnMessage | mothy_events/src/messages/mod.rs:13-63 | the author string may panic before anything else; otherwise the filters ask for something only when the gate passes, and then exactly what the denylist filter asks |
| Messages.GateBlocksOtherGuilds | mothy_events/src/messages/mod.rs:45-55 | a guild outside the allow-list (a missing guild counts as 0) never passes the gate |
| Messages.GateOpens | mothy_events/src/messages/mod.rs:39-55 | in an allow-listed guild, an author holding no bypass role passes the gate |
| Messages.GateBlocksBypassRoles | mothy_events/src/messages/mod.rs:39-55 | an author holding a bypass role never passes the gate |
| Colour.HexValue | mothy_commands/src/utility/colour.rs:109-112 | a hex digit of either case is worth less than 16 |
| Colour.HexDigit | mothy_commands/src/utility/colour.rs:109-112 | the printed digit reads back as its value |
| Colour.ParseHexU8 | mothy_commands/src/utility/colour.rs:109-112 | a two-character slice reads iff it is two hex digits or '+' then one digit; the value is 16·high + low, or the one digit |
| Colour.ByteHex | mothy_commands/src/utility/colour.rs:109-112 | a byte prints as two hex digits |
| Colour.ByteHexRoundTrip | mothy_commands/src/utility/colour.rs:109-112 | a byte's two digits read back as the byte |
| Colour.DoubledSpec | mothy_commands/src/utility/colour.rs:93-98 | doubling writes each character twice: character `i` of the result is character `i/2` of the input |
| Colour.Normalized | mothy_commands/src/utility/colour.rs:103-107 | the normalised string has at least eight characters |
| Colour.NormalizedShape | mothy_commands/src/utility/colour.rs:103-107 | eight or more digits are kept; up to six are right-padded with '0' to six and "FF" appended; seven get "FF" |
| Colour.FromPairs | mothy_commands/src/utility/colour.rs:109-114 | four pairs that read as a colour's components give that colour |
| Colour.HexToRgba | mothy_commands/src/utility/colour.rs:85-115 | after stripping, trimming and padding, a code reads iff each of its first eight characters is a hex digit, or a '+' heading a pair; a code of hex digits reads as its four pairs, 16·high + low each |
| Colour.AcceptedPairs | mothy_commands/src/utility/colour.rs:109-114 | the four pairs read exactly when each of the eight characters is accepted |
| Colour.RgbaHex | mothy_commands/src/utility/colour.rs:109-114 | a colour prints as eight hex digits |
| Colour.StripHexDigits | mothy_commands/src/utility/colour.rs:86-89 | a string of hex digits has no "#" or "0x" to strip |
| Colour.HexRoundTrip | mothy_commands/src/utility/colour.rs:85-114 | eight digits `RRGGBBAA` read back as exactly the colour that printed them |
| Colour.HexRoundTripWithHash | mothy_commands/src/utility/colour.rs:86-114 | a leading '#' is stripped and the eight digits still read back exactly |
| Colour.HashIgnored | mothy_commands/src/utility/colour.rs:86-89 | a '#' in front of hex digits changes nothing in the reading |
| Colour.HexEightDigits | mothy_commands/src/utility/colour.rs:85-115 | any eight hex digits, of either case, read as their four pairs |
| Colour.HexSixDigits | mothy_commands/src/utility/colour.rs:85-115 | any six hex digits, of either case, read as their three pairs with alpha 255 |
| Colour.HexLowerCaseOrange | mothy_commands/src/utility/colour.rs:85-115 | "ff8000" reads as opaque orange (255, 128, 0, 255) |
| Colour.HexSixDigitsOpaque | mothy_commands/src/utility/colour.rs:103-114 | six digits `RRGGBB` read as that colour with alpha 255 |
| Colour.ShorthandNormalized | mothy_commands/src/utility/colour.rs:93-107 | three hex digits "xyz" normalise to "xxyyzzFF" |
| Colour.ShorthandAlphaNormalized | mothy_commands/src/utility/colour.rs:93-107 | four hex digits "xyzw" normalise to "xxyyzzww" |
| Colour.ReadDoubled | mothy_commands/src/utility/colour.rs:109-114 | doubled digits read as seventeen times the digit |
| Colour.HexShorthand | mothy_commands/src/utility/colour.rs:85-114 | "xyz" reads as 17·x, 17·y, 17·z and alpha 255 |
| Colour.HexShorthandAlpha | mothy_commands/src/utility/colour.rs:85-114 | "xyzw" reads as 17 times each digit |
| Colour.HexSevenDigits | mothy_commands/src/utility/colour.rs:103-114 | seven digits are accepted, and the alpha is the seventh digit followed by the 'F' of the appended "FF" |
| Colour.HexEmptyIsOpaqueBlack | mothy_commands/src/utility/colour.rs:86-114 | "#" and "0x" leave nothing after stripping and read as opaque black |
| HexCommand.ColourCodes | mothy_commands/src/utility/colour.rs:21-24 | no code is empty |
| HexCommand.NonEmpty | mothy_commands/src/utility/colour.rs:23 | dropping the empty pieces keeps every other piece in order and loses no character |
| HexCommand.NonEmptyAppend | mothy_commands/src/utility/colour.rs:23 | dropping empty pieces distributes over concatenation |
| HexCommand.ColourCodesAppend | mothy_commands/src/utility/colour.rs:21-24 | a space or a comma ends a code: the codes of "a, b" are those of "a" followed by those of "b" |
| HexCommand.ColourCodesWord | mothy_commands/src/utility/colour.rs:21-24 | a non-empty argument without spaces or commas is exactly one code, itself |
| HexCommand.ColourCodesBlank | mothy_commands/src/utility/colour.rs:21-24 | an argument of only spaces and commas has no code |
| HexCommand.ColourCodesKeepText | mothy_commands/src/utility/colour.rs:21-24 | the codes run together are the argument with its spaces and commas removed |
| HexCommand.ColourCodesHaveNoSeparators | mothy_commands/src/utility/colour.rs:21-24 | no code contains a space or a comma |
| HexCommand.Readings | mothy_commands/src/utility/colour.rs:36-37 | each code is read, in order |
| HexCommand.FirstError | mothy_commands/src/utility/colour.rs:36-61 | the index found is the first failed reading from the start point, and none fails when nothing is found |
| HexCommand.Lines | mothy_commands/src/utility/colour.rs:38-42 | one reply line per code |
| HexCommand.LinesAt | mothy_commands/src/utility/colour.rs:38-42 | line `i` shows code `i` as "#code = rgba(r, g, b, a)" |
| HexCommand.ReplyFor | mothy_commands/src/utility/colour.rs:26-80 | with no code the image is zero pixels wide and its PNG encoding panics; the first code that fails to read ends the command with "Could not parse colour: code" and no image; otherwise the reply lists every reading, joined with ", ", with the image |
| HexCommand.Hex | mothy_commands/src/utility/colour.rs:15-83 | the reply of the command is that of its argument's codes, each read by `hex_to_rgba`; an argument without codes panics |
| JamesScore.GameVersion | mothy_commands/src/fun/james_score.rs:39-46 | "Stable" iff some mod is "CL", otherwise "Lazer" |
| JamesScore.ShownAcronyms | mothy_commands/src/fun/james_score.rs:53-58 | "CL" is never shown |
| JamesScore.ShownAcronymsComplete | mothy_commands/src/fun/james_score.rs:53-58 | every acronym other than "CL" is shown |
| JamesScore.FormatModsString | mothy_commands/src/fun/james_score.rs:48-60 | "NM" without mods, or for a stable score with one mod; otherwise "+" and the acronyms except "CL", in order |
| JamesScore.ShownCount | mothy_commands/src/fun/james_score.rs:53-58 | the number shown is the number of mods minus the number of "CL" mods |
| JamesScore.NoModExactlyWhenNothingShown | mothy_commands/src/fun/james_score.rs:39-60 | with the version `game_version` gives and at most one "CL", the string is "NM" iff no mod is shown |
| JamesScore.FormatScoreDate | mothy_commands/src/fun/james_score.rs:62-64 | the output holds no 'T' and no 'Z' and is no longer than the input |
| JamesScore.ReplaceCharLength | mothy_commands/src/fun/james_score.rs:62-68 | replacing a character by at most one character does not lengthen a string |
| JamesScore.FormatIsoDate | mothy_commands/src/fun/james_score.rs:62-64 | "dateTtimeZ" is shown as "date time" |
| JamesScore.FormatScoreRank | mothy_commands/src/fun/james_score.rs:66-68 | the output holds no 'H' and no 'X' |
| JamesScore.FormatRanks | mothy_commands/src/fun/james_score.rs:66-68 | "XH" and "X" are shown as "SS", "SH" and "S" as "S" |
| JamesScore.FormatPlainRank | mothy_commands/src/fun/james_score.rs:66-68 | any grade without 'H' or 'X' is shown unchanged |
| JamesScore.DurationParts | mothy_commands/src/fun/james_score.rs:71-73 | hours·3600 + minutes·60 + seconds is the duration, with minutes and seconds below 60 |
| JamesScore.ParseMinSec | mothy_commands/src/fun/james_score.rs:77 | "m:s" reads back as m·60 + s seconds |
| JamesScore.ParseHourMinSec | mothy_commands/src/fun/james_score.rs:75 | "h:m:s" reads back as h·3600 + m·60 + s seconds |
| JamesScore.FormatDurationSecs | mothy_commands/src/fun/james_score.rs:70-78 | as written, every length except exactly 3600 reads back as itself |
| JamesScore.FormatDurationSecsFixed | mothy_commands/src/fun/james_score.rs:70-78 | with `>=`, every length reads back as itself |
| JamesScore.FormatDurationOneHourShowsZero | mothy_commands/src/fun/james_score.rs:74-77 | as written, 3600 seconds is shown as "0:0", which reads as no time; with `>=` it is "1:0:0" |
| PatchFix.WordsLe | mothy_commands/src/utility/patch_fix.rs:60-69 | an even byte string gives half as many words |
| PatchFix.WordsLeAt | mothy_commands/src/utility/patch_fix.rs:62-65 | word `i` is byte `2i` plus 256 times byte `2i+1`: the low byte comes first |
| PatchFix.BytesLe | mothy_commands/src/utility/patch_fix.rs:60-69 | each word is written as two bytes, low byte first |
| PatchFix.WordsOfBytes | mothy_commands/src/utility/patch_fix.rs:60-69 | reading words back from their bytes gives the words |
| PatchFix.BytesOfWords | mothy_commands/src/utility/patch_fix.rs:60-69 | writing out the words read from an even byte string gives the bytes |
| PatchFix.VecU8ToU16Le | mothy_commands/src/utility/patch_fix.rs:60-69 | the conversion panics exactly on an odd length (the last chunk has one byte), and otherwise returns the little-endian words |
| PatchFix.Supplementary | mothy_commands/src/utility/patch_fix.rs:57 | a surrogate pair decodes to a code point from 0x10000 to 0x10FFFF |
| PatchFix.EncodeChar | mothy_commands/src/utility/patch_fix.rs:57 | a character takes one or two UTF-16 words |
| PatchFix.DecodeEncode | mothy_commands/src/utility/patch_fix.rs:57 | UTF-16 decoding inverts encoding for every string |
| PatchFix.EncodeDecode | mothy_commands/src/utility/patch_fix.rs:57 | words that decode are the encoding of what they decode to, so nothing is lost or replaced |
| PatchFix.FixedPatch | mothy_commands/src/utility/patch_fix.rs:56-58 | a fixed patch contains no '\r' |
| PatchFix.FixPatch | mothy_commands/src/utility/patch_fix.rs:56-69 | the fix panics on an odd length, fails on invalid UTF-16, and otherwise returns the decoded text without '\r' |
| PatchFix.FixUtf16Patch | mothy_commands/src/utility/patch_fix.rs:56-69 | any text saved as UTF-16LE is recovered with its '\r' removed and everything else in order; text without '\r' is recovered exactly |
| PatchFix.FixedPatchOkIff | mothy_commands/src/utility/patch_fix.rs:56-69 | the fix succeeds iff the length is even and the words are valid UTF-16; the input is then the UTF-16LE encoding of the decoded text |
| PatchFix.PatchFixCommand | mothy_commands/src/utility/patch_fix.rs:14-54 | an attachment over 8,000,000 bytes is refused before any download; a failed download fails the command; an odd length panics; invalid UTF-16 gives "Could not fix patch"; otherwise the fixed text is sent as "fixed_" + filename |
| JoinLeave.Components | mothy_events/src/join_leave/mod.rs:89-94 | six components, years to seconds, in that order |
| JoinLeave.Positive | mothy_events/src/join_leave/mod.rs:95-113 | no more components than given |
| JoinLeave.PositiveMembers | mothy_events/src/join_leave/mod.rs:95-113 | a component is kept iff its value is above zero |
| JoinLeave.NothingPositive | mothy_events/src/join_leave/mod.rs:95-113 | fields that are all zero push nothing |
| JoinLeave.Truncate3 | mothy_events/src/join_leave/mod.rs:115 | the first `min(n, 3)` components |
| JoinLeave.Label | mothy_events/src/join_leave/mod.rs:96-112 | a label is never empty |
| JoinLeave.PushedLabelsPositive | mothy_events/src/join_leave/mod.rs:95-113 | the pushes produce the labels of the positive components, in order |
| JoinLeave.PushIfPositive | mothy_events/src/join_leave/mod.rs:95-113 | a positive component appends "Unit value"; a zero one appends nothing |
| JoinLeave.PushPositiveFields | mothy_events/src/join_leave/mod.rs:87-113 | the pushed strings are the labels of the positive fields, in order |
| JoinLeave.TruncateDatetimeString | mothy_events/src/join_leave/mod.rs:86-117 | the text is the first three positive components joined with ", "; it is empty iff every field is zero |
| JoinLeave.EmptyIffNothingPositive | mothy_events/src/join_leave/mod.rs:86-117 | the text is empty iff no field is positive |
| JoinLeave.KeptAtMostThreePositive | mothy_events/src/join_leave/mod.rs:95-115 | at most three components are shown and each is positive |
| JoinLeave.PositiveOrdered | mothy_events/src/join_leave/mod.rs:95-113 | the positive components keep the order years, months, days, hours, minutes, seconds |
| JoinLeave.KeptAreFirstThree | mothy_events/src/join_leave/mod.rs:95-115 | the shown components are the first positive ones, in order, and a positive field is left out only when three are shown |
| JoinLeave.AgeUnderADay | mothy_events/src/join_leave/mod.rs:77-81 | the date-time the join log builds for an age under a day: its clock fields make up the age |
| JoinLeave.OneHourOldAccountKept | mothy_events/src/join_leave/mod.rs:81-83 | for a one-hour-old account the components shown are month 1, day 1 and hour 1 |
| JoinLeave.OneHourOldAccountAsWritten | mothy_events/src/join_leave/mod.rs:74-117 | a one-hour-old account is described as "Months 1, Days 1, Hours 1" |
| JoinLeave.Elapsed | mothy_events/src/join_leave/mod.rs:81 | the elapsed month and day count from zero where the calendar counts from one |
| JoinLeave.ElapsedUnderADayShowsClock | mothy_events/src/join_leave/mod.rs:86-117 | counting month and day from zero, an age under a day shows only hours, minutes and seconds |
| JoinLeave.ElapsedOneHour | mothy_events/src/join_leave/mod.rs:86-117 | counting month and day from zero, a one-hour-old account is described as "Hours 1" |
| MothHelpers.Somes | mothy_commands/src/moths/helpers.rs:1-9 | no more values than entries |
| MothHelpers.GetMothRankVec | mothy_commands/src/moths/helpers.rs:1-9 | the output is the `Some` payloads in order, as many as there are `Some` entries |
| MothHelpers.SomesCount | mothy_commands/src/moths/helpers.rs:1-9 | the output length is the number of `Some` entries |
| MothHelpers.SomesMembers | mothy_commands/src/moths/helpers.rs:1-9 | a string is in the output iff `Some` of it is in the input |
| MothHelpers.SomesAppend | mothy_commands/src/moths/helpers.rs:1-9 | the output of a concatenation is the concatenation of the outputs |
| MothHelpers.SomesAllNone | mothy_commands/src/moths/helpers.rs:1-9 | all-`None` input gives an empty output |
| MothHelpers.SomesAllSome | mothy_commands/src/moths/helpers.rs:1-9 | all-`Some` input gives the unwrapped input unchanged |
| Moth.Ranks | mothy_commands/src/moths/moth.rs:45-55 | the ranks are the present optional ranks, in order, then genus and epithet, at most seven |
| Moth.RanksMembers | mothy_commands/src/moths/moth.rs:45-55 | a rank is shown iff it is a present optional rank, the genus or the epithet |
| Moth.RankFlowEndsWithSpecies | mothy_commands/src/moths/moth.rs:45-56 | the classification chain ends with " -> " and the epithet, after the present ranks and the genus |
| Moth.RankFlowGenusOnly | mothy_commands/src/moths/moth.rs:45-56 | with no optional rank the chain is "genus -> epithet" |
| Moth.RankFlowStartsWithSuperfamily | mothy_commands/src/moths/moth.rs:45-56 | a present superfamily heads the chain |
| Moth.SynonymLinks | mothy_commands/src/moths/moth.rs:59-69 | one link per synonym, in order |
| Moth.CommonNamesFields | mothy_commands/src/moths/moth.rs:41-43 | at most one field |
| Moth.SynonymsFields | mothy_commands/src/moths/moth.rs:59-71 | at most one field |
| Moth.PublishedInFields | mothy_commands/src/moths/moth.rs:73-75 | at most one field |
| Moth.INaturalistFields | mothy_commands/src/moths/moth.rs:82-95 | at most two fields |
| Moth.Names | mothy_commands/src/moths/moth.rs:39-95 | one name per field, in order |
| Moth.MothFieldNames | mothy_commands/src/moths/moth.rs:39-95 | the field names are Common Names if present, Classification, Synonyms if present, Published In if present, Photos with iNaturalist data, More Info with a Wikipedia link |
| Moth.MothFieldsInOrder | mothy_commands/src/moths/moth.rs:39-95 | the fields come in that fixed order |
| Moth.MothFieldsPresence | mothy_commands/src/moths/moth.rs:39-95 | Classification is always there; each other field is there iff its data is |
| Moth.MothFieldsValues | mothy_commands/src/moths/moth.rs:45-70 | the Classification field holds the rank chain, and the Synonyms field the links joined with ", " |
| Moth.AssembleMothEmbed | mothy_commands/src/moths/moth.rs:31-112 | the title is "genus epithet"; the URL is the catalogue URL followed by the taxon id; the footer is the taxon id; the fields are the ones above; the thumbnail is the photo or "" |
| Voice.Classify | mothy_events/src/voice/mod.rs:15-27 | no previous state is a join; no new channel is a leave; a different channel is a switch; the same channel is no transition |
| Voice.VoiceStateUpdate | mothy_events/src/voice/mod.rs:9-40 | the same channel returns `Ok` with nothing sent; otherwise a log is sent iff the guild (0 when absent) has a voice-log channel, to that channel; the result is `Err` iff that send failed |
| Voice.ToneNamesTransition | mothy_events/src/voice/mod.rs:42-113 | joins are logged with the positive colour, leaves with the negative one and switches with the neutral one |
| Voice.LogNamesUser | mothy_events/src/voice/mod.rs:42-113 | every log is authored by the member's name ("Unknown" without one), opens with the user's mention and has the footer "ID: " and the user id |
| Voice.HandleJoin | mothy_events/src/voice/mod.rs:42-63 | a join log has the positive colour and the member's name; its description mentions exactly the user, then the channel joined (0 when absent), and the ids read back |
| Voice.HandleLeave | mothy_events/src/voice/mod.rs:65-86 | a leave log has the negative colour and the member's name; its description mentions exactly the user, then the channel left |
| Voice.HandleSwitch | mothy_events/src/voice/mod.rs:88-113 | a switch log has the neutral colour and the member's name; its description mentions exactly the user, the channel left, then the channel joined |
| Voice.TwoMentions | mothy_events/src/voice/mod.rs:42-86 | a description of the form "<m1>text<m2>", with no bracket inside the parts, mentions m1 then m2 |
| Voice.ThreeMentions | mothy_events/src/voice/mod.rs:88-113 | a description of the form "<m1>b<m2>c<m3>" mentions m1, m2 and m3, in order |
| Voice.MentionReadsBack | mothy_events/src/voice/mod.rs:51-55 | a mention "@id" or "#id" holds no bracket and reads back as its kind and id |

## Left out

- Side effects: sending and deleting messages, console output (`println!`, `dbg!`), timestamps and avatar URLs. They are recorded only as actions or outcomes, or dropped.
- Messages.OnMessage: the two filters run one after the other, not concurrently under `tokio::join!`; their results are discarded in both cases.
- Messages: `content_safe` renders mentions from the chat library's cache, so the rendered text is an input (`safeContent`) and only the backtick escape applied to it is modelled. `get_guild_name_override` and `get_channel_name` belong to the helper module and are not part of this model. The audit embed's layout (title, thumbnail, colour, code fences, timestamp, footer) is not modelled; its entry keeps the channel, the author, the rendered content, the match and the pattern.
- The `mothy_ansi` crate is not part of this model. Its reset sequence is taken to be the SGR reset "ESC [0m".
- Voice: the colours `NEGATIVE_COLOR_HEX`, `POSITIVE_COLOR_HEX` and `NEUTRAL_COLOR_HEX` are not part of this model; each is a `Tone`.
- Regex engines: matching and compilation are oracles (`find`, `compiles`); `captures_iter` is given as its list of captures.
- Colour.HexToRgba: strings are sequences of characters. The source measures and slices UTF-8 bytes, so on non-ASCII input it may panic at a slice boundary; the model returns `Err` there instead. Both agree on ASCII input.
- The `hex` command's image (pixel filling, PNG encoding) and attachment bytes: only `withImage` says whether it is attached.
- The `jamesscore` command itself: the random choice of a score and the embed text, which formats floating-point fields. Only its helpers are modelled.
- The `moth` command's random choice and the iNaturalist HTTP call: the iNaturalist data is an input, and `None` stands for a failed call.
- JoinLeave: `get_member_joined_at`'s clock and chrono's date arithmetic. Only the breakdown of an age under a day is modelled, as `AgeUnderADay`.
- JoinLeave.Components: a year of zero or below is treated as zero. The source shows no year in both cases.
- JoinLeave: the sending in `guild_member_addition` and `guild_member_removal`.
- PatchFix.PatchFixCommand: the download is an input; its size is the attachment's declared size.
- The database pool, migrations, serde and zstd decoding, the bundled data files and `structs.rs`: deserialisation results are inputs (`Option` for JSON that may not fit).
- Command registration (`commands()` and the `mod.rs` lists).
- The Urban Dictionary command and the API callers: network calls.

## Findings

| source | as written | input that shows it | evidently intended | confidence | as-written member | corrected member |
|---|---|---|---|---|---|---|
| mothy_commands/src/fun/james_score.rs:74 | hours are shown only when `duration > 3600` | a map of exactly 3600 seconds is shown as "0:0" | `duration >= 3600`, giving "1:0:0" | high; not executed | JamesScore.FormatDurationOneHourShowsZero | JamesScore.FormatDurationSecsFixed |
| mothy_events/src/join_leave/mod.rs:77-81 | the elapsed time is read as a calendar date, whose month and day start at 1 | an account created one hour before joining is described as "Months 1, Days 1, Hours 1" | month and day counted from zero, giving "Hours 1" | high; not executed | JoinLeave.OneHourOldAccountAsWritten | JoinLeave.ElapsedOneHour |
