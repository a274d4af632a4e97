/**
 * Storage-row decoders (mothy_core/src/database_models.rs): pure conversions
 * from the signed rows the database returns into the typed per-guild settings.
 * Every `expect` of the source, which panics, is an `Err(Panic…)` here.
 */
module DatabaseModels {
  import opened Wrappers
  import opened Ints

  /** The ways a decoder of the source panics. */
  datatype Panic =
    | TruncateOffCharBoundary   // `String::truncate` at an index inside a UTF-8 sequence
    | InvalidRegex(pattern: Pattern)   // `Regex::new(..).expect("valid regex")`
    | InvalidTriggerMetadata    // `serde_json::from_value(..).expect(..)`
    | InvalidColoursJson        // `serde_json::from_value(..).expect("valid json")`
    | EmptyColourRow            // `.first().expect("Expected at least one colour ..")`

  // ---------------------------------------------------------------- truncate_convert

  /** `str::is_char_boundary` on the UTF-8 bytes of a string. */
  predicate IsCharBoundary(s: seq<u8>, i: nat)
  {
    i == 0 || i == |s| || (i < |s| && !(0x80 <= s[i] < 0xC0))
  }

  /**
   * `truncate_convert::<MAX_SIZE>`: a string longer than `maxSize` bytes is
   * cut to its first `maxSize` bytes, which panics when that cut falls inside
   * a character; the result always fits an `ArrayString<MAX_SIZE>`.
   */
  function TruncateConvert(maxSize: nat, s: seq<u8>): (r: Result<seq<u8>, Panic>)
    ensures r.Ok? <==> |s| <= maxSize || IsCharBoundary(s, maxSize)
    ensures r.Ok? ==> |r.value| <= maxSize && r.value <= s
    ensures r.Ok? && |s| <= maxSize ==> r.value == s
    ensures r.Ok? && maxSize < |s| ==> |r.value| == maxSize
    ensures r.Err? ==> r.error == TruncateOffCharBoundary
  {
    if |s| > maxSize then
      if IsCharBoundary(s, maxSize) then Ok(s[..maxSize]) else Err(TruncateOffCharBoundary)
    else
      Ok(s)
  }

  /** Truncating an already truncated string changes nothing. */
  lemma TruncateConvertIdempotent(maxSize: nat, s: seq<u8>)
    requires TruncateConvert(maxSize, s).Ok?
    ensures TruncateConvert(maxSize, TruncateConvert(maxSize, s).value) == TruncateConvert(maxSize, s)
  {
  }

  // ---------------------------------------------------------------- GuildFeatures

  /** The six capabilities of `GuildFeatures`. */
  datatype Feature =
    | ExpressionTracking
    | DmActivity
    | Autoresponse
    | Automoderation
    | StickyRoles
    | ColourOfTheDay

  const ALL_FEATURES: set<Feature> :=
    {ExpressionTracking, DmActivity, Autoresponse, Automoderation, StickyRoles, ColourOfTheDay}

  /** The bit of each `GuildFeatures` constant. */
  function FeatureBit(f: Feature): bv8
  {
    match f
    case ExpressionTracking => 1
    case DmActivity => 1 << 1
    case Autoresponse => 1 << 2
    case Automoderation => 1 << 3
    case StickyRoles => 1 << 4
    case ColourOfTheDay => 1 << 5
  }

  /** `GuildFeatures::bits`: the `u8` holding the bit of each present feature. */
  function FeatureBits(fs: set<Feature>): (b: bv8)
    ensures b < 64
  {
    (if ExpressionTracking in fs then FeatureBit(ExpressionTracking) else 0)
    | (if DmActivity in fs then FeatureBit(DmActivity) else 0)
    | (if Autoresponse in fs then FeatureBit(Autoresponse) else 0)
    | (if Automoderation in fs then FeatureBit(Automoderation) else 0)
    | (if StickyRoles in fs then FeatureBit(StickyRoles) else 0)
    | (if ColourOfTheDay in fs then FeatureBit(ColourOfTheDay) else 0)
  }

  /** `GuildFeatures::from_bits_truncate`: the features whose bit is set; other bits are dropped. */
  function FeaturesFromBitsTruncate(bits: bv8): set<Feature>
  {
    set f | f in ALL_FEATURES && bits & FeatureBit(f) != 0
  }

  lemma AllFeaturesComplete(f: Feature)
    ensures f in ALL_FEATURES
  {
    match f {
      case ExpressionTracking =>
      case DmActivity =>
      case Autoresponse =>
      case Automoderation =>
      case StickyRoles =>
      case ColourOfTheDay =>
    }
  }

  /** The six constants are distinct single bits. */
  lemma FeatureBitsDistinct(f: Feature, g: Feature)
    ensures FeatureBit(f) != 0 && FeatureBit(f) & (FeatureBit(f) - 1) == 0
    ensures f != g ==> FeatureBit(f) & FeatureBit(g) == 0
  {
  }

  /** Every subset of the features encodes below 64 and decodes back to exactly itself. */
  lemma FeaturesRoundTrip(fs: set<Feature>)
    ensures FeatureBits(fs) < 64
    ensures FeaturesFromBitsTruncate(FeatureBits(fs)) == fs
  {
    var b := FeatureBits(fs);
    forall f | true
      ensures f in FeaturesFromBitsTruncate(b) <==> f in fs
    {
      AllFeaturesComplete(f);
    }
  }

  /** Decoding any byte keeps exactly its six low bits. */
  lemma FeaturesTruncate(bits: bv8)
    ensures FeatureBits(FeaturesFromBitsTruncate(bits)) == bits & 63
  {
    var fs := FeaturesFromBitsTruncate(bits);
    assert ExpressionTracking in fs <==> bits & 1 != 0;
    assert DmActivity in fs <==> bits & 2 != 0;
    assert Autoresponse in fs <==> bits & 4 != 0;
    assert Automoderation in fs <==> bits & 8 != 0;
    assert StickyRoles in fs <==> bits & 16 != 0;
    assert ColourOfTheDay in fs <==> bits & 32 != 0;
  }

  // ---------------------------------------------------------------- TriggerContext

  /** The two flags of `TriggerContext`. */
  datatype TriggerKind = Text | Ocr

  /**
   * The storage decoding of `TriggerContext`: the stored `i16` is cast
   * `as u8` and then `from_bits_truncate` keeps the TEXT and OCR bits and
   * drops every other one.
   */
  function DecodeTriggerContext(raw: i16): (ctx: set<TriggerKind>)
    ensures Text in ctx <==> raw % 2 == 1
    ensures Ocr in ctx <==> (raw / 2) % 2 == 1
  {
    var bits := AsU8(raw);
    LowBitsOfCast(raw);
    (if bits % 2 == 1 then {Text} else {}) + (if (bits / 2) % 2 == 1 then {Ocr} else {})
  }

  /** The two low bits of `x as u8` are those of `x`, for negative `x` too. */
  lemma LowBitsOfCast(x: int)
    ensures AsU8(x) % 2 == x % 2
    ensures (AsU8(x) / 2) % 2 == (x / 2) % 2
  {
    var q, r := x / 256, AsU8(x) as int;
    assert x == 256 * q + r;
    assert x == 2 * (128 * q + r / 2) + r % 2;
    assert x / 2 == 128 * q + r / 2 && x % 2 == r % 2;
    assert x / 2 == 2 * (64 * q) + r / 2;
  }

  // ---------------------------------------------------------------- DmActivitySettings

  datatype DmActivitySettings = DmActivitySettings(
    cooldownSeconds: u32,
    announceChannelId: Option<u64>,
    retentionDays: Option<u8>)

  datatype RawDmActivitySettings = RawDmActivitySettings(
    cooldownSeconds: i32,
    announceChannelId: Option<i64>,
    retentionDays: Option<i16>)

  /** `DmActivitySettings::default()`: one hour of cooldown, no channel, no retention window. */
  function DefaultDmActivitySettings(): (d: DmActivitySettings)
    ensures d.cooldownSeconds == 3600
    ensures d.announceChannelId.None? && d.retentionDays.None?
  {
    DmActivitySettings(3600, None, None)
  }

  /** An optional stored identifier cast `as u64`, presence kept. */
  function IdFrom(raw: Option<i64>): (r: Option<u64>)
    ensures r.Some? <==> raw.Some?
    ensures r.Some? ==> r.value == I64AsU64(raw.value)
  {
    match raw
    case None => None
    case Some(id) => Some(I64AsU64(id))
  }

  /** `From<RawDmActivitySettings>`: each field cast, presence of the optional ones kept. */
  function DmActivitySettingsFrom(raw: RawDmActivitySettings): (d: DmActivitySettings)
    ensures d.cooldownSeconds == I32AsU32(raw.cooldownSeconds)
    ensures d.announceChannelId.Some? <==> raw.announceChannelId.Some?
    ensures d.retentionDays.Some? <==> raw.retentionDays.Some?
    ensures d.announceChannelId.Some? ==> d.announceChannelId.value == I64AsU64(raw.announceChannelId.value)
    ensures d.retentionDays.Some? ==> d.retentionDays.value == raw.retentionDays.value % 256
  {
    DmActivitySettings(
      I32AsU32(raw.cooldownSeconds),
      IdFrom(raw.announceChannelId),
      match raw.retentionDays
      case None => None
      case Some(v) => Some(AsU8(v)))
  }

  // ---------------------------------------------------------------- RegexTrigger

  /**
   * A compiled matcher: `regex::Regex` (linear time) or `fancy_regex::Regex`
   * (backtracking). Only its source and build options are modelled; matching
   * is an oracle supplied by the caller.
   */
  datatype Pattern =
    | Simple(source: string, caseInsensitive: bool)
    | Fancy(source: string)

  /** `TriggerMetadata`: currently only an optional text. */
  datatype TriggerMetadata = TriggerMetadata(text: Option<string>)

  datatype RegexTrigger = RegexTrigger(
    id: u64,
    channelId: Option<u64>,
    pattern: Pattern,
    triggerContext: set<TriggerKind>,
    triggerMetadata: TriggerMetadata,
    isRecursive: bool,
    isEnabled: bool)

  /**
   * A stored trigger row. `triggerMetadata` is the result of deserialising
   * the stored JSON into `TriggerMetadata`: `None` when it does not fit.
   */
  datatype RawRegexTrigger = RawRegexTrigger(
    id: i64,
    channelId: Option<i64>,
    pattern: string,
    triggerContext: set<TriggerKind>,
    triggerMetadata: Option<TriggerMetadata>,
    isRecursive: bool,
    isEnabled: bool,
    isFancy: bool)

  /** The matcher kind chosen by the stored `is_fancy` flag, built with default options. */
  function PatternFor(source: string, isFancy: bool): (p: Pattern)
    ensures p.Fancy? <==> isFancy
    ensures p.source == source
    ensures p.Simple? ==> !p.caseInsensitive
  {
    if isFancy then Fancy(source) else Simple(source, false)
  }

  /**
   * `From<RawRegexTrigger>`. `compiles` tells which patterns their engine
   * accepts; the source compiles first, then reads the metadata, and panics
   * at the first of the two that fails.
   */
  function RegexTriggerFrom(raw: RawRegexTrigger, compiles: Pattern -> bool): (r: Result<RegexTrigger, Panic>)
    ensures r.Ok? <==> compiles(PatternFor(raw.pattern, raw.isFancy)) && raw.triggerMetadata.Some?
    ensures r.Err? && !compiles(PatternFor(raw.pattern, raw.isFancy)) ==>
              r.error == InvalidRegex(PatternFor(raw.pattern, raw.isFancy))
    ensures r.Err? && compiles(PatternFor(raw.pattern, raw.isFancy)) ==> r.error == InvalidTriggerMetadata
    ensures r.Ok? ==> r.value.pattern == PatternFor(raw.pattern, raw.isFancy)
    ensures r.Ok? ==> r.value.id == I64AsU64(raw.id) && r.value.channelId == IdFrom(raw.channelId)
    ensures r.Ok? ==> r.value.isEnabled == raw.isEnabled && r.value.isRecursive == raw.isRecursive
    ensures r.Ok? ==> r.value.triggerContext == raw.triggerContext
    ensures r.Ok? ==> Some(r.value.triggerMetadata) == raw.triggerMetadata
  {
    var pattern := PatternFor(raw.pattern, raw.isFancy);
    if !compiles(pattern) then Err(InvalidRegex(pattern))
    else match raw.triggerMetadata
      case None => Err(InvalidTriggerMetadata)
      case Some(metadata) =>
        Ok(RegexTrigger(
          I64AsU64(raw.id), IdFrom(raw.channelId), pattern, raw.triggerContext,
          metadata, raw.isRecursive, raw.isEnabled))
  }

  // ---------------------------------------------------------------- GlobalRegexDenylistChannel

  datatype GlobalRegexDenylistChannel = GlobalRegexDenylistChannel(channelId: u64, isRecursive: bool)
  datatype RawGlobalRegexDenylistChannel = RawGlobalRegexDenylistChannel(channelId: i64, isRecursive: bool)

  /** `From<RawGlobalRegexDenylistChannel>`: the channel id cast `as u64`, the flag copied. */
  function GlobalRegexDenylistChannelFrom(raw: RawGlobalRegexDenylistChannel): (r: GlobalRegexDenylistChannel)
    ensures U64AsI64(r.channelId) == raw.channelId
    ensures r.isRecursive == raw.isRecursive
  {
    GlobalRegexDenylistChannel(I64AsU64(raw.channelId), raw.isRecursive)
  }

  // ---------------------------------------------------------------- ModRole

  /** The one flag of `ModRolePermissions`. */
  datatype ModRolePermission = Exist

  datatype ModRole = ModRole(roleId: u64, permissions: set<ModRolePermission>)
  datatype RawModRole = RawModRole(roleId: i64, permissions: i64)

  /** `From<RawModRole>`: the permissions `i64` is cast `as u8` and truncated to the EXIST bit. */
  function ModRoleFrom(raw: RawModRole): (r: ModRole)
    ensures U64AsI64(r.roleId) == raw.roleId
    ensures Exist in r.permissions <==> raw.permissions % 2 == 1
  {
    var bits := AsU8(raw.permissions);
    LowBitsOfCast(raw.permissions);
    ModRole(I64AsU64(raw.roleId), if bits % 2 == 1 then {Exist} else {})
  }

  // ---------------------------------------------------------------- StickyRoleSettings

  /** `StickyRoleMode`; its `#[default]` variant, the source's `None`, is `NoMode` here. */
  datatype StickyRoleMode = NoMode | Allowlist | Denylist

  datatype StickyRoleSettings = StickyRoleSettings(
    allowlistRoles: seq<u64>,
    denylistRoles: seq<u64>,
    mode: StickyRoleMode,
    isEnabled: bool)

  datatype RawStickyRoleSettings = RawStickyRoleSettings(
    allowlistRoles: seq<i64>,
    denylistRoles: seq<i64>,
    mode: StickyRoleMode,
    isEnabled: bool)

  /** The derived `StickyRoleSettings::default()`. */
  function DefaultStickyRoleSettings(): (s: StickyRoleSettings)
    ensures s.allowlistRoles == [] && s.denylistRoles == []
    ensures s.mode == NoMode && !s.isEnabled
  {
    StickyRoleSettings([], [], NoMode, false)
  }

  /** `ids.into_iter().map(|id| RoleId::new(id as u64)).collect()`. */
  function RoleIdsFrom(ids: seq<i64>): (r: seq<u64>)
    ensures |r| == |ids|
    ensures forall i :: 0 <= i < |ids| ==> r[i] == I64AsU64(ids[i])
  {
    seq(|ids|, i requires 0 <= i < |ids| => I64AsU64(ids[i]))
  }

  /** The role-id conversion loses nothing: the stored list is recovered from the decoded one. */
  lemma RoleIdsFromInverse(ids: seq<i64>)
    ensures seq(|ids|, i requires 0 <= i < |ids| => U64AsI64(RoleIdsFrom(ids)[i])) == ids
  {
  }

  /** `From<RawStickyRoleSettings>`: both lists converted in order, mode and flag copied. */
  function StickyRoleSettingsFrom(raw: RawStickyRoleSettings): (s: StickyRoleSettings)
    ensures |s.allowlistRoles| == |raw.allowlistRoles| && |s.denylistRoles| == |raw.denylistRoles|
    ensures forall i :: 0 <= i < |raw.allowlistRoles| ==> U64AsI64(s.allowlistRoles[i]) == raw.allowlistRoles[i]
    ensures forall i :: 0 <= i < |raw.denylistRoles| ==> U64AsI64(s.denylistRoles[i]) == raw.denylistRoles[i]
    ensures s.mode == raw.mode && s.isEnabled == raw.isEnabled
  {
    StickyRoleSettings(RoleIdsFrom(raw.allowlistRoles), RoleIdsFrom(raw.denylistRoles), raw.mode, raw.isEnabled)
  }

  // ---------------------------------------------------------------- CotdRoleSettings

  datatype ColourMode = Random | Static
  datatype IconPairingMode = Paired | Random

  /** Serenity's `RoleColours`: a mandatory primary colour and two optional tiers. */
  datatype RoleColours = RoleColours(primary: u32, secondary: Option<u32>, tertiary: Option<u32>)

  /** A time of day, carried through unchanged. */
  datatype TimeOfDay = TimeOfDay(hour: nat, minute: nat, second: nat, nanosecond: nat)

  datatype CotdRoleSettings = CotdRoleSettings(
    roleId: u64,
    isEnabled: bool,
    suffixEnabled: bool,
    colourMode: ColourMode,
    iconPairingMode: IconPairingMode,
    colours: seq<RoleColours>,
    icons: seq<string>,
    svgTargetColour: Option<u32>,
    rotationTime: TimeOfDay)

  /**
   * A stored colour-of-the-day row. `colours` is the stored JSON read as a
   * `Vec<Vec<u32>>`: `None` when it does not have that shape.
   */
  datatype RawCotdRoleSettings = RawCotdRoleSettings(
    roleId: i64,
    isEnabled: bool,
    suffixEnabled: bool,
    colourMode: ColourMode,
    iconPairingMode: IconPairingMode,
    colours: Option<seq<seq<u32>>>,
    icons: seq<string>,
    svgTargetColour: Option<i32>,
    rotationTime: TimeOfDay)

  /** One colour row: element 0 is primary, 1 and 2 the optional tiers, the rest ignored. */
  function RoleColoursFrom(row: seq<u32>): (r: Option<RoleColours>)
    ensures r.Some? <==> |row| > 0
    ensures r.Some? ==> r.value.primary == row[0]
    ensures r.Some? ==> (r.value.secondary.Some? <==> |row| > 1) && (|row| > 1 ==> r.value.secondary.value == row[1])
    ensures r.Some? ==> (r.value.tertiary.Some? <==> |row| > 2) && (|row| > 2 ==> r.value.tertiary.value == row[2])
    ensures r.Some? ==> RoleColoursFrom(row[..if |row| < 3 then |row| else 3]) == r
  {
    if |row| == 0 then None
    else Some(RoleColours(
      row[0],
      if |row| > 1 then Some(row[1]) else None,
      if |row| > 2 then Some(row[2]) else None))
  }

  /** All colour rows, in order; any empty row is fatal. */
  function ColoursFrom(rows: seq<seq<u32>>): (r: Result<seq<RoleColours>, Panic>)
    ensures r.Ok? <==> forall i :: 0 <= i < |rows| ==> |rows[i]| > 0
    ensures r.Ok? ==> |r.value| == |rows|
    ensures r.Ok? ==> forall i :: 0 <= i < |rows| ==> RoleColoursFrom(rows[i]) == Some(r.value[i])
    ensures r.Err? ==> r.error == EmptyColourRow
    decreases |rows|
  {
    if |rows| == 0 then Ok([])
    else match RoleColoursFrom(rows[0])
      case None => Err(EmptyColourRow)
      case Some(first) =>
        match ColoursFrom(rows[1..])
        case Err(e) => Err(e)
        case Ok(rest) => Ok([first] + rest)
  }

  /** `From<RawCotdRoleSettings>`: malformed JSON or an empty colour row panics; the rest is copied or cast. */
  function CotdRoleSettingsFrom(raw: RawCotdRoleSettings): (r: Result<CotdRoleSettings, Panic>)
    ensures raw.colours.None? ==> r == Err(InvalidColoursJson)
    ensures raw.colours.Some? ==> (r.Ok? <==> ColoursFrom(raw.colours.value).Ok?)
    ensures r.Ok? ==> Ok(r.value.colours) == ColoursFrom(raw.colours.value)
    ensures r.Ok? ==> |r.value.colours| == |raw.colours.value|
    ensures r.Ok? ==> r.value.roleId == I64AsU64(raw.roleId) && r.value.icons == raw.icons
    ensures r.Ok? ==> r.value.isEnabled == raw.isEnabled && r.value.suffixEnabled == raw.suffixEnabled
    ensures r.Ok? ==> r.value.colourMode == raw.colourMode && r.value.iconPairingMode == raw.iconPairingMode
    ensures r.Ok? ==> r.value.rotationTime == raw.rotationTime
    ensures r.Ok? ==> (r.value.svgTargetColour.Some? <==> raw.svgTargetColour.Some?)
    ensures r.Ok? && raw.svgTargetColour.Some? ==> r.value.svgTargetColour.value == I32AsU32(raw.svgTargetColour.value)
  {
    match raw.colours
    case None => Err(InvalidColoursJson)
    case Some(rows) =>
      match ColoursFrom(rows)
      case Err(e) => Err(e)
      case Ok(colours) =>
        Ok(CotdRoleSettings(
          I64AsU64(raw.roleId), raw.isEnabled, raw.suffixEnabled, raw.colourMode, raw.iconPairingMode,
          colours, raw.icons,
          match raw.svgTargetColour
          case None => None
          case Some(v) => Some(I32AsU32(v)),
          raw.rotationTime))
  }

  // ---------------------------------------------------------------- GuildSettings

  /** The longest custom prefix, `ArrayString<6>`. */
  const PREFIX_MAX_SIZE: nat := 6

  datatype AutomodRuleOverrides = AutomodRuleOverrides(ruleId: u64, roles: seq<(u64, bool)>)

  /** The whole configuration of one guild; `prefix` is UTF-8 bytes. */
  datatype GuildSettings = GuildSettings(
    banned: bool,
    rejoined: bool,
    prefix: Option<seq<u8>>,
    features: set<Feature>,
    regexTriggers: seq<RegexTrigger>,
    regexDenylist: seq<GlobalRegexDenylistChannel>,
    modRoles: seq<ModRole>,
    automodRuleOverrides: seq<AutomodRuleOverrides>,
    stickyRoleSettings: StickyRoleSettings,
    cotdSettings: seq<CotdRoleSettings>,
    dmActivitySettings: DmActivitySettings)

  /** The derived `GuildSettings::default()`: nothing set, every list empty, the fragments' own defaults. */
  function DefaultGuildSettings(): (g: GuildSettings)
    ensures !g.banned && !g.rejoined && g.prefix.None?
    ensures g.features == {} && FeatureBits(g.features) == 0
    ensures g.regexTriggers == [] && g.regexDenylist == [] && g.modRoles == []
    ensures g.automodRuleOverrides == [] && g.cotdSettings == []
    ensures g.stickyRoleSettings == DefaultStickyRoleSettings()
    ensures g.dmActivitySettings.cooldownSeconds == 3600
    ensures g.dmActivitySettings == DefaultDmActivitySettings()
  {
    GuildSettings(false, false, None, {}, [], [], [], [], DefaultStickyRoleSettings(), [], DefaultDmActivitySettings())
  }
}
