/**
 * The embed of the `moth` command (mothy_commands/src/moths/moth.rs): the
 * title, the classification chain and the list of fields shown for one
 * species record. The random choice of the record and the iNaturalist
 * lookup are inputs.
 */
module Moth {
  import opened Wrappers
  import opened Text
  import opened MothHelpers

  const CATALOGUE_OF_LIFE_TAXON_URL: string := "https://www.catalogueoflife.org/data/taxon/"

  /** The separator of the classification chain. */
  const RANK_SEPARATOR: string := " -> "

  datatype Classification = Classification(
    superfamily: Option<string>,
    family: Option<string>,
    subfamily: Option<string>,
    tribe: Option<string>,
    subtribe: Option<string>,
    genus: string,
    epithet: string)

  datatype Synonym = Synonym(genus: string, epithet: string, catalogueOfLifeTaxonId: string)

  datatype SpeciesData = SpeciesData(
    classification: Classification,
    commonNames: Option<seq<string>>,
    synonyms: Option<seq<Synonym>>,
    publishedIn: Option<string>,
    catalogueOfLifeTaxonId: string)

  /** What a successful iNaturalist search yields. */
  datatype INaturalistData = INaturalistData(inaturalistUrl: string, photoUrl: Option<string>, wikipediaUrl: Option<string>)

  /** The names of the fields the embed can carry. */
  datatype FieldName = CommonNames | ClassificationName | Synonyms | PublishedIn | Photos | MoreInfo

  /** The text shown as a field's name. */
  function NameText(n: FieldName): string
  {
    match n
    case CommonNames => "Common Names"
    case ClassificationName => "Classification"
    case Synonyms => "Synonyms"
    case PublishedIn => "Published In"
    case Photos => "Photos"
    case MoreInfo => "More Info"
  }

  /** An embed field: name, value, and whether it is shown inline. */
  datatype Field = Field(name: FieldName, value: string, inline: bool)

  datatype Embed = Embed(title: string, url: string, fields: seq<Field>, thumbnail: string, footer: string)

  // ---------------------------------------------------------------- classification

  /** The optional ranks, from the widest to the narrowest. */
  function OptionalRanks(c: Classification): seq<Option<string>>
  {
    [c.superfamily, c.family, c.subfamily, c.tribe, c.subtribe]
  }

  /** The present optional ranks, then the genus and the epithet. */
  function Ranks(c: Classification): (r: seq<string>)
    ensures |r| >= 2 && r[|r| - 2] == c.genus && r[|r| - 1] == c.epithet
    ensures r[..|r| - 2] == Somes(OptionalRanks(c))
    ensures |r| <= 7
  {
    Somes(OptionalRanks(c)) + [c.genus, c.epithet]
  }

  /** The classification chain, such as "Noctuoidea -> Erebidae -> Catocala -> nupta". */
  function RankFlow(c: Classification): string
  {
    Join(Ranks(c), RANK_SEPARATOR)
  }

  /** The chain always ends with the genus, the separator and the epithet. */
  lemma RankFlowEndsWithSpecies(c: Classification)
    ensures RankFlow(c) == Join(Somes(OptionalRanks(c)) + [c.genus], RANK_SEPARATOR) + RANK_SEPARATOR + c.epithet
    ensures |RankFlow(c)| >= |RANK_SEPARATOR + c.epithet|
    ensures RankFlow(c)[|RankFlow(c)| - |c.epithet| - |RANK_SEPARATOR|..] == RANK_SEPARATOR + c.epithet
  {
    var init := Somes(OptionalRanks(c)) + [c.genus];
    assert Ranks(c) == init + [c.epithet];
    JoinSnoc(init, c.epithet, RANK_SEPARATOR);
    var flow := RankFlow(c);
    var head := Join(init, RANK_SEPARATOR);
    assert flow == head + (RANK_SEPARATOR + c.epithet);
  }

  /** With no optional rank present the chain is just the genus and the epithet. */
  lemma RankFlowGenusOnly(c: Classification)
    requires c.superfamily.None? && c.family.None? && c.subfamily.None? && c.tribe.None? && c.subtribe.None?
    ensures RankFlow(c) == c.genus + RANK_SEPARATOR + c.epithet
  {
    SomesAllNone(OptionalRanks(c));
    assert Ranks(c) == [c.genus, c.epithet];
    assert Ranks(c)[1..] == [c.epithet];
    assert Join([c.epithet], RANK_SEPARATOR) == c.epithet;
  }

  /** A present superfamily starts the chain. */
  lemma RankFlowStartsWithSuperfamily(c: Classification)
    requires c.superfamily.Some?
    ensures RankFlow(c) == c.superfamily.value + RANK_SEPARATOR + Join(Ranks(c)[1..], RANK_SEPARATOR)
  {
    var o := OptionalRanks(c);
    SomesAppend([o[0]], o[1..]);
    assert [o[0]] + o[1..] == o;
    assert [o[0]][..0] == [];
    assert Somes([o[0]]) == [c.superfamily.value];
  }

  /** Every present optional rank appears in the chain's parts, and nothing else but genus and epithet. */
  lemma RanksMembers(c: Classification, s: string)
    ensures s in Ranks(c) <==> Some(s) in OptionalRanks(c) || s == c.genus || s == c.epithet
  {
    SomesMembers(OptionalRanks(c), s);
  }

  // ---------------------------------------------------------------- fields

  /** The link of one synonym: its name, pointing at its Catalogue of Life page. */
  function SynonymLink(s: Synonym): string
  {
    "[" + s.genus + " " + s.epithet + "](" + CATALOGUE_OF_LIFE_TAXON_URL + s.catalogueOfLifeTaxonId + ")"
  }

  /** The synonym links, in the order of the synonyms. */
  function SynonymLinks(syns: seq<Synonym>): (r: seq<string>)
    ensures |r| == |syns|
    ensures forall i :: 0 <= i < |syns| ==> r[i] == SynonymLink(syns[i])
    decreases |syns|
  {
    if |syns| == 0 then [] else SynonymLinks(syns[..|syns| - 1]) + [SynonymLink(syns[|syns| - 1])]
  }

  function CommonNamesFields(moth: SpeciesData): (r: seq<Field>)
    ensures |r| <= 1
  {
    match moth.commonNames
    case None => []
    case Some(names) => [Field(CommonNames, Join(names, ", "), false)]
  }

  function SynonymsFields(moth: SpeciesData): (r: seq<Field>)
    ensures |r| <= 1
  {
    match moth.synonyms
    case None => []
    case Some(syns) => [Field(Synonyms, Join(SynonymLinks(syns), ", "), false)]
  }

  function PublishedInFields(moth: SpeciesData): (r: seq<Field>)
    ensures |r| <= 1
  {
    match moth.publishedIn
    case None => []
    case Some(p) => [Field(PublishedIn, p, false)]
  }

  function INaturalistFields(inat: Option<INaturalistData>): (r: seq<Field>)
    ensures |r| <= 2
  {
    match inat
    case None => []
    case Some(data) =>
      [Field(Photos, "[iNaturalist](" + data.inaturalistUrl + ")", false)]
      + (match data.wikipediaUrl
         case None => []
         case Some(w) => [Field(MoreInfo, "[Wikipedia](" + w + ")", false)])
  }

  /** The fields of the embed, in the order they are pushed. */
  function MothFields(moth: SpeciesData, inat: Option<INaturalistData>): seq<Field>
  {
    CommonNamesFields(moth)
    + [Field(ClassificationName, RankFlow(moth.classification), false)]
    + SynonymsFields(moth)
    + PublishedInFields(moth)
    + INaturalistFields(inat)
  }

  /** `genus + " " + epithet`. */
  function Title(c: Classification): string
  {
    c.genus + " " + c.epithet
  }

  /**
   * `assemble_moth_embed`, with the outcome of the iNaturalist search as
   * input (`None` for any failure): fields are pushed in order, the
   * classification chain is built from the present ranks, and the
   * thumbnail is the iNaturalist photo when there is one.
   */
  method AssembleMothEmbed(moth: SpeciesData, inat: Option<INaturalistData>) returns (embed: Embed)
    ensures embed.title == Title(moth.classification)
    ensures embed.url == CATALOGUE_OF_LIFE_TAXON_URL + moth.catalogueOfLifeTaxonId
    ensures embed.footer == moth.catalogueOfLifeTaxonId
    ensures embed.fields == MothFields(moth, inat)
    ensures inat.Some? && inat.value.photoUrl.Some? ==> embed.thumbnail == inat.value.photoUrl.value
    ensures inat.None? || inat.value.photoUrl.None? ==> embed.thumbnail == ""
  {
    var c := moth.classification;
    var title := c.genus + " " + c.epithet;
    var fields: seq<Field> := [];
    if moth.commonNames.Some? {
      fields := fields + [Field(CommonNames, Join(moth.commonNames.value, ", "), false)];
    }
    assert fields == CommonNamesFields(moth);
    var optionalRanks := GetMothRankVec([c.superfamily, c.family, c.subfamily, c.tribe, c.subtribe]);
    var mothRankFlow := Join(optionalRanks + [c.genus, c.epithet], RANK_SEPARATOR);
    fields := fields + [Field(ClassificationName, mothRankFlow, false)];
    ghost var upToClassification := fields;
    if moth.synonyms.Some? {
      var synonymsFormatted := Join(SynonymLinks(moth.synonyms.value), ", ");
      fields := fields + [Field(Synonyms, synonymsFormatted, false)];
    }
    assert fields == upToClassification + SynonymsFields(moth);
    ghost var upToSynonyms := fields;
    if moth.publishedIn.Some? {
      fields := fields + [Field(PublishedIn, moth.publishedIn.value, false)];
    }
    assert fields == upToSynonyms + PublishedInFields(moth);
    ghost var upToPublished := fields;
    var thumbnailUrl := "";
    if inat.Some? {
      fields := fields + [Field(Photos, "[iNaturalist](" + inat.value.inaturalistUrl + ")", false)];
      if inat.value.wikipediaUrl.Some? {
        fields := fields + [Field(MoreInfo, "[Wikipedia](" + inat.value.wikipediaUrl.value + ")", false)];
      }
      if inat.value.photoUrl.Some? {
        thumbnailUrl := inat.value.photoUrl.value;
      }
    }
    assert fields == upToPublished + INaturalistFields(inat);
    embed := Embed(title, CATALOGUE_OF_LIFE_TAXON_URL + moth.catalogueOfLifeTaxonId, fields, thumbnailUrl, moth.catalogueOfLifeTaxonId);
  }

  // ---------------------------------------------------------------- field order

  /** The place of each field name in the fixed order of the embed. */
  function FieldRank(name: FieldName): nat
  {
    match name
    case CommonNames => 0
    case ClassificationName => 1
    case Synonyms => 2
    case PublishedIn => 3
    case Photos => 4
    case MoreInfo => 5
  }

  function Names(fs: seq<Field>): (r: seq<FieldName>)
    ensures |r| == |fs|
    ensures forall i :: 0 <= i < |fs| ==> r[i] == fs[i].name
  {
    seq(|fs|, i requires 0 <= i < |fs| => fs[i].name)
  }

  /** The names of fields in a row are the names of each part in a row. */
  lemma NamesAppend(a: seq<Field>, b: seq<Field>)
    ensures Names(a + b) == Names(a) + Names(b)
  {
  }

  function Optional(present: bool, n: FieldName): seq<FieldName>
  {
    if present then [n] else []
  }

  /** The names of the fields, one part at a time. */
  lemma MothFieldNames(moth: SpeciesData, inat: Option<INaturalistData>)
    ensures Names(MothFields(moth, inat)) ==
              Optional(moth.commonNames.Some?, CommonNames) + [ClassificationName]
              + Optional(moth.synonyms.Some?, Synonyms) + Optional(moth.publishedIn.Some?, PublishedIn)
              + Optional(inat.Some?, Photos) + Optional(inat.Some? && inat.value.wikipediaUrl.Some?, MoreInfo)
  {
    var a := CommonNamesFields(moth);
    var b := [Field(ClassificationName, RankFlow(moth.classification), false)];
    var s := SynonymsFields(moth);
    var p := PublishedInFields(moth);
    var n := INaturalistFields(inat);
    NamesAppend(a, b);
    NamesAppend(a + b, s);
    NamesAppend(a + b + s, p);
    NamesAppend(a + b + s + p, n);
    assert Names(a) == Optional(moth.commonNames.Some?, CommonNames);
    assert Names(b) == [ClassificationName];
    assert Names(s) == Optional(moth.synonyms.Some?, Synonyms);
    assert Names(p) == Optional(moth.publishedIn.Some?, PublishedIn);
    assert Names(n) == Optional(inat.Some?, Photos) + Optional(inat.Some? && inat.value.wikipediaUrl.Some?, MoreInfo);
  }

  predicate InOrder(names: seq<FieldName>)
  {
    forall i, j :: 0 <= i < j < |names| ==> FieldRank(names[i]) < FieldRank(names[j])
  }

  /** Every name in the list comes before place `k`. */
  predicate Before(names: seq<FieldName>, k: nat)
  {
    forall i :: 0 <= i < |names| ==> FieldRank(names[i]) < k
  }

  /** An ordered list whose names all come before `x` stays ordered when `x` may follow. */
  lemma InOrderOptional(names: seq<FieldName>, present: bool, x: FieldName)
    requires InOrder(names) && Before(names, FieldRank(x))
    ensures InOrder(names + Optional(present, x))
    ensures Before(names + Optional(present, x), FieldRank(x) + 1)
  {
    var r := names + Optional(present, x);
    forall i, j | 0 <= i < j < |r| ensures FieldRank(r[i]) < FieldRank(r[j]) {
      if j >= |names| {
        assert r[j] == x && r[i] == names[i];
      }
    }
  }

  /** The names a record can produce are in the fixed order, whichever parts are present. */
  lemma OptionalNamesInOrder(common: bool, synonyms: bool, published: bool, photos: bool, moreInfo: bool)
    ensures InOrder(Optional(common, CommonNames) + [ClassificationName] + Optional(synonyms, Synonyms)
                    + Optional(published, PublishedIn) + Optional(photos, Photos) + Optional(moreInfo, MoreInfo))
  {
    var a := Optional(common, CommonNames);
    InOrderOptional([], common, CommonNames);
    assert [] + a == a;
    InOrderOptional(a, true, ClassificationName);
    var b := a + [ClassificationName];
    InOrderOptional(b, synonyms, Synonyms);
    var c := b + Optional(synonyms, Synonyms);
    InOrderOptional(c, published, PublishedIn);
    var d := c + Optional(published, PublishedIn);
    InOrderOptional(d, photos, Photos);
    var e := d + Optional(photos, Photos);
    InOrderOptional(e, moreInfo, MoreInfo);
  }

  /**
   * Fields always come in the order Common Names, Classification,
   * Synonyms, Published In, Photos, More Info, each at most once.
   */
  lemma MothFieldsInOrder(moth: SpeciesData, inat: Option<INaturalistData>)
    ensures InOrder(Names(MothFields(moth, inat)))
  {
    MothFieldNames(moth, inat);
    OptionalNamesInOrder(moth.commonNames.Some?, moth.synonyms.Some?, moth.publishedIn.Some?,
                         inat.Some?, inat.Some? && inat.value.wikipediaUrl.Some?);
  }

  /** A name is among the optional names exactly when its part is present. */
  lemma OptionalNamesMembers(common: bool, synonyms: bool, published: bool, photos: bool, moreInfo: bool)
    ensures var names := Optional(common, CommonNames) + [ClassificationName] + Optional(synonyms, Synonyms)
                         + Optional(published, PublishedIn) + Optional(photos, Photos) + Optional(moreInfo, MoreInfo);
            && ClassificationName in names
            && (CommonNames in names <==> common)
            && (Synonyms in names <==> synonyms)
            && (PublishedIn in names <==> published)
            && (Photos in names <==> photos)
            && (MoreInfo in names <==> moreInfo)
  {
  }

  /**
   * The Classification field is always there; each other field is there
   * exactly when its data is: common names, synonyms, the publication, a
   * successful iNaturalist search, and a Wikipedia link in that search.
   */
  lemma MothFieldsPresence(moth: SpeciesData, inat: Option<INaturalistData>)
    ensures ClassificationName in Names(MothFields(moth, inat))
    ensures CommonNames in Names(MothFields(moth, inat)) <==> moth.commonNames.Some?
    ensures Synonyms in Names(MothFields(moth, inat)) <==> moth.synonyms.Some?
    ensures PublishedIn in Names(MothFields(moth, inat)) <==> moth.publishedIn.Some?
    ensures Photos in Names(MothFields(moth, inat)) <==> inat.Some?
    ensures MoreInfo in Names(MothFields(moth, inat)) <==> inat.Some? && inat.value.wikipediaUrl.Some?
  {
    MothFieldNames(moth, inat);
    OptionalNamesMembers(moth.commonNames.Some?, moth.synonyms.Some?, moth.publishedIn.Some?,
                         inat.Some?, inat.Some? && inat.value.wikipediaUrl.Some?);
  }

  /** The Classification field holds the chain, and the Synonyms field one link per synonym, in order. */
  lemma MothFieldsValues(moth: SpeciesData, inat: Option<INaturalistData>)
    ensures Field(ClassificationName, RankFlow(moth.classification), false) in MothFields(moth, inat)
    ensures moth.synonyms.Some? ==> Field(Synonyms, Join(SynonymLinks(moth.synonyms.value), ", "), false) in MothFields(moth, inat)
  {
    var a := CommonNamesFields(moth);
    var fs := MothFields(moth, inat);
    assert fs[|a|] == Field(ClassificationName, RankFlow(moth.classification), false);
    if moth.synonyms.Some? {
      assert fs[|a| + 1] == Field(Synonyms, Join(SynonymLinks(moth.synonyms.value), ", "), false);
    }
  }
}
