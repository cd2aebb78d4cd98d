/** The entity objects the loader fills in and hands to the cache. Every
    entity the loader builds once and never touches again is a datatype;
    `FullRecord`, whose fields are overwritten one after another while a
    record is assembled, is a class. Java's nullable references are `Option`. */
module Entities {
  import opened Sql

  /** Language to the vernacular names in that language, in row order. */
  type CommonNameMap = map<Field, seq<Field>>

  /** One rank of a hierarchy: an ancestor, a child, or the record's own rank
      (which leaves `tsn`, `rankValue` and `commonNames` null). */
  datatype TaxRank = TaxRank(
    tsn: Field,
    rankId: Field,
    rankName: Field,
    rankValue: Field,
    kingdomId: Field,
    kingdomName: Field,
    commonNames: Option<CommonNameMap>)

  /** A `TaxRank` with every field null, as `new TaxRank()` leaves it. */
  const BlankRank := TaxRank(None, None, None, None, None, None, None)

  datatype Publication = Publication(
    actualPubDate: Field, isbn: Field, issn: Field, listedPubDate: Field, pages: Field,
    pubComment: Field, pubName: Field, pubPlace: Field, publisher: Field,
    referenceAuthor: Field, title: Field)
  datatype PublicationList = PublicationList(publications: Option<seq<Publication>>)

  datatype Expert = Expert(expert: Field, comment: Field, updateDate: Field)
  datatype ExpertList = ExpertList(experts: Option<seq<Expert>>)

  datatype OtherSource = OtherSource(source: Field, sourceComment: Field, sourceType: Field, version: Field)
  datatype OtherSourceList = OtherSourceList(otherSources: Option<seq<OtherSource>>)

  datatype AcceptedName = AcceptedName(acceptedName: Field, acceptedTsn: Field, author: Field)
  datatype AcceptedNamesList = AcceptedNamesList(acceptedNames: Option<seq<AcceptedName>>)

  datatype CommonName = CommonName(commonName: Field, language: Field)
  datatype CommonNamesList = CommonNamesList(commonNames: Option<seq<CommonName>>)

  datatype GeoDivision = GeoDivision(geographicValue: Field)
  datatype GeographicDivisionsList = GeographicDivisionsList(geoDivisions: Option<seq<GeoDivision>>)

  datatype Synonym = Synonym(sciName: Field, tsn: Field, author: Field)
  datatype SynonymList = SynonymList(synonyms: Option<seq<Synonym>>)

  datatype Comment = Comment(commentId: Field, commentDetail: Field, commentator: Field)
  datatype CommentList = CommentList(comments: Option<seq<Comment>>)

  datatype JurisdictionalOrigin = JurisdictionalOrigin(jurisdictionValue: Field, origin: Field)
  datatype JurisdictionalOriginsList = JurisdictionalOriginsList(jurisdictionalOrigins: Option<seq<JurisdictionalOrigin>>)

  datatype TaxonAuthor = TaxonAuthor(authorship: Field)

  datatype Kingdom = Kingdom(kingdomId: Field, kingdomName: Field)
  datatype Usage = Usage(taxonUsageRating: Field)
  datatype UnacceptReason = UnacceptReason(unacceptReason: Field)
  datatype CurrencyRating = CurrencyRating(taxonCurrency: Field, rankId: Field)
  datatype CompletenessRating = CompletenessRating(completeness: Field, rankId: Field)
  datatype CredibilityRating = CredibilityRating(credRating: Field)
  datatype ParentTsn = ParentTsn(parentTsn: Field)
  datatype ScientificName = ScientificName(
    combinedName: Field,
    unitInd1: Field, unitInd2: Field, unitInd3: Field, unitInd4: Field,
    unitName1: Field, unitName2: Field, unitName3: Field, unitName4: Field,
    author: Field)

  /** The state of one full record: every field the loader sets. */
  datatype RecordFields = RecordFields(
    tsn: Field,
    kingdom: Kingdom,
    usage: Option<Usage>,
    unacceptReason: Option<UnacceptReason>,
    currencyRating: Option<CurrencyRating>,
    completenessRating: CompletenessRating,
    credibilityRating: Option<CredibilityRating>,
    taxRank: TaxRank,
    parentTsn: ParentTsn,
    scientificName: Option<ScientificName>,
    jurisdictionalOriginList: Option<JurisdictionalOriginsList>,
    commentList: Option<CommentList>,
    geographicDivisionList: Option<GeographicDivisionsList>,
    commonNameList: Option<CommonNamesList>,
    synonymList: Option<SynonymList>,
    acceptedNamesList: Option<AcceptedNamesList>,
    publicationList: Option<PublicationList>,
    otherSourceList: Option<OtherSourceList>,
    expertList: Option<ExpertList>,
    taxonAuthor: Option<TaxonAuthor>)

  /** A freshly constructed record: its embedded kingdom, completeness rating,
      rank and parent objects exist with null fields; every other field is null. */
  const BlankRecord := RecordFields(
    None, Kingdom(None, None), None, None, None, CompletenessRating(None, None), None,
    BlankRank, ParentTsn(None), None, None, None, None, None, None, None, None, None, None, None)

  /** The composite record for one TSN, filled in step by step. */
  class FullRecord {
    var fields: RecordFields

    constructor ()
      ensures fields == BlankRecord
    {
      fields := BlankRecord;
    }
  }
}
