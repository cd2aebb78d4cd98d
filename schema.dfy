/** The rows of the ITIS tables the loader reads, one datatype per table with
    the columns it uses. Key columns that the schema declares NOT NULL are
    `string`; every other text column is a nullable `Field`. */
module Schema {
  import opened Sql

  /** A row of `taxonomic_units`. */
  datatype TaxonomicUnit = TaxonomicUnit(
    tsn: string,
    parentTsn: Field,
    kingdomId: Field,
    rankId: Field,
    nameUsage: Field,
    unacceptReason: Field,
    currencyRating: Field,
    completenessRtng: Field,
    credibilityRtng: Field,
    completeName: Field,
    unitInd1: Field, unitInd2: Field, unitInd3: Field, unitInd4: Field,
    unitName1: Field, unitName2: Field, unitName3: Field, unitName4: Field,
    taxonAuthorId: Field)

  /** A row of `vernaculars`. */
  datatype Vernacular = Vernacular(tsn: string, vernacularName: Field, language: Field)

  /** A row of `taxon_unit_types` (rank id to rank name). */
  datatype UnitType = UnitType(rankId: string, rankName: Field)

  /** A row of `kingdoms`. */
  datatype KingdomRow = KingdomRow(kingdomId: string, kingdomName: Field)

  /** A row of `strippedauthor`. */
  datatype StrippedAuthor = StrippedAuthor(taxonAuthorId: string, shortAuthor: Field)

  /** A row of `taxon_authors_lkp`. */
  datatype AuthorLookup = AuthorLookup(taxonAuthorId: string, taxonAuthor: Field)

  /** A row of `jurisdiction`. */
  datatype Jurisdiction = Jurisdiction(tsn: string, jurisdictionValue: Field, origin: Field)

  /** A row of `synonym_links`: `tsn` is the synonym, `tsnAccepted` the accepted name. */
  datatype SynonymLink = SynonymLink(tsn: string, tsnAccepted: string)

  /** A row of `tu_comments_links`. */
  datatype CommentLink = CommentLink(tsn: string, commentId: string)

  /** A row of `comments`. */
  datatype CommentRow = CommentRow(commentId: string, commentator: Field, commentDetail: Field)

  /** A row of `geographic_div`. */
  datatype GeographicDiv = GeographicDiv(tsn: string, geographicValue: Field)

  /** A row of `reference_links`: `docIdPrefix` says which table `documentationId` points into. */
  datatype ReferenceLink = ReferenceLink(tsn: string, docIdPrefix: string, documentationId: string)

  /** A row of `publications`. */
  datatype PublicationRow = PublicationRow(
    publicationId: string,
    actualPubDate: Field, isbn: Field, issn: Field, listedPubDate: Field, pages: Field,
    pubComment: Field, publicationName: Field, pubPlace: Field, publisher: Field,
    referenceAuthor: Field, title: Field)

  /** A row of `experts`. */
  datatype ExpertRow = ExpertRow(expertId: string, expert: Field, expComment: Field, updateDate: Field)

  /** A row of `other_sources`. */
  datatype OtherSourceRow = OtherSourceRow(
    sourceId: string, source: Field, sourceComment: Field, sourceType: Field, version: Field)

  /** The whole export, every table in scan order. */
  datatype Database = Database(
    units: seq<TaxonomicUnit>,
    vernaculars: seq<Vernacular>,
    unitTypes: seq<UnitType>,
    kingdoms: seq<KingdomRow>,
    strippedAuthors: seq<StrippedAuthor>,
    authorLookups: seq<AuthorLookup>,
    jurisdictions: seq<Jurisdiction>,
    synonymLinks: seq<SynonymLink>,
    commentLinks: seq<CommentLink>,
    comments: seq<CommentRow>,
    geographicDivs: seq<GeographicDiv>,
    referenceLinks: seq<ReferenceLink>,
    publications: seq<PublicationRow>,
    experts: seq<ExpertRow>,
    otherSources: seq<OtherSourceRow>)

  /** TSN is the primary key of `taxonomic_units`. */
  ghost predicate UniqueTsns(units: seq<TaxonomicUnit>) {
    forall i, j :: 0 <= i < j < |units| ==> units[i].tsn != units[j].tsn
  }
}
