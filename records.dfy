/** The full record assembled for one row of `taxonomic_units`: the
    column-to-field mapping of `getRecords` and the reference-link dispatch
    of `makeRefs`. */
module Records {
  import opened Sql
  import opened Schema
  import opened Entities
  import opened Queries

  /** The `doc_id_prefix` values `makeRefs` dispatches on. */
  const DocTypePub := "PUB"
  const DocTypeSrc := "SRC"
  const DocTypeExp := "EXP"

  function RefTsnIs(tsn: string): ReferenceLink -> bool { (l: ReferenceLink) => l.tsn == tsn }
  function PrefixIs(prefix: string): ReferenceLink -> bool { (l: ReferenceLink) => l.docIdPrefix == prefix }

  /** The rows of `select * from reference_links where tsn = ...`. */
  function RefLinks(db: Database, tsn: string): seq<ReferenceLink> {
    Where(db.referenceLinks, RefTsnIs(tsn))
  }

  /** One turn of `makeRefs`: a publication, other-source or expert link
      replaces that list by the one its document id selects; a link with any
      other prefix changes nothing. */
  function ApplyRef(db: Database, f: RecordFields, l: ReferenceLink): RecordFields {
    if l.docIdPrefix == DocTypePub then f.(publicationList := Some(Publications(db, l.documentationId)))
    else if l.docIdPrefix == DocTypeSrc then f.(otherSourceList := Some(OtherSources(db, l.documentationId)))
    else if l.docIdPrefix == DocTypeExp then f.(expertList := Some(Experts(db, l.documentationId)))
    else f
  }

  /** The record after `makeRefs` has read `links` in order. */
  function ApplyRefs(db: Database, f: RecordFields, links: seq<ReferenceLink>): RecordFields {
    if links == [] then f else ApplyRef(db, ApplyRefs(db, f, links[..|links| - 1]), links[|links| - 1])
  }

  /** The document id of the last link with the given prefix, if any. */
  function LastDoc(links: seq<ReferenceLink>, prefix: string): Option<string> {
    match Last(Where(links, PrefixIs(prefix)))
    case None => None
    case Some(l) => Some(l.documentationId)
  }

  /** The three lists of `f` a link can replace, put back from `g`. */
  function WithRefsOf(f: RecordFields, g: RecordFields): RecordFields {
    f.(publicationList := g.publicationList, otherSourceList := g.otherSourceList, expertList := g.expertList)
  }

  /** After reading `links`, the publication list is the one selected by the
      last publication link, or untouched when there is none. */
  lemma {:induction false} RefsLastPub(db: Database, f: RecordFields, links: seq<ReferenceLink>)
    ensures ApplyRefs(db, f, links).publicationList
            == match LastDoc(links, DocTypePub)
               case None => f.publicationList
               case Some(d) => Some(Publications(db, d))
  {
    if links != [] {
      var init, last := links[..|links| - 1], links[|links| - 1];
      assert links == init + [last];
      RefsLastPub(db, f, init);
      WhereSnoc(init, last, PrefixIs(DocTypePub));
    }
  }

  /** Likewise the other-source list and the last other-source link. */
  lemma {:induction false} RefsLastSrc(db: Database, f: RecordFields, links: seq<ReferenceLink>)
    ensures ApplyRefs(db, f, links).otherSourceList
            == match LastDoc(links, DocTypeSrc)
               case None => f.otherSourceList
               case Some(d) => Some(OtherSources(db, d))
  {
    if links != [] {
      var init, last := links[..|links| - 1], links[|links| - 1];
      assert links == init + [last];
      RefsLastSrc(db, f, init);
      WhereSnoc(init, last, PrefixIs(DocTypeSrc));
    }
  }

  /** Likewise the expert list and the last expert link. */
  lemma {:induction false} RefsLastExp(db: Database, f: RecordFields, links: seq<ReferenceLink>)
    ensures ApplyRefs(db, f, links).expertList
            == match LastDoc(links, DocTypeExp)
               case None => f.expertList
               case Some(d) => Some(Experts(db, d))
  {
    if links != [] {
      var init, last := links[..|links| - 1], links[|links| - 1];
      assert links == init + [last];
      RefsLastExp(db, f, init);
      WhereSnoc(init, last, PrefixIs(DocTypeExp));
    }
  }

  /** Reading links changes no field of the record but the three lists. */
  lemma {:induction false} RefsKeepOthers(db: Database, f: RecordFields, links: seq<ReferenceLink>)
    ensures WithRefsOf(ApplyRefs(db, f, links), f) == f
  {
    if links != [] {
      RefsKeepOthers(db, f, links[..|links| - 1]);
    }
  }

  /** A link with an unknown prefix leaves the record as it is. */
  lemma UnknownPrefixIgnored(db: Database, f: RecordFields, links: seq<ReferenceLink>, l: ReferenceLink)
    requires l.docIdPrefix !in {DocTypePub, DocTypeSrc, DocTypeExp}
    ensures ApplyRefs(db, f, links + [l]) == ApplyRefs(db, f, links)
  {
    assert (links + [l])[..|links|] == links;
  }

  /** Reads the reference links of `tsn` and, for each, rebuilds the list its
      prefix names from the document it points to. */
  method MakeRefs(db: Database, rec: FullRecord, tsn: string)
    modifies rec
    ensures rec.fields == ApplyRefs(db, old(rec.fields), RefLinks(db, tsn))
  {
    var rs := RefLinks(db, tsn);
    ghost var start := rec.fields;
    var i := 0;
    while i < |rs|
      invariant 0 <= i <= |rs|
      invariant rec.fields == ApplyRefs(db, start, rs[..i])
    {
      var prefix, docId := rs[i].docIdPrefix, rs[i].documentationId;
      if prefix == DocTypePub {
        var publications := MakePublications(db, docId);
        rec.fields := rec.fields.(publicationList := Some(publications));
      } else if prefix == DocTypeSrc {
        var sources := MakeOtherSources(db, docId);
        rec.fields := rec.fields.(otherSourceList := Some(sources));
      } else if prefix == DocTypeExp {
        var experts := MakeExperts(db, docId);
        rec.fields := rec.fields.(expertList := Some(experts));
      }
      assert rs[..i + 1][..i] == rs[..i];
      i := i + 1;
    }
    assert rs[..|rs|] == rs;
  }

  // ---------------------------------------------------------------------
  // The whole record

  /** The record once the columns of row `u` are mapped: names looked up,
      the scientific name and its author read, and the jurisdictional origins
      built; the other lists are still null. */
  function ColumnFields(db: Database, u: TaxonomicUnit): RecordFields {
    var kingdom := Kingdom(u.kingdomId, KingdomNameOf(db, u.kingdomId));
    var currency := CurrencyRating(u.currencyRating, u.rankId);
    BlankRecord.(
      tsn := Some(u.tsn),
      kingdom := kingdom,
      usage := Some(Usage(u.nameUsage)),
      unacceptReason := Some(UnacceptReason(u.unacceptReason)),
      currencyRating := Some(currency),
      completenessRating := CompletenessRating(u.completenessRtng, currency.rankId),
      credibilityRating := Some(CredibilityRating(u.credibilityRtng)),
      taxRank := BlankRank.(kingdomId := kingdom.kingdomId, kingdomName := kingdom.kingdomName,
                            rankId := u.rankId, rankName := RankNameOf(db, u.rankId)),
      parentTsn := ParentTsn(u.parentTsn),
      scientificName := Some(ScientificName(u.completeName, u.unitInd1, u.unitInd2, u.unitInd3, u.unitInd4,
                                            u.unitName1, u.unitName2, u.unitName3, u.unitName4,
                                            ScientificNameAuthor(db, u.tsn))),
      jurisdictionalOriginList := Some(JurisdictionalOrigins(db, u.tsn)))
  }

  /** The record `f` with the comment, geographic-division, common-name,
      synonym and accepted-name lists of `tsn` built. */
  function ListFields(db: Database, f: RecordFields, tsn: string): RecordFields {
    f.(commentList := Some(Comments(db, tsn)),
       geographicDivisionList := Some(GeographicDivisions(db, tsn)),
       commonNameList := Some(CommonNameList(db, tsn)),
       synonymList := Some(Synonyms(db, tsn)),
       acceptedNamesList := Some(AcceptedNames(db, tsn)))
  }

  /** The record `f` finished: its lists built, its reference links read and
      its taxon author looked up. */
  function Completed(db: Database, f: RecordFields, tsn: string, taxonAuthorId: Field): RecordFields {
    ApplyRefs(db, ListFields(db, f, tsn), RefLinks(db, tsn)).(taxonAuthor := Some(TaxonAuthorOf(db, taxonAuthorId)))
  }

  /** The record `getRecords` hands on for row `u`. */
  function RecordOf(db: Database, u: TaxonomicUnit): RecordFields {
    Completed(db, ColumnFields(db, u), u.tsn, u.taxonAuthorId)
  }

  /** The second half of the per-row work of `getRecords`: builds the
      remaining lists of `rec`, reads its reference links, and sets its taxon
      author. */
  method CompleteRecord(db: Database, rec: FullRecord, tsn: string, taxonAuthorId: Field)
    modifies rec
    ensures rec.fields == Completed(db, old(rec.fields), tsn, taxonAuthorId)
  {
    var comments := MakeComments(db, tsn);
    rec.fields := rec.fields.(commentList := Some(comments));
    var divisions := MakeGeographicDivisions(db, tsn);
    rec.fields := rec.fields.(geographicDivisionList := Some(divisions));
    var commonNames := MakeCommonNames(db, tsn);
    rec.fields := rec.fields.(commonNameList := Some(commonNames));
    var synonyms := MakeSynonyms(db, tsn);
    rec.fields := rec.fields.(synonymList := Some(synonyms));
    var accepted := MakeAcceptedNames(db, tsn);
    rec.fields := rec.fields.(acceptedNamesList := Some(accepted));
    MakeRefs(db, rec, tsn);
    var taxonAuthor := MakeTaxonAuthor(db, taxonAuthorId);
    rec.fields := rec.fields.(taxonAuthor := Some(taxonAuthor));
  }

  /** The record of a row carries the row's TSN; its completeness rating has
      the rank id of its currency rating; its rank repeats its kingdom; its
      reference lists are null unless a link of their type exists; its taxon
      author is the last matching lookup row's. */
  lemma RecordOfFields(db: Database, u: TaxonomicUnit)
    ensures var r := RecordOf(db, u);
            && r.tsn == Some(u.tsn)
            && r.currencyRating.Some? && r.completenessRating.rankId == r.currencyRating.value.rankId == u.rankId
            && r.taxRank.kingdomId == r.kingdom.kingdomId == u.kingdomId
            && r.taxRank.kingdomName == r.kingdom.kingdomName == KingdomNameOf(db, u.kingdomId)
            && r.taxRank.rankName == RankNameOf(db, u.rankId)
            && r.parentTsn.parentTsn == u.parentTsn
            && (r.publicationList.None? <==> LastDoc(RefLinks(db, u.tsn), DocTypePub).None?)
            && (r.otherSourceList.None? <==> LastDoc(RefLinks(db, u.tsn), DocTypeSrc).None?)
            && (r.expertList.None? <==> LastDoc(RefLinks(db, u.tsn), DocTypeExp).None?)
            && r.taxonAuthor == Some(TaxonAuthorOf(db, u.taxonAuthorId))
  {
    var m, links := ListFields(db, ColumnFields(db, u), u.tsn), RefLinks(db, u.tsn);
    RefsLastPub(db, m, links);
    RefsLastSrc(db, m, links);
    RefsLastExp(db, m, links);
    RefsKeepOthers(db, m, links);
  }
}
