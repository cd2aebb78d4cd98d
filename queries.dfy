/** The read-only lookups of the record assembler: each runs one query and
    maps the rows it returns onto entity objects. A query is a `Where` or a
    `Join` over the tables; a method reads its rows in a loop, as the
    original's `while (rs.next())` does, and is proved equal to a function
    that says which rows it reads and what it makes of them. */
module Queries {
  import opened Sql
  import opened Schema
  import opened Entities

  // ---------------------------------------------------------------------
  // Common names grouped by language (getCommonNames)

  function VernacularTsnIs(tsn: string): Vernacular -> bool { (v: Vernacular) => v.tsn == tsn }
  function LanguageIs(lang: Field): Vernacular -> bool { (v: Vernacular) => v.language == lang }
  function VernacularName(v: Vernacular): Field { v.vernacularName }

  /** The rows of `select language, vernacular_name from vernaculars where tsn = ...`. */
  function VernacularsOf(db: Database, tsn: string): seq<Vernacular> {
    Where(db.vernaculars, VernacularTsnIs(tsn))
  }

  /** The languages that occur in `rows`. */
  function Languages(rows: seq<Vernacular>): set<Field> {
    if rows == [] then {} else Languages(rows[..|rows| - 1]) + {rows[|rows| - 1].language}
  }

  /** A language is present exactly when some row is in it. */
  lemma {:induction false} LanguagesHas(rows: seq<Vernacular>, lang: Field)
    ensures lang in Languages(rows) <==> exists k :: 0 <= k < |rows| && rows[k].language == lang
  {
    if rows != [] {
      var n := |rows| - 1;
      LanguagesHas(rows[..n], lang);
      if lang in Languages(rows[..n]) {
        var k :| 0 <= k < n && rows[..n][k].language == lang;
        assert rows[k].language == lang;
      }
    }
  }

  /** The names of the rows in language `lang`, in row order. */
  function NamesIn(rows: seq<Vernacular>, lang: Field): seq<Field> {
    MapRows(Where(rows, LanguageIs(lang)), VernacularName)
  }

  /** What `getCommonNames` returns: nothing for a null TSN, otherwise one key
      per language present, holding that language's names in row order. */
  function CommonNames(db: Database, tsn: Field): CommonNameMap {
    if tsn.None? then map[]
    else
      var rows := VernacularsOf(db, tsn.value);
      map lang | lang in Languages(rows) :: NamesIn(rows, lang)
  }

  lemma NamesInSnoc(rows: seq<Vernacular>, v: Vernacular, lang: Field)
    ensures NamesIn(rows + [v], lang) == NamesIn(rows, lang) + (if v.language == lang then [v.vernacularName] else [])
  {
    WhereSnoc(rows, v, LanguageIs(lang));
    var w := Where(rows, LanguageIs(lang));
    if v.language == lang {
      assert (w + [v])[..|w|] == w;
    }
  }

  /** `cm` files exactly the rows `rows`: one key per language present, each
      holding that language's names in row order. */
  ghost predicate Groups(cm: CommonNameMap, rows: seq<Vernacular>) {
    && cm.Keys == Languages(rows)
    && forall lang :: lang in cm ==> cm[lang] == NamesIn(rows, lang)
  }

  /** One turn of the grouping loop: append the row's name to its language's list. */
  function File(cm: CommonNameMap, v: Vernacular): CommonNameMap {
    cm[v.language := (if v.language in cm then cm[v.language] else []) + [v.vernacularName]]
  }

  /** A language no row is in has no names. */
  lemma NamesInAbsent(rows: seq<Vernacular>, lang: Field)
    requires lang !in Languages(rows)
    ensures NamesIn(rows, lang) == []
  {
    LanguagesHas(rows, lang);
    WhereNone(rows, LanguageIs(lang));
  }

  /** Filing one more row keeps the map equal to the grouping of the rows read so far. */
  lemma GroupStep(rows: seq<Vernacular>, v: Vernacular, cm: CommonNameMap)
    requires Groups(cm, rows)
    ensures Groups(File(cm, v), rows + [v])
  {
    var cm' := File(cm, v);
    assert (rows + [v])[..|rows|] == rows;
    forall lang | lang in cm'
      ensures cm'[lang] == NamesIn(rows + [v], lang)
    {
      NamesInSnoc(rows, v, lang);
      if lang !in cm {
        NamesInAbsent(rows, lang);
      }
    }
  }

  /** The map the grouping loop has built after reading `rows`. */
  function Grouping(rows: seq<Vernacular>): CommonNameMap {
    if rows == [] then map[] else File(Grouping(rows[..|rows| - 1]), rows[|rows| - 1])
  }

  /** Whatever the rows, the loop's map is their grouping by language. */
  lemma {:induction false} GroupingGroups(rows: seq<Vernacular>)
    ensures Groups(Grouping(rows), rows)
  {
    if rows != [] {
      var init, last := rows[..|rows| - 1], rows[|rows| - 1];
      assert init + [last] == rows;
      GroupingGroups(init);
      GroupStep(init, last, Grouping(init));
    }
  }

  /** Groups the vernacular rows of `tsn` by language: a list is created the
      first time a language is seen and each name is appended to its list. */
  method GetCommonNames(db: Database, tsn: Field) returns (cm: CommonNameMap)
    ensures cm == CommonNames(db, tsn)
  {
    cm := map[];
    if tsn.None? {
      return;
    }
    var rs := VernacularsOf(db, tsn.value);
    var i := 0;
    while i < |rs|
      invariant 0 <= i <= |rs|
      invariant cm == Grouping(rs[..i])
    {
      var lang, vernacular := rs[i].language, rs[i].vernacularName;
      ghost var next := File(cm, rs[i]);
      var verns: seq<Field>;
      if lang in cm {
        verns := cm[lang];
      } else {
        verns := [];
        cm := cm[lang := verns];
      }
      // the list is shared with the map: adding to it changes the map's entry
      verns := verns + [vernacular];
      cm := cm[lang := verns];
      assert cm == next;
      assert rs[..i + 1][..i] == rs[..i];
      i := i + 1;
    }
    assert rs[..|rs|] == rs;
    GroupingGroups(rs);
    CommonNamesIs(db, tsn.value, cm);
  }

  /** A map with the languages of the rows as keys and each language's names
      as value is the grouping. */
  lemma CommonNamesIs(db: Database, tsn: string, cm: CommonNameMap)
    requires Groups(cm, VernacularsOf(db, tsn))
    ensures cm == CommonNames(db, Some(tsn))
  {
  }

  /** No language maps to an empty list: every key came from a row. */
  lemma CommonNamesNonEmpty(db: Database, tsn: Field, lang: Field)
    requires lang in CommonNames(db, tsn)
    ensures |CommonNames(db, tsn)[lang]| > 0
  {
    var rows := VernacularsOf(db, tsn.value);
    LanguagesHas(rows, lang);
    var k :| 0 <= k < |rows| && rows[k].language == lang;
    WhereHas(rows, LanguageIs(lang), rows[k]);
  }

  /** Every vernacular row of the TSN is filed under its own language, and
      appears in that language's list as often as it occurs among the rows. */
  lemma CommonNamesFileEveryRow(db: Database, tsn: string, k: nat)
    requires k < |VernacularsOf(db, tsn)|
    ensures var v := VernacularsOf(db, tsn)[k];
            var cm := CommonNames(db, Some(tsn));
            v.language in cm && v.vernacularName in cm[v.language]
            && multiset(Where(VernacularsOf(db, tsn), LanguageIs(v.language)))[v]
               == multiset(VernacularsOf(db, tsn))[v]
  {
    var rows := VernacularsOf(db, tsn);
    var v := rows[k];
    LanguagesHas(rows, v.language);
    var w := Where(rows, LanguageIs(v.language));
    WhereHas(rows, LanguageIs(v.language), v);
    var j :| 0 <= j < |w| && w[j] == v;
    assert NamesIn(rows, v.language)[j] == v.vernacularName;
    WhereCount(rows, LanguageIs(v.language), v);
  }

  const RedMaple := Vernacular("7", Some("Red Maple"), Some("en"))
  const SwampMaple := Vernacular("7", Some("Swamp Maple"), Some("en"))
  const ErableRouge := Vernacular("7", Some("Érable rouge"), Some("fr"))

  lemma ExampleRows()
    ensures Where([RedMaple, SwampMaple, ErableRouge], VernacularTsnIs("7")) == [RedMaple, SwampMaple, ErableRouge]
    ensures NamesIn([RedMaple, SwampMaple, ErableRouge], Some("en")) == [Some("Red Maple"), Some("Swamp Maple")]
  {
    var a, b, c := RedMaple, SwampMaple, ErableRouge;
    assert [a, b, c] == [a] + [b] + [c];
    assert [a, b] == [a] + [b];
    WhereSnoc([], a, VernacularTsnIs("7"));
    WhereSnoc([a], b, VernacularTsnIs("7"));
    WhereSnoc([a, b], c, VernacularTsnIs("7"));
    WhereSnoc([], a, LanguageIs(Some("en")));
    WhereSnoc([a], b, LanguageIs(Some("en")));
    WhereSnoc([a, b], c, LanguageIs(Some("en")));
    assert [a, b][..1] == [a];
  }

  lemma ExampleLanguages()
    ensures Languages([RedMaple, SwampMaple, ErableRouge]) == {Some("en"), Some("fr")}
    ensures NamesIn([RedMaple, SwampMaple, ErableRouge], Some("fr")) == [Some("Érable rouge")]
  {
    var a, b, c := RedMaple, SwampMaple, ErableRouge;
    assert [a, b, c][..2] == [a, b];
    assert [a, b][..1] == [a];
    assert [a][..0] == [];
    assert Languages([a]) == {Some("en")};
    assert Languages([a, b]) == {Some("en")};
    WhereSingle([a, b, c], LanguageIs(Some("fr")), 2);
  }

  /** The grouping of the rows {en Red Maple, en Swamp Maple, fr Érable rouge}:
      two keys, English holding its two names in row order. */
  lemma CommonNamesExample()
    ensures var db := Database([], [RedMaple, SwampMaple, ErableRouge],
                               [], [], [], [], [], [], [], [], [], [], [], [], []);
            CommonNames(db, Some("7"))
              == map[Some("en") := [Some("Red Maple"), Some("Swamp Maple")], Some("fr") := [Some("Érable rouge")]]
  {
    var rows := [RedMaple, SwampMaple, ErableRouge];
    var db := Database([], rows, [], [], [], [], [], [], [], [], [], [], [], [], []);
    ExampleRows();
    ExampleLanguages();
    var cm := map[Some("en") := [Some("Red Maple"), Some("Swamp Maple")], Some("fr") := [Some("Érable rouge")]];
    assert Groups(cm, rows);
    CommonNamesIs(db, "7", cm);
  }

  // ---------------------------------------------------------------------
  // Reference lists (makePublications, makeExperts, makeOtherSources)

  function PublicationIdIs(docId: string): PublicationRow -> bool { (p: PublicationRow) => p.publicationId == docId }
  function ExpertIdIs(docId: string): ExpertRow -> bool { (e: ExpertRow) => e.expertId == docId }
  function SourceIdIs(docId: string): OtherSourceRow -> bool { (s: OtherSourceRow) => s.sourceId == docId }

  function ToPublication(p: PublicationRow): Publication {
    Publication(p.actualPubDate, p.isbn, p.issn, p.listedPubDate, p.pages, p.pubComment,
                p.publicationName, p.pubPlace, p.publisher, p.referenceAuthor, p.title)
  }
  function ToExpert(e: ExpertRow): Expert { Expert(e.expert, e.expComment, e.updateDate) }
  function ToOtherSource(s: OtherSourceRow): OtherSource {
    OtherSource(s.source, s.sourceComment, s.sourceType, s.version)
  }

  /** The publications of one document: the list stays null unless a row matches. */
  function Publications(db: Database, docId: string): PublicationList {
    var rows := Where(db.publications, PublicationIdIs(docId));
    PublicationList(if rows == [] then None else Some(MapRows(rows, ToPublication)))
  }

  /** The experts of one document: the list stays null unless a row matches. */
  function Experts(db: Database, docId: string): ExpertList {
    var rows := Where(db.experts, ExpertIdIs(docId));
    ExpertList(if rows == [] then None else Some(MapRows(rows, ToExpert)))
  }

  /** The other sources of one document: the list is never null. */
  function OtherSources(db: Database, docId: string): OtherSourceList {
    OtherSourceList(Some(MapRows(Where(db.otherSources, SourceIdIs(docId)), ToOtherSource)))
  }

  /** Creates the list on the first matching row, so no row leaves it null. */
  method MakePublications(db: Database, docId: string) returns (r: PublicationList)
    ensures r == Publications(db, docId)
  {
    var rs := Where(db.publications, PublicationIdIs(docId));
    var pubs: Option<seq<Publication>> := None;
    var i := 0;
    while i < |rs|
      invariant 0 <= i <= |rs|
      invariant pubs == if i == 0 then None else Some(MapRows(rs[..i], ToPublication))
    {
      var pub := ToPublication(rs[i]);
      if pubs.None? {
        pubs := Some([]);
      }
      assert rs[..i + 1][..i] == rs[..i];
      pubs := Some(pubs.value + [pub]);
      i := i + 1;
    }
    assert rs[..|rs|] == rs;
    r := PublicationList(pubs);
  }

  /** Creates the list on the first matching row, so no row leaves it null. */
  method MakeExperts(db: Database, docId: string) returns (r: ExpertList)
    ensures r == Experts(db, docId)
  {
    var rs := Where(db.experts, ExpertIdIs(docId));
    var experts: Option<seq<Expert>> := None;
    var i := 0;
    while i < |rs|
      invariant 0 <= i <= |rs|
      invariant experts == if i == 0 then None else Some(MapRows(rs[..i], ToExpert))
    {
      var exp := ToExpert(rs[i]);
      if experts.None? {
        experts := Some([]);
      }
      assert rs[..i + 1][..i] == rs[..i];
      experts := Some(experts.value + [exp]);
      i := i + 1;
    }
    assert rs[..|rs|] == rs;
    r := ExpertList(experts);
  }

  /** Creates the list before reading any row. */
  method MakeOtherSources(db: Database, docId: string) returns (r: OtherSourceList)
    ensures r == OtherSources(db, docId)
    ensures r.otherSources.Some?
  {
    var rs := Where(db.otherSources, SourceIdIs(docId));
    var sources := Collect(rs, ToOtherSource);
    r := OtherSourceList(Some(sources));
  }

  /** A matching publication row always yields a non-null list holding it;
      no matching row leaves the list null. */
  lemma PublicationsNullIffNoRow(db: Database, docId: string)
    ensures Publications(db, docId).publications.None?
            <==> forall p :: p in db.publications ==> p.publicationId != docId
    ensures forall p :: p in db.publications && p.publicationId == docId ==>
              var list := Publications(db, docId).publications;
              list.Some? && ToPublication(p) in list.value
  {
    var rows := Where(db.publications, PublicationIdIs(docId));
    if rows != [] {
      WhereHas(db.publications, PublicationIdIs(docId), rows[0]);
    }
    forall p | p in db.publications && p.publicationId == docId
      ensures var list := Publications(db, docId).publications;
              list.Some? && ToPublication(p) in list.value
    {
      WhereHas(db.publications, PublicationIdIs(docId), p);
      var j :| 0 <= j < |rows| && rows[j] == p;
      assert MapRows(rows, ToPublication)[j] == ToPublication(p);
    }
  }

  /** As for publications: null exactly when no expert row matches. */
  lemma ExpertsNullIffNoRow(db: Database, docId: string)
    ensures Experts(db, docId).experts.None?
            <==> forall e :: e in db.experts ==> e.expertId != docId
  {
    var rows := Where(db.experts, ExpertIdIs(docId));
    if rows != [] {
      WhereHas(db.experts, ExpertIdIs(docId), rows[0]);
    }
    forall e | e in db.experts && e.expertId == docId
      ensures rows != []
    {
      WhereHas(db.experts, ExpertIdIs(docId), e);
    }
  }

  // ---------------------------------------------------------------------
  // Taxon author (makeTaxonAuthor) and scientific-name author (makeScientificNameAuthor)

  function AuthorIdIs(id: Field): AuthorLookup -> bool { (a: AuthorLookup) => id == Some(a.taxonAuthorId) }

  /** The authorship of the LAST matching `taxon_authors_lkp` row, null if none. */
  function TaxonAuthorOf(db: Database, taxonAuthorId: Field): TaxonAuthor {
    match Last(Where(db.authorLookups, AuthorIdIs(taxonAuthorId)))
    case None => TaxonAuthor(None)
    case Some(a) => TaxonAuthor(a.taxonAuthor)
  }

  /** Overwrites the authorship with every matching row it reads. */
  method MakeTaxonAuthor(db: Database, taxonAuthorId: Field) returns (ta: TaxonAuthor)
    ensures ta == TaxonAuthorOf(db, taxonAuthorId)
  {
    ta := TaxonAuthor(None);
    var rs := Where(db.authorLookups, AuthorIdIs(taxonAuthorId));
    var i := 0;
    while i < |rs|
      invariant 0 <= i <= |rs|
      invariant ta == if i == 0 then TaxonAuthor(None) else TaxonAuthor(rs[i - 1].taxonAuthor)
    {
      ta := TaxonAuthor(rs[i].taxonAuthor);
      i := i + 1;
    }
  }

  /** Of two lookup rows for one author id, the later one decides the authorship. */
  lemma TaxonAuthorLastRowWins(db: Database, id: string, i: nat, j: nat)
    requires i < j < |db.authorLookups|
    requires db.authorLookups[i].taxonAuthorId == id && db.authorLookups[j].taxonAuthorId == id
    requires forall k :: j < k < |db.authorLookups| ==> db.authorLookups[k].taxonAuthorId != id
    ensures TaxonAuthorOf(db, Some(id)).authorship == db.authorLookups[j].taxonAuthor
  {
    var rows := db.authorLookups;
    var keep := AuthorIdIs(Some(id));
    assert rows == rows[..j + 1] + rows[j + 1..];
    WhereNone(rows[j + 1..], keep);
    WhereAppend(rows[..j + 1], rows[j + 1..], keep);
    assert rows[..j + 1][..j] == rows[..j];
  }

  function AuthorOn(tsn: string): (StrippedAuthor, TaxonomicUnit) -> bool {
    (sa: StrippedAuthor, u: TaxonomicUnit) => u.tsn == tsn && u.taxonAuthorId == Some(sa.taxonAuthorId)
  }

  /** `select shortauthor from strippedauthor, taxonomic_units where
      taxonomic_units.tsn = ... and taxon_author_id = strippedauthor.taxon_author_id`. */
  function AuthorRows(db: Database, tsn: string): seq<(StrippedAuthor, TaxonomicUnit)> {
    Join(db.strippedAuthors, db.units, AuthorOn(tsn))
  }

  /** The short author of the first joined row, null if the join is empty. */
  function ScientificNameAuthor(db: Database, tsn: string): (author: Field)
    ensures AuthorRows(db, tsn) == [] ==> author.None?
    ensures AuthorRows(db, tsn) != [] ==>
              exists sa, u :: sa in db.strippedAuthors && u in db.units && u.tsn == tsn
                              && u.taxonAuthorId == Some(sa.taxonAuthorId) && author == sa.shortAuthor
  {
    match First(AuthorRows(db, tsn))
    case None => None
    case Some(row) =>
      assert row in AuthorRows(db, tsn);
      JoinHas(db.strippedAuthors, db.units, AuthorOn(tsn), row);
      row.0.shortAuthor
  }

  // ---------------------------------------------------------------------
  // The one-to-many lists of a record

  function JurisdictionTsnIs(tsn: string): Jurisdiction -> bool { (j: Jurisdiction) => j.tsn == tsn }
  function ToJurisdictionalOrigin(j: Jurisdiction): JurisdictionalOrigin {
    JurisdictionalOrigin(j.jurisdictionValue, j.origin)
  }
  function JurisdictionalOrigins(db: Database, tsn: string): JurisdictionalOriginsList {
    JurisdictionalOriginsList(Some(MapRows(Where(db.jurisdictions, JurisdictionTsnIs(tsn)), ToJurisdictionalOrigin)))
  }

  method MakeJurisdictionalOrigins(db: Database, tsn: string) returns (r: JurisdictionalOriginsList)
    ensures r == JurisdictionalOrigins(db, tsn)
  {
    var origins := Collect(Where(db.jurisdictions, JurisdictionTsnIs(tsn)), ToJurisdictionalOrigin);
    r := JurisdictionalOriginsList(Some(origins));
  }

  function GeoTsnIs(tsn: string): GeographicDiv -> bool { (g: GeographicDiv) => g.tsn == tsn }
  function ToGeoDivision(g: GeographicDiv): GeoDivision { GeoDivision(g.geographicValue) }
  function GeographicDivisions(db: Database, tsn: string): GeographicDivisionsList {
    GeographicDivisionsList(Some(MapRows(Where(db.geographicDivs, GeoTsnIs(tsn)), ToGeoDivision)))
  }

  method MakeGeographicDivisions(db: Database, tsn: string) returns (r: GeographicDivisionsList)
    ensures r == GeographicDivisions(db, tsn)
  {
    var divisions := Collect(Where(db.geographicDivs, GeoTsnIs(tsn)), ToGeoDivision);
    r := GeographicDivisionsList(Some(divisions));
  }

  function ToCommonName(v: Vernacular): CommonName { CommonName(v.vernacularName, v.language) }
  /** The flat list of a record's common names, one per vernacular row. */
  function CommonNameList(db: Database, tsn: string): CommonNamesList {
    CommonNamesList(Some(MapRows(VernacularsOf(db, tsn), ToCommonName)))
  }

  method MakeCommonNames(db: Database, tsn: string) returns (r: CommonNamesList)
    ensures r == CommonNameList(db, tsn)
  {
    var names := Collect(VernacularsOf(db, tsn), ToCommonName);
    r := CommonNamesList(Some(names));
  }

  function CommentOn(tsn: string): (CommentLink, CommentRow) -> bool {
    (l: CommentLink, c: CommentRow) => l.tsn == tsn && l.commentId == c.commentId
  }
  function ToComment(row: (CommentLink, CommentRow)): Comment {
    Comment(Some(row.1.commentId), row.1.commentDetail, row.1.commentator)
  }
  /** `from tu_comments_links, comments where tsn = ... and the comment ids agree`. */
  function Comments(db: Database, tsn: string): CommentList {
    CommentList(Some(MapRows(Join(db.commentLinks, db.comments, CommentOn(tsn)), ToComment)))
  }

  method MakeComments(db: Database, tsn: string) returns (r: CommentList)
    ensures r == Comments(db, tsn)
  {
    var comments := Collect(Join(db.commentLinks, db.comments, CommentOn(tsn)), ToComment);
    r := CommentList(Some(comments));
  }

  function AcceptedOn(tsn: string): ((StrippedAuthor, SynonymLink), TaxonomicUnit) -> bool {
    (p: (StrippedAuthor, SynonymLink), u: TaxonomicUnit) =>
      p.1.tsn == tsn && u.tsn == p.1.tsnAccepted && u.taxonAuthorId == Some(p.0.taxonAuthorId)
  }
  function ToAcceptedName(row: ((StrippedAuthor, SynonymLink), TaxonomicUnit)): AcceptedName {
    AcceptedName(row.1.completeName, Some(row.1.tsn), row.0.0.shortAuthor)
  }
  function AllPairs<A, B>(): (A, B) -> bool { (a: A, b: B) => true }
  /** `from strippedauthor, synonym_links, taxonomic_units`: the units this TSN is a synonym of. */
  function AcceptedNames(db: Database, tsn: string): AcceptedNamesList {
    var rows := Join(Join(db.strippedAuthors, db.synonymLinks, AllPairs()), db.units, AcceptedOn(tsn));
    AcceptedNamesList(Some(MapRows(rows, ToAcceptedName)))
  }

  method MakeAcceptedNames(db: Database, tsn: string) returns (r: AcceptedNamesList)
    ensures r == AcceptedNames(db, tsn)
  {
    var rows := Join(Join(db.strippedAuthors, db.synonymLinks, AllPairs()), db.units, AcceptedOn(tsn));
    var names := Collect(rows, ToAcceptedName);
    r := AcceptedNamesList(Some(names));
  }

  function SynonymOn(tsn: string): ((StrippedAuthor, SynonymLink), TaxonomicUnit) -> bool {
    (p: (StrippedAuthor, SynonymLink), u: TaxonomicUnit) =>
      p.1.tsnAccepted == tsn && u.tsn == p.1.tsn && u.taxonAuthorId == Some(p.0.taxonAuthorId)
  }
  function ToSynonym(row: ((StrippedAuthor, SynonymLink), TaxonomicUnit)): Synonym {
    Synonym(row.1.completeName, Some(row.1.tsn), row.0.0.shortAuthor)
  }
  /** The units linked to this TSN as its synonyms. */
  function Synonyms(db: Database, tsn: string): SynonymList {
    var rows := Join(Join(db.strippedAuthors, db.synonymLinks, AllPairs()), db.units, SynonymOn(tsn));
    SynonymList(Some(MapRows(rows, ToSynonym)))
  }

  method MakeSynonyms(db: Database, tsn: string) returns (r: SynonymList)
    ensures r == Synonyms(db, tsn)
  {
    var rows := Join(Join(db.strippedAuthors, db.synonymLinks, AllPairs()), db.units, SynonymOn(tsn));
    var synonyms := Collect(rows, ToSynonym);
    r := SynonymList(Some(synonyms));
  }

  /** Every synonym entry is made from a link naming `tsn` as the accepted
      unit, the unit that link names as the synonym, and a `strippedauthor`
      row whose id is that unit's author id. */
  lemma SynonymsAreLinked(db: Database, tsn: string, s: Synonym)
    requires s in Synonyms(db, tsn).synonyms.value
    ensures exists sa, l, u :: && sa in db.strippedAuthors && l in db.synonymLinks && u in db.units
                               && l.tsnAccepted == tsn && l.tsn == u.tsn
                               && u.taxonAuthorId == Some(sa.taxonAuthorId)
                               && s == Synonym(u.completeName, Some(u.tsn), sa.shortAuthor)
  {
    var rows := Join(Join(db.strippedAuthors, db.synonymLinks, AllPairs()), db.units, SynonymOn(tsn));
    var j :| 0 <= j < |rows| && MapRows(rows, ToSynonym)[j] == s;
    var row := rows[j];
    JoinHas(Join(db.strippedAuthors, db.synonymLinks, AllPairs()), db.units, SynonymOn(tsn), row);
    JoinHas(db.strippedAuthors, db.synonymLinks, AllPairs(), row.0);
    assert row.0.0 in db.strippedAuthors && row.0.1 in db.synonymLinks && row.1 in db.units;
  }

  /** Every accepted-name entry is made from a link naming `tsn` as the
      synonym, the accepted unit that link names, and a `strippedauthor` row
      whose id is that unit's author id. */
  lemma AcceptedNamesAreLinked(db: Database, tsn: string, a: AcceptedName)
    requires a in AcceptedNames(db, tsn).acceptedNames.value
    ensures exists sa, l, u :: && sa in db.strippedAuthors && l in db.synonymLinks && u in db.units
                               && l.tsn == tsn && l.tsnAccepted == u.tsn
                               && u.taxonAuthorId == Some(sa.taxonAuthorId)
                               && a == AcceptedName(u.completeName, Some(u.tsn), sa.shortAuthor)
  {
    var rows := Join(Join(db.strippedAuthors, db.synonymLinks, AllPairs()), db.units, AcceptedOn(tsn));
    var j :| 0 <= j < |rows| && MapRows(rows, ToAcceptedName)[j] == a;
    var row := rows[j];
    JoinHas(Join(db.strippedAuthors, db.synonymLinks, AllPairs()), db.units, AcceptedOn(tsn), row);
    JoinHas(db.strippedAuthors, db.synonymLinks, AllPairs(), row.0);
    assert row.0.0 in db.strippedAuthors && row.0.1 in db.synonymLinks && row.1 in db.units;
  }

  // ---------------------------------------------------------------------
  // The lookups behind the rank-name and kingdom caches

  function RankIdIs(rankId: Field): UnitType -> bool { (t: UnitType) => rankId == Some(t.rankId) }
  function KingdomIdIs(id: Field): KingdomRow -> bool { (k: KingdomRow) => id == Some(k.kingdomId) }

  /** The row `select rank_name from taxon_unit_types where rank_id = ...`
      positions on with its one `rs.next()`; none for a null or unknown id. */
  function RankNameRow(db: Database, rankId: Field): Option<UnitType> {
    First(Where(db.unitTypes, RankIdIs(rankId)))
  }

  /** The rank name reported for a rank id: the first matching row's, or null. */
  function RankNameOf(db: Database, rankId: Field): Field {
    match RankNameRow(db, rankId)
    case None => None
    case Some(t) => t.rankName
  }

  /** The row `select kingdom_name from kingdoms where kingdom_id = ...` reads first. */
  function KingdomNameRow(db: Database, id: Field): Option<KingdomRow> {
    First(Where(db.kingdoms, KingdomIdIs(id)))
  }

  /** The kingdom name reported for a kingdom id: the first matching row's, or null. */
  function KingdomNameOf(db: Database, id: Field): Field {
    match KingdomNameRow(db, id)
    case None => None
    case Some(k) => k.kingdomName
  }

  /** A rank name comes from a `taxon_unit_types` row carrying that id; a null
      id, which no row carries, has none. */
  lemma RankNameFromRow(db: Database, rankId: Field)
    ensures RankNameOf(db, rankId).Some? ==>
              exists t :: t in db.unitTypes && rankId == Some(t.rankId) && RankNameOf(db, rankId) == t.rankName
    ensures rankId.None? ==> RankNameRow(db, rankId).None?
  {
    var rows := Where(db.unitTypes, RankIdIs(rankId));
    if rows != [] {
      WhereHas(db.unitTypes, RankIdIs(rankId), rows[0]);
    }
  }

  /** A kingdom name comes from a `kingdoms` row carrying that id; a null id has none. */
  lemma KingdomNameFromRow(db: Database, id: Field)
    ensures KingdomNameOf(db, id).Some? ==>
              exists k :: k in db.kingdoms && id == Some(k.kingdomId) && KingdomNameOf(db, id) == k.kingdomName
    ensures id.None? ==> KingdomNameRow(db, id).None?
  {
    var rows := Where(db.kingdoms, KingdomIdIs(id));
    if rows != [] {
      WhereHas(db.kingdoms, KingdomIdIs(id), rows[0]);
    }
  }
}
