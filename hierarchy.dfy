/** The taxonomic hierarchy around a unit: the chain of ancestors from the
    root down to a unit (`getHierarchyAbove`) and the unit's direct children
    (`getHierarchyOneLevelDown`), each rank described by a `TaxRank`. */
module Hierarchy {
  import opened Sql
  import opened Schema
  import opened Entities
  import opened Queries

  function TsnIs(tsn: string): TaxonomicUnit -> bool { (u: TaxonomicUnit) => u.tsn == tsn }
  function ParentIs(tsn: string): TaxonomicUnit -> bool { (u: TaxonomicUnit) => u.parentTsn == Some(tsn) }

  /** The rows of `select * from taxonomic_units where tsn = ...`. */
  function UnitsOf(db: Database, tsn: string): seq<TaxonomicUnit> {
    Where(db.units, TsnIs(tsn))
  }

  /** The rows of `select * from taxonomic_units where parent_tsn = ...`. */
  function Children(db: Database, tsn: string): seq<TaxonomicUnit> {
    Where(db.units, ParentIs(tsn))
  }

  // ---------------------------------------------------------------------
  // Acyclic parent links

  /** `rank` numbers unit `i`, and its parent, when that is a unit, has a
      smaller number. */
  ghost predicate RankedAt(units: seq<TaxonomicUnit>, rank: map<string, nat>, i: nat)
    requires i < |units|
  {
    && units[i].tsn in rank
    && (units[i].parentTsn.Some? && units[i].parentTsn.value in rank ==>
          rank[units[i].parentTsn.value] < rank[units[i].tsn])
  }

  /** `rank` numbers every unit so that a unit's parent, when it is a unit,
      has a smaller number. */
  ghost predicate Ranked(units: seq<TaxonomicUnit>, rank: map<string, nat>) {
    forall i: nat {:trigger RankedAt(units, rank, i)} :: i < |units| ==> RankedAt(units, rank, i)
  }

  /** Following `parent_tsn` from any unit never comes back to it. The loader
      does not check this: on a cycle its recursion overflows the stack, and
      the error ends the whole load. */
  ghost predicate Acyclic(units: seq<TaxonomicUnit>) {
    exists rank :: Ranked(units, rank)
  }

  ghost function Ranking(units: seq<TaxonomicUnit>): (rank: map<string, nat>)
    requires Acyclic(units)
    ensures Ranked(units, rank)
  {
    var rank :| Ranked(units, rank); rank
  }

  /** A bound on the number of ancestors of `tsn`: what the recursion up the
      parent links decreases. */
  ghost function Height(units: seq<TaxonomicUnit>, tsn: Field): nat
    requires Acyclic(units)
  {
    if tsn.Some? && tsn.value in Ranking(units) then Ranking(units)[tsn.value] + 1 else 0
  }

  /** A unit's parent is lower than the unit itself. */
  lemma HeightParent(units: seq<TaxonomicUnit>, u: TaxonomicUnit)
    requires Acyclic(units) && u in units
    ensures Height(units, u.parentTsn) < Height(units, Some(u.tsn))
  {
    var i :| 0 <= i < |units| && units[i] == u;
    assert RankedAt(units, Ranking(units), i);
  }

  // ---------------------------------------------------------------------
  // Ranks

  /** The rank describing unit `u`: its TSN, rank id and name, complete name,
      kingdom id and name, and its common names grouped by language. */
  function Entry(db: Database, u: TaxonomicUnit): TaxRank {
    TaxRank(Some(u.tsn), u.rankId, RankNameOf(db, u.rankId), u.completeName,
            u.kingdomId, KingdomNameOf(db, u.kingdomId), Some(CommonNames(db, Some(u.tsn))))
  }

  /** The ranks of `rows`, in order. */
  function Entries(db: Database, rows: seq<TaxonomicUnit>): (r: seq<TaxRank>)
    ensures |r| == |rows|
  {
    if rows == [] then [] else Entries(db, rows[..|rows| - 1]) + [Entry(db, rows[|rows| - 1])]
  }

  lemma {:induction false} EntriesAt(db: Database, rows: seq<TaxonomicUnit>, i: nat)
    requires i < |rows|
    ensures Entries(db, rows)[i] == Entry(db, rows[i])
  {
    if i < |rows| - 1 {
      EntriesAt(db, rows[..|rows| - 1], i);
    }
  }

  /** The ranks of `a + b` are those of `a`, then those of `b`. */
  lemma {:induction false} EntriesAppend(db: Database, a: seq<TaxonomicUnit>, b: seq<TaxonomicUnit>)
    ensures Entries(db, a + b) == Entries(db, a) + Entries(db, b)
    decreases |b|
  {
    if b == [] {
      assert a + b == a;
    } else {
      var init := b[..|b| - 1];
      assert (a + b)[..|a + b| - 1] == a + init;
      EntriesAppend(db, a, init);
    }
  }

  /** The units `getHierarchyAbove` visits, in the order their ranks are
      listed: nothing for a null TSN; otherwise, for every row with that TSN,
      the units above its parent followed by the row itself. */
  ghost function AboveUnits(db: Database, tsn: Field): seq<TaxonomicUnit>
    requires Acyclic(db.units)
    decreases Height(db.units, tsn), 1, 0
  {
    if tsn.None? then []
    else
      WhereAll(db.units, TsnIs(tsn.value));
      var rows := UnitsOf(db, tsn.value);
      AboveUnitRows(db, tsn.value, rows, |rows|)
  }

  /** What the loop of `getHierarchyAbove` has visited after the first `n`
      of the units `rows` with TSN `tsn`. */
  ghost function AboveUnitRows(db: Database, tsn: string, rows: seq<TaxonomicUnit>, n: nat): seq<TaxonomicUnit>
    requires Acyclic(db.units) && n <= |rows|
    requires forall u :: u in rows ==> u in db.units && u.tsn == tsn
    decreases Height(db.units, Some(tsn)), 0, n
  {
    if n == 0 then []
    else
      var last := rows[n - 1];
      HeightParent(db.units, last);
      AboveUnitRows(db, tsn, rows, n - 1) + AboveUnits(db, last.parentTsn) + [last]
  }

  /** What `getHierarchyAbove` returns: the ranks of the units it visits. */
  ghost function Above(db: Database, tsn: Field): seq<TaxRank>
    requires Acyclic(db.units)
  {
    Entries(db, AboveUnits(db, tsn))
  }

  /** The units above a TSN are what its loop visits over all its rows. */
  lemma AboveUnfold(db: Database, tsn: string)
    requires Acyclic(db.units)
    ensures forall u :: u in UnitsOf(db, tsn) ==> u in db.units && u.tsn == tsn
    ensures AboveUnits(db, Some(tsn)) == AboveUnitRows(db, tsn, UnitsOf(db, tsn), |UnitsOf(db, tsn)|)
  {
    WhereAll(db.units, TsnIs(tsn));
  }

  /** One more row adds the units above its parent, then the row itself. */
  lemma AboveRowsStep(db: Database, tsn: string, rows: seq<TaxonomicUnit>, n: nat)
    requires Acyclic(db.units) && n < |rows|
    requires forall u :: u in rows ==> u in db.units && u.tsn == tsn
    ensures AboveUnitRows(db, tsn, rows, n + 1)
            == AboveUnitRows(db, tsn, rows, n) + AboveUnits(db, rows[n].parentTsn) + [rows[n]]
  {
  }

  /** What `getHierarchyOneLevelDown` returns: one rank per child row, in row order. */
  function OneLevelDown(db: Database, tsn: Field): seq<TaxRank> {
    if tsn.None? then [] else Entries(db, Children(db, tsn.value))
  }

  // ---------------------------------------------------------------------
  // The chain above a unit

  /** No unit has TSN `tsn`: the parent link ends there. */
  ghost predicate NoRow(units: seq<TaxonomicUnit>, tsn: Field) {
    tsn.None? || forall i :: 0 <= i < |units| ==> units[i].tsn != tsn.value
  }

  /** `path` runs from a root (a unit whose parent is not a unit) down to the
      unit with TSN `tsn`, each unit the child of the one before it. */
  ghost predicate RootPath(units: seq<TaxonomicUnit>, path: seq<TaxonomicUnit>, tsn: string) {
    && |path| > 0
    && (forall i :: 0 <= i < |path| ==> path[i] in units)
    && path[|path| - 1].tsn == tsn
    && NoRow(units, path[0].parentTsn)
    && (forall i :: 0 < i < |path| ==> path[i].parentTsn == Some(path[i - 1].tsn))
  }

  /** A null TSN, or one no unit has, has nothing above it. */
  lemma AboveNoRow(db: Database, tsn: Field)
    requires Acyclic(db.units) && NoRow(db.units, tsn)
    ensures AboveUnits(db, tsn) == [] && Above(db, tsn) == []
  {
    if tsn.Some? {
      WhereNone(db.units, TsnIs(tsn.value));
    }
  }

  /** With TSN as key, the units above a unit are those above its parent
      followed by the unit itself. */
  lemma AboveOfUnit(db: Database, u: TaxonomicUnit)
    requires Acyclic(db.units) && UniqueTsns(db.units) && u in db.units
    ensures AboveUnits(db, Some(u.tsn)) == AboveUnits(db, u.parentTsn) + [u]
  {
    var k :| 0 <= k < |db.units| && db.units[k] == u;
    WhereSingle(db.units, TsnIs(u.tsn), k);
    assert UnitsOf(db, u.tsn) == [u];
    assert AboveUnitRows(db, u.tsn, [u], 1) == AboveUnits(db, u.parentTsn) + [u];
  }

  /** The units above `tsn` are exactly the root path ending at `tsn`, root
      first; so there are as many ranks as the unit is deep. */
  lemma {:induction false} AbovePath(db: Database, path: seq<TaxonomicUnit>, tsn: string)
    requires Acyclic(db.units) && UniqueTsns(db.units)
    requires RootPath(db.units, path, tsn)
    ensures AboveUnits(db, Some(tsn)) == path
    decreases |path|
  {
    var n := |path| - 1;
    var u := path[n];
    AboveOfUnit(db, u);
    if n == 0 {
      AboveNoRow(db, u.parentTsn);
      assert path == [u];
    } else {
      var init := path[..n];
      assert RootPath(db.units, init, path[n - 1].tsn);
      AbovePath(db, init, path[n - 1].tsn);
      assert path == init + [u];
    }
  }

  /** Every unit lies at the end of a root path. */
  lemma RootPathExists(db: Database, u: TaxonomicUnit)
    requires Acyclic(db.units) && u in db.units
    ensures exists path :: RootPath(db.units, path, u.tsn) && path[|path| - 1] == u
    decreases Height(db.units, Some(u.tsn))
  {
    if NoRow(db.units, u.parentTsn) {
      assert RootPath(db.units, [u], u.tsn);
    } else {
      var k :| 0 <= k < |db.units| && db.units[k].tsn == u.parentTsn.value;
      var w := db.units[k];
      HeightParent(db.units, u);
      RootPathExists(db, w);
      var path :| RootPath(db.units, path, w.tsn) && path[|path| - 1] == w;
      var path' := path + [u];
      assert RootPath(db.units, path', u.tsn);
    }
  }

  /** Above a unit lie the ranks of a root path ending at that unit: root
      first, each rank that of the parent of the next, the unit's own last. */
  lemma AboveChain(db: Database, u: TaxonomicUnit)
    requires Acyclic(db.units) && UniqueTsns(db.units) && u in db.units
    ensures exists path :: && RootPath(db.units, path, u.tsn) && path[|path| - 1] == u
                           && AboveUnits(db, Some(u.tsn)) == path
  {
    RootPathExists(db, u);
    var path :| RootPath(db.units, path, u.tsn) && path[|path| - 1] == u;
    AbovePath(db, path, u.tsn);
  }

  // ---------------------------------------------------------------------
  // One level down

  /** TSNs stay distinct in any filtered part of the units. */
  lemma {:induction false} WhereUniqueTsns(units: seq<TaxonomicUnit>, keep: TaxonomicUnit -> bool)
    requires UniqueTsns(units)
    ensures UniqueTsns(Where(units, keep))
  {
    if units != [] {
      var init, last := units[..|units| - 1], units[|units| - 1];
      WhereUniqueTsns(init, keep);
      var w := Where(init, keep);
      forall x | x in w
        ensures x.tsn != last.tsn
      {
        WhereHas(init, keep, x);
      }
    }
  }

  /** A unit's rank is listed one level down from `tsn` exactly when its
      parent is `tsn`. */
  lemma OneLevelDownHas(db: Database, tsn: string, u: TaxonomicUnit)
    requires UniqueTsns(db.units) && u in db.units
    ensures Entry(db, u) in OneLevelDown(db, Some(tsn)) <==> u.parentTsn == Some(tsn)
  {
    var c := Children(db, tsn);
    var r := OneLevelDown(db, Some(tsn));
    WhereHas(db.units, ParentIs(tsn), u);
    if u.parentTsn == Some(tsn) {
      var j :| 0 <= j < |c| && c[j] == u;
      EntriesAt(db, c, j);
    }
    if Entry(db, u) in r {
      var j :| 0 <= j < |r| && r[j] == Entry(db, u);
      EntriesAt(db, c, j);
      WhereHas(db.units, ParentIs(tsn), c[j]);
      var a :| 0 <= a < |db.units| && db.units[a] == u;
      var b :| 0 <= b < |db.units| && db.units[b] == c[j];
      assert db.units[a].tsn == db.units[b].tsn;
    }
  }

  /** No TSN is listed twice one level down, so each child appears once. */
  lemma OneLevelDownDistinct(db: Database, tsn: string)
    requires UniqueTsns(db.units)
    ensures var r := OneLevelDown(db, Some(tsn));
            forall i, j :: 0 <= i < j < |r| ==> r[i].tsn != r[j].tsn
  {
    var c := Children(db, tsn);
    WhereUniqueTsns(db.units, ParentIs(tsn));
    forall i | 0 <= i < |c|
      ensures OneLevelDown(db, Some(tsn))[i].tsn == Some(c[i].tsn)
    {
      EntriesAt(db, c, i);
    }
  }

  /** Every child row of `tsn` appears among the children as often as in the table. */
  lemma ChildrenCount(db: Database, tsn: string, u: TaxonomicUnit)
    ensures multiset(Children(db, tsn))[u] == if u.parentTsn == Some(tsn) then multiset(db.units)[u] else 0
  {
    WhereCount(db.units, ParentIs(tsn), u);
  }

  // ---------------------------------------------------------------------
  // A three-level example: Plantae above Acer above Acer rubrum

  const Plantae := TaxonomicUnit("202422", None, Some("3"), Some("10"), Some("valid"), None, None, None, None,
                                 Some("Plantae"), None, None, None, None, Some("Plantae"), None, None, None, None)
  const Acer := TaxonomicUnit("28727", Some("202422"), Some("3"), Some("180"), Some("accepted"), None, None, None, None,
                              Some("Acer"), None, None, None, None, Some("Acer"), None, None, None, None)
  const AcerRubrum := TaxonomicUnit("28728", Some("28727"), Some("3"), Some("220"), Some("accepted"), None, None, None, None,
                                    Some("Acer rubrum"), None, None, None, None, Some("Acer"), Some("rubrum"), None, None, None)

  lemma ExampleShape(db: Database)
    requires db.units == [Plantae, Acer, AcerRubrum]
    ensures Acyclic(db.units) && UniqueTsns(db.units)
    ensures RootPath(db.units, [Plantae, Acer, AcerRubrum], "28728")
  {
    assert Ranked(db.units, map["202422" := 0, "28727" := 1, "28728" := 2]);
  }

  /** Above Acer rubrum: Plantae, then Acer, then Acer rubrum itself. */
  lemma AboveExample(db: Database)
    requires db.units == [Plantae, Acer, AcerRubrum]
    ensures Acyclic(db.units)
    ensures AboveUnits(db, Some("28728")) == [Plantae, Acer, AcerRubrum]
    ensures var r := Above(db, Some("28728"));
            |r| == 3 && r[0].tsn == Some("202422") && r[1].tsn == Some("28727") && r[2].tsn == Some("28728")
  {
    ExampleShape(db);
    var path := [Plantae, Acer, AcerRubrum];
    AbovePath(db, path, "28728");
    EntriesAt(db, path, 0);
    EntriesAt(db, path, 1);
    EntriesAt(db, path, 2);
  }
}
