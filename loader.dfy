/** The loader itself: its two memoizing lookup caches, the hierarchy
    queries that use them, the assembly of one record per row of
    `taxonomic_units`, and the chunked scan that hands every record to the
    external record cache. That cache is modelled as a log of what it
    stores; the rows whose hand-over throws are a fixed set of TSNs. */
module Loader {
  import opened Sql
  import opened Schema
  import opened Entities
  import opened Queries
  import opened Hierarchy
  import opened Records
  import opened Paging

  /** What `populateFullItisRecord` and `add` receive for one row: the
      record, the ranks above it and the ranks one level below it. */
  datatype Put = Put(record: RecordFields, above: seq<TaxRank>, below: seq<TaxRank>)

  /** `cacheLookup`: the cached value, null both for a missing key and for a
      key cached with a null value. */
  function CacheLookup(m: map<Field, Field>, key: Field): (value: Field) {
    if key in m then m[key] else None
  }

  /** Every entry of `a` is still in `b`, with the same value. */
  ghost predicate Extends(a: map<Field, Field>, b: map<Field, Field>) {
    forall k :: k in a ==> k in b && b[k] == a[k]
  }

  /** Growth composes: stated once so that each call site of a method that
      grows the caches can chain it onto what came before. */
  lemma ExtendsTrans(a: map<Field, Field>, b: map<Field, Field>, c: map<Field, Field>)
    requires Extends(a, b) && Extends(b, c)
    ensures Extends(a, c)
  {
  }

  /** A lookup hits only on a key cached with a non-null value: a missing key
      and a key cached with null both send the caller back to the table. */
  lemma LookupMiss(m: map<Field, Field>, key: Field)
    ensures CacheLookup(m, key).None? <==> key !in m || m[key].None?
  {
  }

  /** Once a lookup hits, it keeps hitting with the same value for as long
      as the cache only grows. */
  lemma LookupStable(a: map<Field, Field>, b: map<Field, Field>, key: Field)
    requires Extends(a, b)
    ensures CacheLookup(a, key).Some? ==> CacheLookup(b, key) == CacheLookup(a, key)
  {
  }

  /** After `put(key, value)`, looking up `key` gives `value`, a hit when it
      is non-null and a miss when it is null; every other key looks up as
      before. */
  lemma LookupAfterPut(m: map<Field, Field>, key: Field, value: Field, other: Field)
    ensures CacheLookup(m[key := value], key) == value
    ensures other != key ==> CacheLookup(m[key := value], other) == CacheLookup(m, other)
  {
  }

  /** What the record cache receives for row `u`. */
  ghost function PutOf(db: Database, u: TaxonomicUnit): Put
    requires Acyclic(db.units)
  {
    Put(RecordOf(db, u), Above(db, u.parentTsn), OneLevelDown(db, Some(u.tsn)))
  }

  /** `puts` are what the loader builds for `rows`, one for one. */
  ghost predicate Logged(db: Database, puts: seq<Put>, rows: seq<TaxonomicUnit>)
    requires Acyclic(db.units)
  {
    && |puts| == |rows|
    && (forall k {:trigger puts[k]} :: 0 <= k < |puts| ==> puts[k] == PutOf(db, rows[k]))
  }

  lemma LoggedSnoc(db: Database, puts: seq<Put>, rows: seq<TaxonomicUnit>, u: TaxonomicUnit)
    requires Acyclic(db.units) && Logged(db, puts, rows)
    ensures Logged(db, puts + [PutOf(db, u)], rows + [u])
  {
    var puts', rows' := puts + [PutOf(db, u)], rows + [u];
    forall k | 0 <= k < |puts'|
      ensures puts'[k] == PutOf(db, rows'[k])
    {
      if k < |puts| {
        assert puts'[k] == puts[k] && rows'[k] == rows[k];
      }
    }
  }

  /** The rows whose hand-over goes through: all but those with a rejected TSN. */
  function Accepted(rejects: set<string>): TaxonomicUnit -> bool {
    (u: TaxonomicUnit) => u.tsn !in rejects
  }

  /** The external record cache at `cacheDir` (`CachingProxyImpl`), kept as a
      log of what it has stored. Its `populateFullItisRecord`/`add` pair
      throws for a fixed set of TSNs. */
  class RecordCache {
    /** The TSNs whose record the cache refuses with an exception. */
    const rejects: set<string>
    /** Everything stored so far, in order. */
    var stored: seq<Put>
    /** The rows whose puts were stored, in the same order. */
    ghost var handed: seq<TaxonomicUnit>

    /** Each stored put is what the loader builds for the row it came from. */
    ghost predicate Faithful(db: Database)
      reads this
    {
      Acyclic(db.units) && Logged(db, stored, handed)
    }

    constructor (rejects: set<string>)
      ensures this.rejects == rejects && stored == [] && handed == []
    {
      this.rejects := rejects;
      stored := [];
      handed := [];
    }

    /** `populateFullItisRecord` then `add` for the put built from row `u`:
        stores it, or throws (storing nothing) when the TSN is rejected. */
    method Add(ghost db: Database, ghost u: TaxonomicUnit, tsn: string, put: Put) returns (thrown: bool)
      requires Faithful(db) && u.tsn == tsn && put == PutOf(db, u)
      modifies this
      ensures Faithful(db)
      ensures thrown <==> tsn in rejects
      ensures stored == old(stored) + (if thrown then [] else [put])
      ensures handed == old(handed) + (if thrown then [] else [u])
    {
      thrown := tsn in rejects;
      if !thrown {
        LoggedSnoc(db, stored, handed, u);
        stored := stored + [put];
        handed := handed + [u];
      }
    }
  }

  /** With no rejected TSN, every row of a scan is handed over, in order. */
  lemma NothingRejected(rows: seq<TaxonomicUnit>)
    ensures Where(rows, Accepted({})) == rows
  {
    WhereKeepsAll(rows, Accepted({}));
  }

  /** A row is handed over exactly when it is in the scan and its TSN is not
      rejected, as often as it occurs there when it is. */
  lemma HandedRows(rows: seq<TaxonomicUnit>, rejects: set<string>, u: TaxonomicUnit)
    ensures u in Where(rows, Accepted(rejects)) <==> u in rows && u.tsn !in rejects
    ensures multiset(Where(rows, Accepted(rejects)))[u] == if u.tsn in rejects then 0 else multiset(rows)[u]
  {
    WhereHas(rows, Accepted(rejects), u);
    WhereCount(rows, Accepted(rejects), u);
  }

  class ItisLoader {
    /** The ITIS export the loader reads. */
    const db: Database

    /** `idRankNameCache`: rank id to rank name. */
    var rankNames: map<Field, Field>
    /** `idKingdomCache`: kingdom id to kingdom name. */
    var kingdomNames: map<Field, Field>
    /** The queries each cache has issued so far. */
    ghost var rankQueries: nat
    ghost var kingdomQueries: nat

    /** Every cached entry was read from the first matching row of its table. */
    ghost predicate Valid()
      reads this
    {
      && (forall k :: k in rankNames ==> RankNameRow(db, k).Some? && rankNames[k] == RankNameOf(db, k))
      && (forall k :: k in kingdomNames ==> KingdomNameRow(db, k).Some? && kingdomNames[k] == KingdomNameOf(db, k))
    }

    /** Both caches kept every entry they had. */
    ghost predicate Grown(oldRanks: map<Field, Field>, oldKingdoms: map<Field, Field>)
      reads this
    {
      Extends(oldRanks, rankNames) && Extends(oldKingdoms, kingdomNames)
    }

    constructor (db: Database)
      ensures Valid()
      ensures this.db == db
      ensures rankNames == map[] && kingdomNames == map[]
      ensures rankQueries == 0 && kingdomQueries == 0
    {
      this.db := db;
      rankNames := map[];
      kingdomNames := map[];
      rankQueries := 0;
      kingdomQueries := 0;
    }

    /** The rank name of `rankId`: from the cache when it holds a non-null
        name, otherwise from `taxon_unit_types`, caching what a row supplies.
        An id without a row leaves the cache as it is (reading the empty
        result throws, and the exception is swallowed). */
    method MakeRankName(rankId: Field) returns (value: Field)
      requires Valid()
      modifies this
      ensures Valid()
      ensures value == RankNameOf(db, rankId)
      ensures Extends(old(rankNames), rankNames)
      ensures CacheLookup(old(rankNames), rankId).Some? ==>
                rankNames == old(rankNames) && rankQueries == old(rankQueries)
      ensures CacheLookup(old(rankNames), rankId).None? ==>
                && rankQueries == old(rankQueries) + 1
                && rankNames == if RankNameRow(db, rankId).Some? then old(rankNames)[rankId := value]
                                else old(rankNames)
      ensures kingdomNames == old(kingdomNames) && kingdomQueries == old(kingdomQueries)
    {
      value := CacheLookup(rankNames, rankId);
      if value.None? {
        rankQueries := rankQueries + 1;
        var rs := Where(db.unitTypes, RankIdIs(rankId));
        if rs != [] {
          value := rs[0].rankName;
          rankNames := rankNames[rankId := value];
        }
      }
    }

    /** The kingdom name of `id`: from the cache when it holds a non-null
        name, otherwise from `kingdoms`; an id without a row gives null and
        is not cached. */
    method GetKingdom(id: Field) returns (value: Field)
      requires Valid()
      modifies this
      ensures Valid()
      ensures value == KingdomNameOf(db, id)
      ensures Extends(old(kingdomNames), kingdomNames)
      ensures CacheLookup(old(kingdomNames), id).Some? ==>
                kingdomNames == old(kingdomNames) && kingdomQueries == old(kingdomQueries)
      ensures CacheLookup(old(kingdomNames), id).None? ==>
                && kingdomQueries == old(kingdomQueries) + 1
                && kingdomNames == if KingdomNameRow(db, id).Some? then old(kingdomNames)[id := value]
                                   else old(kingdomNames)
      ensures rankNames == old(rankNames) && rankQueries == old(rankQueries)
    {
      value := CacheLookup(kingdomNames, id);
      if value.None? {
        kingdomQueries := kingdomQueries + 1;
        var rs := Where(db.kingdoms, KingdomIdIs(id));
        if rs == [] {
          return None;
        }
        value := rs[0].kingdomName;
        kingdomNames := kingdomNames[id := value];
      }
    }

    /** Two lookups of one rank id agree; the second costs no query once the
        first has cached a non-null name, while a null or missing name is
        queried again. */
    method RankNameTwice(rankId: Field) returns (first: Field, second: Field)
      requires Valid()
      modifies this
      ensures Valid()
      ensures first == second == RankNameOf(db, rankId)
      ensures rankQueries == old(rankQueries) + (if CacheLookup(old(rankNames), rankId).Some? then 0
                                                 else if RankNameOf(db, rankId).Some? then 1
                                                 else 2)
    {
      first := MakeRankName(rankId);
      second := MakeRankName(rankId);
    }

    /** The rank of unit `u`, its names looked up through the caches. */
    method MakeEntry(u: TaxonomicUnit) returns (tr: TaxRank)
      requires Valid()
      modifies this
      ensures Valid() && Grown(old(rankNames), old(kingdomNames))
      ensures tr == Entry(db, u)
    {
      var commonNames := GetCommonNames(db, Some(u.tsn));
      var rankName := MakeRankName(u.rankId);
      var kingdomName := GetKingdom(u.kingdomId);
      tr := TaxRank(Some(u.tsn), u.rankId, rankName, u.completeName, u.kingdomId, kingdomName, Some(commonNames));
    }

    /** The ranks from the root down to `tsn`: for each row with that TSN,
        the ranks above its parent, then its own. */
    method GetHierarchyAbove(tsn: Field) returns (ranks: seq<TaxRank>)
      requires Valid() && Acyclic(db.units)
      modifies this
      ensures Valid() && Grown(old(rankNames), old(kingdomNames))
      ensures ranks == Above(db, tsn)
      decreases Height(db.units, tsn)
    {
      ranks := [];
      if tsn.None? {
        return;
      }
      var rs := UnitsOf(db, tsn.value);
      AboveUnfold(db, tsn.value);
      var i := 0;
      while i < |rs|
        invariant 0 <= i <= |rs|
        invariant Valid() && Grown(old(rankNames), old(kingdomNames))
        invariant ranks == Entries(db, AboveUnitRows(db, tsn.value, rs, i))
      {
        var parentTsn := rs[i].parentTsn;
        HeightParent(db.units, rs[i]);
        var above := GetHierarchyAbove(parentTsn);
        ranks := ranks + above;
        var tr := MakeEntry(rs[i]);
        ranks := ranks + [tr];
        AboveRowsStep(db, tsn.value, rs, i);
        EntriesAppend(db, AboveUnitRows(db, tsn.value, rs, i), AboveUnits(db, parentTsn));
        EntriesAppend(db, AboveUnitRows(db, tsn.value, rs, i) + AboveUnits(db, parentTsn), [rs[i]]);
        i := i + 1;
      }
    }

    /** The ranks of the children of `tsn`, in row order; none for a null TSN. */
    method GetHierarchyOneLevelDown(tsn: Field) returns (below: seq<TaxRank>)
      requires Valid()
      modifies this
      ensures Valid() && Grown(old(rankNames), old(kingdomNames))
      ensures below == OneLevelDown(db, tsn)
    {
      below := [];
      if tsn.Some? {
        var rs := Children(db, tsn.value);
        var i := 0;
        while i < |rs|
          invariant 0 <= i <= |rs|
          invariant Valid() && Grown(old(rankNames), old(kingdomNames))
          invariant below == Entries(db, rs[..i])
        {
          ghost var ranks, kingdoms := rankNames, kingdomNames;
          var tr := MakeEntry(rs[i]);
          ExtendsTrans(old(rankNames), ranks, rankNames);
          ExtendsTrans(old(kingdomNames), kingdoms, kingdomNames);
          assert rs[..i + 1][..i] == rs[..i];
          below := below + [tr];
          i := i + 1;
        }
        assert rs[..|rs|] == rs;
      }
    }

    /** The first half of the per-row work of `getRecords`: a new record
        with the columns of row `u` mapped onto it, the kingdom and rank
        names looked up through the caches. */
    method MapColumns(u: TaxonomicUnit) returns (rec: FullRecord)
      requires Valid()
      modifies this
      ensures Valid() && Grown(old(rankNames), old(kingdomNames))
      ensures fresh(rec)
      ensures rec.fields == ColumnFields(db, u)
    {
      rec := new FullRecord();
      var tsn := u.tsn;
      rec.fields := rec.fields.(tsn := Some(tsn));
      var kingdomName := GetKingdom(u.kingdomId);
      rec.fields := rec.fields.(kingdom := Kingdom(u.kingdomId, kingdomName));
      rec.fields := rec.fields.(usage := Some(Usage(u.nameUsage)));
      rec.fields := rec.fields.(unacceptReason := Some(UnacceptReason(u.unacceptReason)));
      var currencyRating := CurrencyRating(u.currencyRating, u.rankId);
      rec.fields := rec.fields.(currencyRating := Some(currencyRating));
      rec.fields := rec.fields.(completenessRating := CompletenessRating(u.completenessRtng, currencyRating.rankId));
      rec.fields := rec.fields.(credibilityRating := Some(CredibilityRating(u.credibilityRtng)));
      var rankName := MakeRankName(u.rankId);
      rec.fields := rec.fields.(taxRank := rec.fields.taxRank.(
        kingdomId := rec.fields.kingdom.kingdomId, kingdomName := rec.fields.kingdom.kingdomName,
        rankId := u.rankId, rankName := rankName));
      rec.fields := rec.fields.(parentTsn := ParentTsn(u.parentTsn));
      var author := ScientificNameAuthor(db, tsn);
      rec.fields := rec.fields.(scientificName := Some(ScientificName(
        u.completeName, u.unitInd1, u.unitInd2, u.unitInd3, u.unitInd4,
        u.unitName1, u.unitName2, u.unitName3, u.unitName4, author)));
      var origins := MakeJurisdictionalOrigins(db, tsn);
      rec.fields := rec.fields.(jurisdictionalOriginList := Some(origins));
    }

    /** Builds the full record of row `u`, with the ranks above and below it,
        in the order of `getRecords`. */
    method AssembleRecord(u: TaxonomicUnit) returns (rec: FullRecord, above: seq<TaxRank>, below: seq<TaxRank>)
      requires Valid() && Acyclic(db.units)
      modifies this
      ensures Valid() && Grown(old(rankNames), old(kingdomNames))
      ensures fresh(rec)
      ensures rec.fields == RecordOf(db, u)
      ensures above == Above(db, u.parentTsn) && below == OneLevelDown(db, Some(u.tsn))
    {
      rec := MapColumns(u);
      ghost var ranks0, kingdoms0 := rankNames, kingdomNames;
      above := GetHierarchyAbove(u.parentTsn);
      ghost var ranks1, kingdoms1 := rankNames, kingdomNames;
      below := GetHierarchyOneLevelDown(Some(u.tsn));
      ExtendsTrans(old(rankNames), ranks0, ranks1);
      ExtendsTrans(old(rankNames), ranks1, rankNames);
      ExtendsTrans(old(kingdomNames), kingdoms0, kingdoms1);
      ExtendsTrans(old(kingdomNames), kingdoms1, kingdomNames);
      CompleteRecord(db, rec, u.tsn, u.taxonAuthorId);
    }

    /** Reads the window `limit start, size` of `taxonomic_units` and hands
        each row's record to the external cache. Every row read is counted,
        also one whose hand-over throws. */
    method GetRecords(cache: RecordCache, start: nat, size: nat) returns (count: nat)
      requires Valid() && cache.Faithful(db)
      modifies this, cache
      ensures Valid() && Grown(old(rankNames), old(kingdomNames))
      ensures cache.Faithful(db)
      ensures count == |Limit(db.units, start, size)|
      ensures cache.handed == old(cache.handed) + Where(Limit(db.units, start, size), Accepted(cache.rejects))
    {
      var rs := Limit(db.units, start, size);
      ghost var keep := Accepted(cache.rejects);
      count := 0;
      var i := 0;
      while i < |rs|
        invariant 0 <= i <= |rs| && count == i
        invariant Valid() && Grown(old(rankNames), old(kingdomNames)) && cache.Faithful(db)
        invariant cache.handed == old(cache.handed) + Where(rs[..i], keep)
      {
        count := count + 1;
        ghost var ranks, kingdoms := rankNames, kingdomNames;
        LoadRow(cache, rs[i]);
        ExtendsTrans(old(rankNames), ranks, rankNames);
        ExtendsTrans(old(kingdomNames), kingdoms, kingdomNames);
        WherePrefixStep(rs, i, keep);
        AppendAssoc(old(cache.handed), Where(rs[..i], keep), if keep(rs[i]) then [rs[i]] else []);
        i := i + 1;
      }
      assert rs[..|rs|] == rs;
    }

    /** One turn of the row loop of `getRecords`: the record of `u` is built
        and handed to the cache, and an exception from the cache is
        swallowed. */
    method LoadRow(cache: RecordCache, u: TaxonomicUnit)
      requires Valid() && cache.Faithful(db)
      modifies this, cache
      ensures Valid() && Grown(old(rankNames), old(kingdomNames))
      ensures cache.Faithful(db)
      ensures cache.handed == old(cache.handed) + (if u.tsn in cache.rejects then [] else [u])
    {
      var rec, above, below := AssembleRecord(u);
      var _ := cache.Add(db, u, u.tsn, Put(rec.fields, above, below));
    }

    /** One turn of the chunk loop of `run`: the window at offset `i` is read
        and its rows handed over, extending the rows handed over so far from
        the first `i` rows of the table to the first `i + n`. */
    method ReadChunk(cache: RecordCache, i: nat, ghost before: seq<TaxonomicUnit>) returns (n: nat)
      requires Valid() && cache.Faithful(db) && i < |db.units|
      requires cache.handed == before + Where(db.units[..i], Accepted(cache.rejects))
      modifies this, cache
      ensures Valid() && Grown(old(rankNames), old(kingdomNames)) && cache.Faithful(db)
      ensures i + n == if i + ChunkSize <= |db.units| then i + ChunkSize else |db.units|
      ensures cache.handed == before + Where(db.units[..i + n], Accepted(cache.rejects))
    {
      ghost var keep := Accepted(cache.rejects);
      ghost var done := Where(db.units[..i], keep);
      n := GetRecords(cache, i, ChunkSize);
      WhereWindow(db.units, i, ChunkSize, keep);
      AppendAssoc(before, done, Where(Limit(db.units, i, ChunkSize), keep));
    }

    /** Scans the whole table in windows of `ChunkSize` rows at offsets 0,
        ChunkSize, 2 * ChunkSize, ...: every row is read once, in table
        order, and the count returned is the number of rows. */
    method Run(cache: RecordCache) returns (total: nat, ghost offsets: seq<nat>)
      requires Valid() && cache.Faithful(db)
      modifies this, cache
      ensures Valid() && Grown(old(rankNames), old(kingdomNames))
      ensures cache.Faithful(db)
      ensures total == |db.units|
      ensures offsets == Offsets(|db.units|, ChunkSize)
      ensures cache.handed == old(cache.handed) + Where(db.units, Accepted(cache.rejects))
    {
      var chunkSize := ChunkSize;
      var numRecords := |db.units|;
      total := 0;
      offsets := [];
      var i := 0;
      while i < numRecords
        invariant total == if i <= numRecords then i else numRecords
        invariant offsets + OffsetsFrom(i, numRecords, chunkSize) == Offsets(numRecords, chunkSize)
        invariant Valid() && Grown(old(rankNames), old(kingdomNames)) && cache.Faithful(db)
        invariant cache.handed == old(cache.handed) + Where(db.units[..total], Accepted(cache.rejects))
        decreases numRecords - i
      {
        OffsetsStep(offsets, i, numRecords, chunkSize);
        offsets := offsets + [i];
        ghost var ranks, kingdoms := rankNames, kingdomNames;
        var n := ReadChunk(cache, i, old(cache.handed));
        ExtendsTrans(old(rankNames), ranks, rankNames);
        ExtendsTrans(old(kingdomNames), kingdoms, kingdomNames);
        total := total + n;
        i := i + chunkSize;
      }
      assert OffsetsFrom(i, numRecords, chunkSize) == [];
      assert db.units[..total] == db.units;
    }
  }
}
