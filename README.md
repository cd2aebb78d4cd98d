# ITIS proxy loader: the record assembly pipeline, in Dafny

`ItisLoader` reads an SQLite export of the Integrated Taxonomic Information
System (ITIS). It scans the table `taxonomic_units` in chunks of 4000 rows.
For every row it builds a `FullRecord`: the rank and kingdom names, the
scientific name and its author, and the lists of comments, geographic
divisions, common names, synonyms, accepted names, jurisdictional origins,
publications, other sources and experts. It also builds the ranks above the
unit, root first, and the ranks one level below it. Record and ranks go to an
external record cache. Two memoizing maps keep rank names and kingdom names
between queries.

The model works on values for the database and imperatively for the loader:

- `Sql` (sql.dfy): a table is a sequence of rows in scan order. A `where`
  clause is `Where`, an order-keeping filter. A join is `Join`, a nested
  loop in FROM order. `limit offset, count` is `Limit`. A nullable column is
  `Field = Option<string>`, and `col = NULL` matches no row.
- `Schema` and `Entities` (schema.dfy, entities.dfy): the rows of the
  fifteen tables the loader reads, and the entity objects it fills.
  `FullRecord` is a class, because `makeRefs` overwrites its fields in place.
- `Queries` (queries.dfy): the read-only lookups. Each one that has a row
  loop is a method with that loop, proved equal to a function that says which
  rows it reads and what it makes of them. The list builders are here, and so
  are `getCommonNames`, `makeTaxonAuthor` and `makeScientificNameAuthor`.
- `Hierarchy` (hierarchy.dfy): the chain of units above a TSN and the
  children one level below it, as specification functions, with their
  properties.
- `Records` (records.dfy): the reference-link dispatch of `makeRefs` and the
  record `getRecords` builds for a row.
- `Paging` (paging.dfy): the offsets of the chunk loop of `run`, and the
  Java `int` arithmetic of its counter.
- `Loader` (loader.dfy):
  - `ItisLoader` is a class holding the two lookup caches. It has the
    recursive `getHierarchyAbove`, `getHierarchyOneLevelDown`, the row loop
    of `getRecords` and the chunk loop of `run`.
  - `RecordCache` is the external cache at `cacheDir` (`CachingProxyImpl`),
    kept as a log of what it stores. Its `populateFullItisRecord`/`add`
    pair throws for a fixed set of TSNs.
  - The Java code creates a new proxy in every `getRecords` call, over the
    same on-disk cache. The model passes one cache object through the whole
    run.

The main results:

- `Run` visits offsets `0, 4000, 8000, …` below the row count. Every row
  is read exactly once, in table order. Each record the cache stores is
  exactly the `RecordOf` that row, with `Above` its parent and
  `OneLevelDown` its TSN. `total` counts every row, including rows whose
  hand-over threw.
- The caches only grow. An entry is always the value from the first
  matching row of its lookup table. A missing row is never cached. A cached
  null name is queried again.
- The ranks above a unit are its root path, root first. There is one rank
  per level of depth.
- `makeRefs` lets the last link of each document type win. A link with an
  unknown prefix changes nothing.

Where the written description of the system and the code disagree, the model
follows the code:

- A lookup cache stores a null name when a row exists but its name column
  is null. Such an entry never counts as a hit, so the id is queried again.
  Two lookups of such an id issue two queries, not one (`RankNameTwice`).
- The children one level down come in row order, not an unspecified order.
- The per-row count is incremented before the record is built. A row whose
  hand-over to the cache throws is still counted.

## Model

| member | source | states |
|---|---|---|
| Loader.ItisLoader.Run | src/main/java/ca/gc/agr/mbb/itisproxyloader/ItisLoader.java:170-178 | the chunk loop visits exactly `Offsets(count, 4000)`; the returned total is the row count; the rows handed to the cache are all rows of the table in order, less the rejected ones; both caches keep every entry and stay valid |
| Loader.ItisLoader.ReadChunk | src/main/java/ca/gc/agr/mbb/itisproxyloader/ItisLoader.java:176-177 | one chunk at offset `i` reads `min(i + 4000, count) - i` rows and extends the rows handed over from the first `i` rows of the table to the first `i + n` |
| Loader.ItisLoader.GetRecords | src/main/java/ca/gc/agr/mbb/itisproxyloader/ItisLoader.java:391-545 | the returned count is the size of the window `limit start, size`, counting rows whose hand-over threw; the cache receives exactly the window's non-rejected rows, in order, each stored put being that row's record and ranks |
| Loader.ItisLoader.LoadRow | src/main/java/ca/gc/agr/mbb/itisproxyloader/ItisLoader.java:434-529 | one row's record is built and handed over; the row is added to the cache's log unless its TSN is rejected, and the exception is swallowed |
| Loader.ItisLoader.AssembleRecord | src/main/java/ca/gc/agr/mbb/itisproxyloader/ItisLoader.java:434-515 | the record built for row `u` is `RecordOf(u)`; the ranks above are `Above(parent of u)` and those below are `OneLevelDown(u)`; the caches only grow |
| Loader.ItisLoader.MapColumns | src/main/java/ca/gc/agr/mbb/itisproxyloader/ItisLoader.java:434-486 | a new record holds the row's columns mapped as `ColumnFields` says: TSN, kingdom with looked-up name, usage, unaccept reason, ratings, rank with looked-up name, parent TSN, scientific name with its author, jurisdictional origins |
| Records.CompleteRecord | src/main/java/ca/gc/agr/mbb/itisproxyloader/ItisLoader.java:494-515 | the record's five lists are built, its reference links applied and its taxon author set, as `Completed` says |
| Records.RecordOfFields | src/main/java/ca/gc/agr/mbb/itisproxyloader/ItisLoader.java:434-515 | the record of a row carries the row's TSN and parent TSN; completeness and currency share the row's rank id; the rank repeats the kingdom id and name; each reference list is null exactly when no link of its type exists; the taxon author is the looked-up one |
| Loader.RecordCache.Add | src/main/java/ca/gc/agr/mbb/itisproxyloader/ItisLoader.java:523-529 | the put is stored and its row logged unless the TSN is rejected, in which case nothing changes and an exception is reported; every stored put stays the one built for its row |
| Loader.RecordCache.constructor | src/main/java/ca/gc/agr/mbb/itisproxyloader/ItisLoader.java:394-401 | a new cache has stored nothing and has the given set of rejected TSNs |
| Loader.NothingRejected | src/main/java/ca/gc/agr/mbb/itisproxyloader/ItisLoader.java:523-529 | with no rejected TSN, the rows handed over are all the rows, in order |
| Loader.HandedRows | src/main/java/ca/gc/agr/mbb/itisproxyloader/ItisLoader.java:523-529 | a row is handed over iff it is scanned and its TSN is not rejected, and then as often as it is scanned |
| Loader.ItisLoader.constructor | src/main/java/ca/gc/agr/mbb/itisproxyloader/ItisLoader.java:291-316 | both caches start empty and no query has been issued |
| Loader.LookupMiss | src/main/java/ca/gc/agr/mbb/itisproxyloader/ItisLoader.java:347-352 | a lookup misses exactly when the key is absent or was cached with null, so a cached null sends the caller back to the table |
| Loader.LookupStable | src/main/java/ca/gc/agr/mbb/itisproxyloader/ItisLoader.java:347-352 | while a cache only grows, a key that hits keeps hitting with the same value |
| Loader.LookupAfterPut | src/main/java/ca/gc/agr/mbb/itisproxyloader/ItisLoader.java:293-303 | after a name is cached under an id, looking the id up gives that name, a miss if it is null; other ids look up as before |
| Loader.ItisLoader.MakeRankName | src/main/java/ca/gc/agr/mbb/itisproxyloader/ItisLoader.java:292-313 | the value is the first matching `taxon_unit_types` row's rank name, null if none; a non-null cached name costs no query; otherwise one query is issued and the name cached only when a row exists; no entry is ever lost; the kingdom cache is untouched |
| Loader.ItisLoader.GetKingdom | src/main/java/ca/gc/agr/mbb/itisproxyloader/ItisLoader.java:318-345 | the value is the first matching `kingdoms` row's name, null if none; a non-null cached name costs no query; otherwise one query, caching only when a row exists; the rank cache is untouched |
| Loader.ItisLoader.RankNameTwice | src/main/java/ca/gc/agr/mbb/itisproxyloader/ItisLoader.java:292-313 | two lookups of one rank id agree and issue 0, 1 or 2 queries: none if a non-null name was cached, one if the table supplies a non-null name, two otherwise |
| Loader.ItisLoader.MakeEntry | src/main/java/ca/gc/agr/mbb/itisproxyloader/ItisLoader.java:262-271 | the rank built for a unit is `Entry(u)`, its names read through the caches, which only grow |
| Loader.ItisLoader.GetHierarchyAbove | src/main/java/ca/gc/agr/mbb/itisproxyloader/ItisLoader.java:246-289 | the recursive method returns `Above(tsn)`, the ranks of the units above `tsn` for every row with that TSN; it terminates on acyclic parent links; the caches only grow |
| Loader.ItisLoader.GetHierarchyOneLevelDown | src/main/java/ca/gc/agr/mbb/itisproxyloader/ItisLoader.java:355-387 | returns one rank per child row of `tsn`, in row order, none for a null TSN; the caches only grow |
| Hierarchy.AbovePath | src/main/java/ca/gc/agr/mbb/itisproxyloader/ItisLoader.java:246-289 | with unique TSNs, the units above `tsn` are exactly the root path ending at `tsn`, root first, so their number is the unit's depth |
| Hierarchy.AboveChain | src/main/java/ca/gc/agr/mbb/itisproxyloader/ItisLoader.java:246-289 | for every unit there is a root path ending at it, and it is what lies above the unit |
| Hierarchy.RootPathExists | src/main/java/ca/gc/agr/mbb/itisproxyloader/ItisLoader.java:257-260 | following parent links up from any unit reaches a root, when the links are acyclic |
| Hierarchy.AboveOfUnit | src/main/java/ca/gc/agr/mbb/itisproxyloader/ItisLoader.java:257-263 | the units above a unit are those above its parent followed by the unit itself |
| Hierarchy.AboveNoRow | src/main/java/ca/gc/agr/mbb/itisproxyloader/ItisLoader.java:248-257 | a null TSN, or one no row has, has nothing above it |
| Hierarchy.HeightParent | src/main/java/ca/gc/agr/mbb/itisproxyloader/ItisLoader.java:258-260 | the recursion on the parent TSN goes strictly down in height, which is what makes it end |
| Hierarchy.AboveExample | src/main/java/ca/gc/agr/mbb/itisproxyloader/ItisLoader.java:246-289 | above Acer rubrum lie Plantae, Acer and Acer rubrum, in that order |
| Hierarchy.OneLevelDownHas | src/main/java/ca/gc/agr/mbb/itisproxyloader/ItisLoader.java:359-372 | a unit's rank is listed one level down from `tsn` iff its parent is `tsn` |
| Hierarchy.OneLevelDownDistinct | src/main/java/ca/gc/agr/mbb/itisproxyloader/ItisLoader.java:359-372 | with unique TSNs, no TSN appears twice one level down |
| Hierarchy.ChildrenCount | src/main/java/ca/gc/agr/mbb/itisproxyloader/ItisLoader.java:359-362 | the children of `tsn` are its child rows, each as often as in the table, and no other row |
| Queries.GetCommonNames | src/main/java/ca/gc/agr/mbb/itisproxyloader/ItisLoader.java:215-244 | the map built by the loop is `CommonNames`: empty for a null TSN, otherwise one key per language present, holding that language's names in row order |
| Queries.GroupingGroups | src/main/java/ca/gc/agr/mbb/itisproxyloader/ItisLoader.java:226-237 | after any rows, the loop's map has exactly the languages of the rows as keys, each holding its names in row order |
| Queries.GroupStep | src/main/java/ca/gc/agr/mbb/itisproxyloader/ItisLoader.java:229-236 | filing one more row keeps the map the grouping of the rows read so far |
| Queries.CommonNamesNonEmpty | src/main/java/ca/gc/agr/mbb/itisproxyloader/ItisLoader.java:230-236 | no language maps to an empty list |
| Queries.CommonNamesFileEveryRow | src/main/java/ca/gc/agr/mbb/itisproxyloader/ItisLoader.java:226-237 | every vernacular row of the TSN is filed under its own language, and as often as it occurs |
| Queries.CommonNamesExample | src/main/java/ca/gc/agr/mbb/itisproxyloader/ItisLoader.java:215-244 | the rows en Red Maple, en Swamp Maple, fr Érable rouge group into two keys, English holding its two names in row order |
| Queries.MakePublications | src/main/java/ca/gc/agr/mbb/itisproxyloader/ItisLoader.java:664-695 | the list is `Publications(docId)`: null when no row matches, else the matching rows mapped in order |
| Queries.PublicationsNullIffNoRow | src/main/java/ca/gc/agr/mbb/itisproxyloader/ItisLoader.java:686-689 | the publication list is null iff no publication row has the document id, and every matching row is in it |
| Queries.MakeExperts | src/main/java/ca/gc/agr/mbb/itisproxyloader/ItisLoader.java:697-716 | the list is `Experts(docId)`: null when no row matches, else the matching rows mapped in order |
| Queries.ExpertsNullIffNoRow | src/main/java/ca/gc/agr/mbb/itisproxyloader/ItisLoader.java:710-713 | the expert list is null iff no expert row has the document id |
| Queries.MakeOtherSources | src/main/java/ca/gc/agr/mbb/itisproxyloader/ItisLoader.java:718-740 | the list is never null and holds the matching rows mapped in order |
| Queries.MakeTaxonAuthor | src/main/java/ca/gc/agr/mbb/itisproxyloader/ItisLoader.java:625-638 | the authorship is the last matching lookup row's, null if none |
| Queries.TaxonAuthorLastRowWins | src/main/java/ca/gc/agr/mbb/itisproxyloader/ItisLoader.java:631-634 | of several lookup rows for one author id, the last decides the authorship |
| Queries.ScientificNameAuthor | src/main/java/ca/gc/agr/mbb/itisproxyloader/ItisLoader.java:576-604 | null when the author join is empty; otherwise the short author of a `strippedauthor` row whose id is the unit's author id |
| Queries.MakeJurisdictionalOrigins | src/main/java/ca/gc/agr/mbb/itisproxyloader/ItisLoader.java:848-874 | a non-null list of the TSN's jurisdiction rows, mapped in order |
| Queries.MakeGeographicDivisions | src/main/java/ca/gc/agr/mbb/itisproxyloader/ItisLoader.java:787-801 | a non-null list of the TSN's geographic-division rows, mapped in order |
| Queries.MakeCommonNames | src/main/java/ca/gc/agr/mbb/itisproxyloader/ItisLoader.java:767-785 | a non-null flat list of the TSN's vernacular rows, mapped in order |
| Queries.MakeComments | src/main/java/ca/gc/agr/mbb/itisproxyloader/ItisLoader.java:826-846 | a non-null list of the comments joined to the TSN's comment links, in join order |
| Queries.MakeAcceptedNames | src/main/java/ca/gc/agr/mbb/itisproxyloader/ItisLoader.java:742-765 | a non-null list of the accepted units linked from the TSN with their short author, in join order |
| Queries.MakeSynonyms | src/main/java/ca/gc/agr/mbb/itisproxyloader/ItisLoader.java:803-824 | a non-null list of the units linked as synonyms of the TSN with their short author, in join order |
| Queries.SynonymsAreLinked | src/main/java/ca/gc/agr/mbb/itisproxyloader/ItisLoader.java:808-818 | every synonym entry is the complete name, TSN and short author of a unit that a synonym link names as a synonym of the TSN, the author being the `strippedauthor` row of that unit's author id |
| Queries.AcceptedNamesAreLinked | src/main/java/ca/gc/agr/mbb/itisproxyloader/ItisLoader.java:747-759 | every accepted-name entry is the complete name, TSN and short author of the unit that a synonym link from the TSN names as accepted, the author being the `strippedauthor` row of that unit's author id |
| Queries.RankNameFromRow | src/main/java/ca/gc/agr/mbb/itisproxyloader/ItisLoader.java:298-302 | a rank name comes from a `taxon_unit_types` row carrying that id; a null id has no row |
| Queries.KingdomNameFromRow | src/main/java/ca/gc/agr/mbb/itisproxyloader/ItisLoader.java:324-333 | a kingdom name comes from a `kingdoms` row carrying that id; a null id has no row |
| Records.MakeRefs | src/main/java/ca/gc/agr/mbb/itisproxyloader/ItisLoader.java:640-662 | the record after the loop is `ApplyRefs` of the TSN's reference links, in row order |
| Records.RefsLastPub | src/main/java/ca/gc/agr/mbb/itisproxyloader/ItisLoader.java:650-652 | the publication list is the one of the last `PUB` link's document, or untouched when there is none |
| Records.RefsLastSrc | src/main/java/ca/gc/agr/mbb/itisproxyloader/ItisLoader.java:654-655 | the other-source list is the one of the last `SRC` link's document, or untouched |
| Records.RefsLastExp | src/main/java/ca/gc/agr/mbb/itisproxyloader/ItisLoader.java:657-658 | the expert list is the one of the last `EXP` link's document, or untouched |
| Records.RefsKeepOthers | src/main/java/ca/gc/agr/mbb/itisproxyloader/ItisLoader.java:640-662 | reading links changes no field but the three reference lists |
| Records.UnknownPrefixIgnored | src/main/java/ca/gc/agr/mbb/itisproxyloader/ItisLoader.java:650-659 | a link whose prefix is none of `PUB`, `SRC`, `EXP` changes nothing |
| Sql.FirstWhere | src/main/java/ca/gc/agr/mbb/itisproxyloader/ItisLoader.java:298-302 | the row a single `rs.next()` reads is null exactly when no row matches, and otherwise the earliest matching row |
| Sql.LastWhere | src/main/java/ca/gc/agr/mbb/itisproxyloader/ItisLoader.java:631-634 | the row an overwriting `while (rs.next())` loop leaves is null exactly when no row matches, and otherwise the latest matching row |
| Sql.Limit | src/main/java/ca/gc/agr/mbb/itisproxyloader/ItisLoader.java:406 | the window holds the rows from `offset` on, at most `count` of them, in table order |
| Sql.LimitAdjacent | src/main/java/ca/gc/agr/mbb/itisproxyloader/ItisLoader.java:176-177 | the rows before an offset followed by the window at it are a prefix of the table |
| Paging.OffsetsFromShape | src/main/java/ca/gc/agr/mbb/itisproxyloader/ItisLoader.java:176 | the offsets start at the first, step by the chunk size, stay below the count, and the last window reaches the count |
| Paging.OffsetsAreMultiples | src/main/java/ca/gc/agr/mbb/itisproxyloader/ItisLoader.java:176 | the k-th offset is k times the chunk size |
| Paging.WindowsPartition | src/main/java/ca/gc/agr/mbb/itisproxyloader/ItisLoader.java:173-178 | every row index lies in exactly one window |
| Paging.OffsetsExample | src/main/java/ca/gc/agr/mbb/itisproxyloader/ItisLoader.java:173-178 | 8001 rows are read at offsets 0, 4000 and 8000 |
| Paging.AddInt32 | src/main/java/ca/gc/agr/mbb/itisproxyloader/ItisLoader.java:176 | Java `int` addition: a sum in the `int` range, equal to the true sum modulo 2^32 |
| Paging.Int32OffsetWraps | src/main/java/ca/gc/agr/mbb/itisproxyloader/ItisLoader.java:176 | with the largest `int` row count, the step after the last window wraps to a negative offset that is still below the count |

## Left out

- The JDBC driver, connection handling, `main`, `usage` and the argument checks are not modelled. The database is an immutable value of fifteen tables.
- SQL text building and numeric coercion are not modelled. A query compares the text of ids exactly, and `col = null` matches no row.
- Exceptions in the middle of a query are not modelled. The lookups that propagate `SQLException` would end a chunk early through the catch in `getRecords`, and the swallowing catches of `getCommonNames`, `getKingdom` and `makeJurisdictionalOrigins` would return partial results. Every query here returns its full result.
- The `NullPointerException` that `makeRefs` raises on a null `doc_id_prefix` is not modelled. The prefix column is not nullable in the model.
- Console output, progress dots, timing and the statement timeout are not modelled.
- `printIR` and `printCommonNames` are not modelled. They only format text for the console, and the iteration order of a `HashMap` is unspecified.
- `getNumRecords` is the length of the unit table, and its query is not modelled.
- The insides of `CachingProxyImpl` and its configuration properties are not part of this model. The cache is a log of stored puts plus the set of TSNs whose hand-over throws. `populateFullItisRecord` is not modelled apart from the put it receives.
- `closeAll` is not modelled. It only releases resources.
- Loader.ItisLoader.MakeRankName: assumes that reading a column after `rs.next()` has found no row throws, so nothing is cached. That is how the SQLite driver behaves, but the model does not show it.
- Loader.ItisLoader.GetHierarchyAbove: requires acyclic parent links, which the source never checks. On a cycle the Java recursion overflows the stack. The `StackOverflowError` passes the `SQLException` catch of `getRecords` and the `finally` of `run`, and the `Throwable` catch of `main` ends the whole load. The model does not capture that end.
- Loader.ItisLoader.Run: the `int` counter is modelled with unbounded integers. The wrap-around at the top of the `int` range is shown separately, under Findings.
- Hierarchy.AbovePath: assumes unique TSNs. With duplicated TSNs the source lists the ranks of every row with that TSN, and the chain is not a single path. `Above` still models that case.
- The query counters of the two caches are ghost state. They count queries for the proofs and are not part of the loader's behaviour.
- A new `FullRecord` has its kingdom, completeness rating, rank and parent objects present with null fields, because `getRecords` writes into them. Every other field starts null. The record's default constructor is not part of this model, so this is an assumption.
- The scan order of every query is taken to be the table order (the row order of the SQLite result set). A join is taken to run as a nested loop in FROM order.

## Findings

| source | as written | input that shows it | evidently intended | confidence | as-written member | corrected member |
|---|---|---|---|---|---|---|
| src/main/java/ca/gc/agr/mbb/itisproxyloader/ItisLoader.java:176 | the chunk offset `i` is an `int` and is advanced by `i += chunkSize` | a unit table of 2147483647 rows: after the window at 2147480000, `i + 4000` wraps to -2147483296, which is still below the count, so the loop goes on with a negative offset | the offsets stop at the first multiple of the chunk size that reaches the count | not executed | Paging.Int32OffsetWraps | Loader.ItisLoader.Run |
