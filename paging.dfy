/** The chunked scan of `taxonomic_units`: the loader never selects the whole
    table at once but reads it in windows `limit offset, ChunkSize`, with
    offsets 0, ChunkSize, 2 * ChunkSize, ... while below the row count. */
module Paging {

  /** Rows read per `getRecords` call. */
  const ChunkSize: nat := 4000

  /** The offsets the chunk loop visits from `i` on: `i`, `i + c`, ... while
      below `count`. */
  function OffsetsFrom(i: nat, count: nat, c: nat): seq<nat>
    requires c > 0
    decreases count - i
  {
    if i >= count then [] else [i] + OffsetsFrom(i + c, count, c)
  }

  /** The offsets of a scan of `count` rows in windows of `c`. */
  function Offsets(count: nat, c: nat): seq<nat>
    requires c > 0
  {
    OffsetsFrom(0, count, c)
  }

  /** The offsets start at `i`, go up by `c`, stay below `count`, and the last
      window reaches `count`. */
  lemma {:induction false} OffsetsFromShape(i: nat, count: nat, c: nat)
    requires c > 0
    ensures var o := OffsetsFrom(i, count, c);
            && (o == [] <==> i >= count)
            && (o != [] ==> o[0] == i && o[|o| - 1] < count && count <= o[|o| - 1] + c)
            && (forall k :: 0 <= k < |o| ==> i <= o[k] < count)
            && (forall k :: 0 < k < |o| ==> o[k] == o[k - 1] + c)
    decreases count - i
  {
    if i < count {
      OffsetsFromShape(i + c, count, c);
      var rest := OffsetsFrom(i + c, count, c);
      assert OffsetsFrom(i, count, c) == [i] + rest;
    }
  }

  /** The k-th offset is k times the window size. */
  lemma {:induction false} OffsetsAreMultiples(count: nat, c: nat, k: nat)
    requires c > 0 && k < |Offsets(count, c)|
    ensures Offsets(count, c)[k] == k * c
  {
    OffsetsFromShape(0, count, c);
    if k > 0 {
      OffsetsAreMultiples(count, c, k - 1);
      assert k * c == (k - 1) * c + c;
    }
  }

  /** Later windows start at least one window further on. */
  lemma {:induction false} OffsetsGrow(count: nat, c: nat, k1: nat, k2: nat)
    requires c > 0 && k1 < k2 < |Offsets(count, c)|
    ensures Offsets(count, c)[k1] + c <= Offsets(count, c)[k2]
    decreases k2 - k1
  {
    OffsetsFromShape(0, count, c);
    if k1 + 1 < k2 {
      OffsetsGrow(count, c, k1 + 1, k2);
    }
  }

  /** One turn of the chunk loop: visiting offset `i` moves it from the
      offsets still to come to those already visited. */
  lemma OffsetsStep(visited: seq<nat>, i: nat, count: nat, c: nat)
    requires c > 0 && i < count
    requires visited + OffsetsFrom(i, count, c) == Offsets(count, c)
    ensures (visited + [i]) + OffsetsFrom(i + c, count, c) == Offsets(count, c)
  {
    assert OffsetsFrom(i, count, c) == [i] + OffsetsFrom(i + c, count, c);
    assert (visited + [i]) + OffsetsFrom(i + c, count, c) == visited + ([i] + OffsetsFrom(i + c, count, c));
  }

  /** Row `j` lies in the window of `c` rows starting at `offset`. */
  predicate InWindow(offset: nat, c: nat, j: nat) {
    offset <= j < offset + c
  }

  /** Row `j` is read by some window starting at `i` or later. */
  lemma {:induction false} WindowCovers(i: nat, count: nat, c: nat, j: nat)
    requires c > 0 && i <= j < count
    ensures exists k :: 0 <= k < |OffsetsFrom(i, count, c)| && InWindow(OffsetsFrom(i, count, c)[k], c, j)
    decreases count - i
  {
    var o := OffsetsFrom(i, count, c);
    assert o[0] == i;
    if j >= i + c {
      WindowCovers(i + c, count, c, j);
      var rest := OffsetsFrom(i + c, count, c);
      assert o == [i] + rest;
      var k :| 0 <= k < |rest| && InWindow(rest[k], c, j);
      assert o[k + 1] == rest[k];
    } else {
      assert InWindow(o[0], c, j);
    }
  }

  /** The windows `[o, o + c)` partition the row indices `[0, count)`: every
      index lies in exactly one of them. */
  lemma WindowsPartition(count: nat, c: nat, j: nat)
    requires c > 0 && j < count
    ensures var o := Offsets(count, c);
            && (exists k :: 0 <= k < |o| && InWindow(o[k], c, j))
            && (forall k1, k2 :: 0 <= k1 < |o| && 0 <= k2 < |o| && InWindow(o[k1], c, j) && InWindow(o[k2], c, j)
                  ==> k1 == k2)
  {
    var o := Offsets(count, c);
    WindowCovers(0, count, c, j);
    forall k1, k2 | 0 <= k1 < |o| && 0 <= k2 < |o| && InWindow(o[k1], c, j) && InWindow(o[k2], c, j)
      ensures k1 == k2
    {
      if k1 < k2 {
        OffsetsGrow(count, c, k1, k2);
      } else if k2 < k1 {
        OffsetsGrow(count, c, k2, k1);
      }
    }
  }

  /** 8001 rows in windows of 4000 are read at offsets 0, 4000 and 8000. */
  lemma OffsetsExample()
    ensures Offsets(8001, ChunkSize) == [0, 4000, 8000]
  {
    assert OffsetsFrom(12000, 8001, 4000) == [];
    assert OffsetsFrom(8000, 8001, 4000) == [8000];
    assert OffsetsFrom(4000, 8001, 4000) == [4000, 8000];
  }

  // ---------------------------------------------------------------------
  // The chunk loop's offset is a Java `int`

  const Int32Min: int := -0x8000_0000
  const Int32Max: int := 0x7fff_ffff

  /** Java's `int` addition: the sum wrapped into [-2^31, 2^31). */
  function AddInt32(a: int, b: int): (s: int)
    requires Int32Min <= a <= Int32Max && Int32Min <= b <= Int32Max
    ensures Int32Min <= s <= Int32Max
    ensures (s - (a + b)) % 0x1_0000_0000 == 0
  {
    var sum := a + b;
    if sum > Int32Max then sum - 0x1_0000_0000
    else if sum < Int32Min then sum + 0x1_0000_0000
    else sum
  }

  /** With the largest row count an `int` holds, the step `i += chunkSize`
      after the last window wraps to a negative offset, which is again below
      the row count: the `int` loop goes on where the scan should stop. */
  lemma Int32OffsetWraps()
    ensures var count, last := Int32Max, 2147480000;
            && last % ChunkSize == 0 && last < count && count <= last + ChunkSize
            && AddInt32(last, ChunkSize) < 0 && AddInt32(last, ChunkSize) < count
  {
  }
}
