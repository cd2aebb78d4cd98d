/** The relational layer the loader queries, reduced to values: a table is a
    sequence of rows in scan order, a `where` clause is a filter that keeps
    that order, `limit offset, count` is a window, and a join over several
    tables is a nested loop in FROM order. */
module Sql {

  /** Java's nullable reference, and SQL's NULL for a column value. */
  datatype Option<+T> = None | Some(value: T)

  /** A nullable text column as returned by `ResultSet.getString`. */
  type Field = Option<string>

  /** The rows of `rows` that satisfy `keep`, in their original order. */
  function Where<T>(rows: seq<T>, keep: T -> bool): (r: seq<T>)
    ensures |r| <= |rows|
  {
    if rows == [] then []
    else
      var last := rows[|rows| - 1];
      Where(rows[..|rows| - 1], keep) + (if keep(last) then [last] else [])
  }

  /** A row survives the filter exactly when it is in the table and satisfies it. */
  lemma {:induction false} WhereHas<T>(rows: seq<T>, keep: T -> bool, x: T)
    ensures x in Where(rows, keep) <==> x in rows && keep(x)
  {
    if rows != [] {
      var init, last := rows[..|rows| - 1], rows[|rows| - 1];
      assert rows == init + [last];
      WhereHas(init, keep, x);
    }
  }

  /** Filtering one more row only appends that row, if it is kept. */
  lemma WhereSnoc<T>(rows: seq<T>, x: T, keep: T -> bool)
    ensures Where(rows + [x], keep) == Where(rows, keep) + (if keep(x) then [x] else [])
  {
    assert (rows + [x])[..|rows|] == rows;
  }

  /** Every row that satisfies the filter survives it exactly as often as it
      occurs in the table; every other row is dropped. */
  lemma {:induction false} WhereCount<T>(rows: seq<T>, keep: T -> bool, x: T)
    ensures multiset(Where(rows, keep))[x] == if keep(x) then multiset(rows)[x] else 0
  {
    if rows != [] {
      var init, last := rows[..|rows| - 1], rows[|rows| - 1];
      assert rows == init + [last];
      WhereCount(init, keep, x);
    }
  }

  /** Every row that survives the filter is a row of the table that satisfies it. */
  lemma WhereAll<T>(rows: seq<T>, keep: T -> bool)
    ensures forall x :: x in Where(rows, keep) ==> x in rows && keep(x)
  {
    forall x | x in Where(rows, keep)
      ensures x in rows && keep(x)
    {
      WhereHas(rows, keep, x);
    }
  }

  /** Filtering two tables one after the other is filtering their concatenation. */
  lemma {:induction false} WhereAppend<T>(a: seq<T>, b: seq<T>, keep: T -> bool)
    ensures Where(a + b, keep) == Where(a, keep) + Where(b, keep)
  {
    if b != [] {
      var init, last := b[..|b| - 1], b[|b| - 1];
      assert b == init + [last];
      assert a + b == (a + init) + [last];
      WhereAppend(a, init, keep);
      WhereSnoc(a + init, last, keep);
      WhereSnoc(init, last, keep);
    } else {
      assert a + b == a;
    }
  }

  /** A filter that keeps nothing of a table yields nothing. */
  lemma {:induction false} WhereNone<T>(rows: seq<T>, keep: T -> bool)
    requires forall i :: 0 <= i < |rows| ==> !keep(rows[i])
    ensures Where(rows, keep) == []
  {
    if rows != [] {
      WhereNone(rows[..|rows| - 1], keep);
    }
  }

  /** A filter that keeps every row of a table yields the table itself. */
  lemma {:induction false} WhereKeepsAll<T>(rows: seq<T>, keep: T -> bool)
    requires forall i :: 0 <= i < |rows| ==> keep(rows[i])
    ensures Where(rows, keep) == rows
  {
    if rows != [] {
      WhereKeepsAll(rows[..|rows| - 1], keep);
    }
  }

  /** When exactly one row of the table satisfies the filter, the filter
      yields that row alone. */
  lemma {:induction false} WhereSingle<T>(rows: seq<T>, keep: T -> bool, k: nat)
    requires k < |rows| && keep(rows[k])
    requires forall i :: 0 <= i < |rows| && i != k ==> !keep(rows[i])
    ensures Where(rows, keep) == [rows[k]]
  {
    var n := |rows| - 1;
    if k == n {
      WhereNone(rows[..n], keep);
    } else {
      WhereSingle(rows[..n], keep, k);
    }
  }

  /** `f` applied to every row, in order: the row-by-row mapping of a result
      set onto entity objects. */
  function MapRows<T, U>(rows: seq<T>, f: T -> U): (r: seq<U>)
    ensures |r| == |rows|
    ensures forall i :: 0 <= i < |rows| ==> r[i] == f(rows[i])
  {
    if rows == [] then [] else MapRows(rows[..|rows| - 1], f) + [f(rows[|rows| - 1])]
  }

  /** Reads a result set row by row, appending `f` of each row to a list. */
  method Collect<T, U>(rows: seq<T>, f: T -> U) returns (out: seq<U>)
    ensures out == MapRows(rows, f)
  {
    out := [];
    var i := 0;
    while i < |rows|
      invariant 0 <= i <= |rows|
      invariant out == MapRows(rows[..i], f)
    {
      assert rows[..i + 1][..i] == rows[..i];
      out := out + [f(rows[i])];
      i := i + 1;
    }
    assert rows[..|rows|] == rows;
  }

  /** The first row of a result set, as read by one `rs.next()`. */
  function First<T>(rows: seq<T>): (r: Option<T>) {
    if rows == [] then None else Some(rows[0])
  }

  /** The row a `while (rs.next())` loop that overwrites a variable leaves
      behind: the last one. */
  function Last<T>(rows: seq<T>): (r: Option<T>) {
    if rows == [] then None else Some(rows[|rows| - 1])
  }

  /** The first row a filter keeps is null exactly when no row satisfies it,
      and otherwise the earliest row that does. */
  lemma {:induction false} FirstWhere<T>(rows: seq<T>, keep: T -> bool)
    ensures First(Where(rows, keep)).None? <==> forall j :: 0 <= j < |rows| ==> !keep(rows[j])
    ensures forall i :: 0 <= i < |rows| && keep(rows[i]) && (forall j :: 0 <= j < i ==> !keep(rows[j]))
                        ==> First(Where(rows, keep)) == Some(rows[i])
  {
    if rows != [] {
      var n := |rows| - 1;
      var init, last := rows[..n], rows[n];
      assert rows == init + [last];
      FirstWhere(init, keep);
      WhereSnoc(init, last, keep);
      var w := Where(init, keep);
      if w != [] {
        assert (w + (if keep(last) then [last] else []))[0] == w[0];
      }
      forall i | 0 <= i < |rows| && keep(rows[i]) && (forall j :: 0 <= j < i ==> !keep(rows[j]))
        ensures First(Where(rows, keep)) == Some(rows[i])
      {
        if i < n {
          assert init[i] == rows[i];
          assert forall j :: 0 <= j < i ==> !keep(init[j]);
        } else {
          assert forall j :: 0 <= j < n ==> !keep(init[j]);
        }
      }
    }
  }

  /** The last row a filter keeps is null exactly when no row satisfies it,
      and otherwise the latest row that does: the row a loop that overwrites
      a variable with every matching row leaves behind. */
  lemma {:induction false} LastWhere<T>(rows: seq<T>, keep: T -> bool)
    ensures Last(Where(rows, keep)).None? <==> forall j :: 0 <= j < |rows| ==> !keep(rows[j])
    ensures forall i :: 0 <= i < |rows| && keep(rows[i]) && (forall j :: i < j < |rows| ==> !keep(rows[j]))
                        ==> Last(Where(rows, keep)) == Some(rows[i])
  {
    if rows != [] {
      var n := |rows| - 1;
      var init, last := rows[..n], rows[n];
      assert rows == init + [last];
      LastWhere(init, keep);
      WhereSnoc(init, last, keep);
      forall i | 0 <= i < |rows| && keep(rows[i]) && (forall j :: i < j < |rows| ==> !keep(rows[j]))
        ensures Last(Where(rows, keep)) == Some(rows[i])
      {
        if i < n {
          assert init[i] == rows[i];
          assert forall j :: i < j < n ==> !keep(init[j]);
        }
      }
    }
  }

  /** SQLite's `limit offset, count`: at most `count` rows, starting at row
      `offset` of the scan. */
  function Limit<T>(rows: seq<T>, offset: nat, count: nat): (r: seq<T>)
    ensures |r| == if offset >= |rows| then 0
                   else if offset + count <= |rows| then count
                   else |rows| - offset
    ensures forall i :: 0 <= i < |r| ==> r[i] == rows[offset + i]
  {
    if offset >= |rows| then []
    else if offset + count <= |rows| then rows[offset..offset + count]
    else rows[offset..]
  }

  /** Two consecutive windows read the rows of one wider window. */
  lemma LimitAdjacent<T>(rows: seq<T>, offset: nat, count: nat)
    requires offset <= |rows|
    ensures rows[..offset] + Limit(rows, offset, count) == rows[..if offset + count <= |rows| then offset + count else |rows|]
  {
  }

  /** Filtering one more row of a scan adds that row when it is kept. */
  lemma WherePrefixStep<T>(rows: seq<T>, i: nat, keep: T -> bool)
    requires i < |rows|
    ensures Where(rows[..i + 1], keep) == Where(rows[..i], keep) + (if keep(rows[i]) then [rows[i]] else [])
  {
    assert rows[..i + 1] == rows[..i] + [rows[i]];
    WhereSnoc(rows[..i], rows[i], keep);
  }

  /** Filtering the rows before a window, then the window, filters every row
      up to the window's end. */
  lemma WhereWindow<T>(rows: seq<T>, offset: nat, count: nat, keep: T -> bool)
    requires offset <= |rows|
    ensures Where(rows[..offset], keep) + Where(Limit(rows, offset, count), keep)
            == Where(rows[..offset + |Limit(rows, offset, count)|], keep)
  {
    LimitAdjacent(rows, offset, count);
    WhereAppend(rows[..offset], Limit(rows, offset, count), keep);
  }

  /** Regrouping a concatenation, stated once so that loop proofs need not
      rediscover it. */
  lemma AppendAssoc<T>(a: seq<T>, b: seq<T>, c: seq<T>)
    ensures (a + b) + c == a + (b + c)
  {
  }

  /** The pairs `(a, b)` of `left` and `right` that satisfy `on`, in the order
      of a nested loop over `left` then `right`. */
  function Join<A, B>(left: seq<A>, right: seq<B>, on: (A, B) -> bool): (r: seq<(A, B)>)
  {
    if left == [] then []
    else
      var last := left[|left| - 1];
      Join(left[..|left| - 1], right, on) + Partners(last, right, on)
  }

  /** The rows of `right` that `a` joins with, paired with `a`. */
  function Partners<A, B>(a: A, right: seq<B>, on: (A, B) -> bool): (r: seq<(A, B)>)
    ensures |r| <= |right|
  {
    if right == [] then []
    else
      var last := right[|right| - 1];
      Partners(a, right[..|right| - 1], on) + (if on(a, last) then [(a, last)] else [])
  }

  /** A pair is joined exactly when its rows come from the two tables and match. */
  lemma {:induction false} JoinHas<A, B>(left: seq<A>, right: seq<B>, on: (A, B) -> bool, p: (A, B))
    ensures p in Join(left, right, on) <==> p.0 in left && p.1 in right && on(p.0, p.1)
  {
    if left != [] {
      var init, last := left[..|left| - 1], left[|left| - 1];
      assert left == init + [last];
      JoinHas(init, right, on, p);
      PartnersHas(last, right, on, p);
    }
  }

  lemma {:induction false} PartnersHas<A, B>(a: A, right: seq<B>, on: (A, B) -> bool, p: (A, B))
    ensures p in Partners(a, right, on) <==> p.0 == a && p.1 in right && on(a, p.1)
  {
    if right != [] {
      var init, last := right[..|right| - 1], right[|right| - 1];
      assert right == init + [last];
      PartnersHas(a, init, on, p);
    }
  }
}
