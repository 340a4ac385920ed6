/**
 * The part of a pandas DataFrame that the stratified split looks at, and the
 * handful of DataFrame/Index operations it calls.  A frame is an ordered
 * sequence of rows; each row carries its index label (`id`) and its value in
 * the stratifying column (`key`).  Every other column travels with its row
 * unchanged and is not modelled.
 */
module Frames {

  datatype Row<Id, L> = Row(id: Id, key: L)

  /** No element occurs twice. */
  predicate Distinct<T(==, !new)>(s: seq<T>)
  {
    forall i, j :: 0 <= i < j < |s| ==> s[i] != s[j]
  }

  /** The frame's index is unique: no two rows share an id. */
  predicate UniqueIndex<Id(==, !new), L(!new)>(rows: seq<Row<Id, L>>)
  {
    forall i, j :: 0 <= i < j < |rows| ==> rows[i].id != rows[j].id
  }

  /** `df.index`: the ids of the rows, in row order. */
  function Ids<Id(!new), L(!new)>(rows: seq<Row<Id, L>>): (ids: seq<Id>)
    ensures |ids| == |rows|
    ensures forall i {:trigger ids[i]} :: 0 <= i < |rows| ==> ids[i] == rows[i].id
  {
    seq(|rows|, i requires 0 <= i < |rows| => rows[i].id)
  }

  /** `df[feature_by]`: the stratifying column, in row order. */
  function Column<Id(!new), L(!new)>(rows: seq<Row<Id, L>>): (col: seq<L>)
    ensures |col| == |rows|
    ensures forall i {:trigger col[i]} :: 0 <= i < |rows| ==> col[i] == rows[i].key
  {
    seq(|rows|, i requires 0 <= i < |rows| => rows[i].key)
  }

  /** `Series.unique()`: every value of `s` once, in order of first appearance. */
  function Unique<T(==, !new)>(s: seq<T>): (u: seq<T>)
    ensures Distinct(u)
    ensures forall x :: x in u <==> x in s
  {
    if s == [] then []
    else
      var u := Unique(s[..|s| - 1]);
      var x := s[|s| - 1];
      assert s == s[..|s| - 1] + [x];
      if x in u then u else u + [x]
  }

  /**
   * The distinct labels of a frame, in order of first appearance: every row's
   * label, each once.
   */
  function Labels<Id(!new), L(==, !new)>(rows: seq<Row<Id, L>>): (ls: seq<L>)
    ensures Distinct(ls)
    ensures forall r :: r in rows ==> r.key in ls
  {
    var col := Column(rows);
    assert forall r :: r in rows ==> r.key in col by {
      forall r | r in rows ensures r.key in col {
        var k :| 0 <= k < |rows| && rows[k] == r;
        assert col[k] == r.key;
      }
    }
    Unique(col)
  }

  /** The position at which `x` first occurs in `s`. */
  function FirstIndex<T(==, !new)>(s: seq<T>, x: T): (k: nat)
    requires x in s
    ensures k < |s| && s[k] == x && x !in s[..k]
  {
    if s[0] == x then 0
    else
      assert s == [s[0]] + s[1..];
      1 + FirstIndex(s[1..], x)
  }

  /**
   * The rows whose label is `l`, in row order, a missing label (NaN, None)
   * matching the rows that carry that same missing value.
   */
  function Stratum<Id(!new), L(==, !new)>(rows: seq<Row<Id, L>>, l: L): (s: seq<Row<Id, L>>)
    ensures forall r :: r in s <==> r in rows && r.key == l
    ensures UniqueIndex(rows) ==> UniqueIndex(s)
  {
    if rows == [] then []
    else
      assert rows == [rows[0]] + rows[1..];
      var rest := Stratum(rows[1..], l);
      assert UniqueIndex(rows) ==> UniqueIndex(rest) && UniqueIndex([rows[0]] + rest) by {
        if UniqueIndex(rows) {
          UniqueIndexTail(rows);
          UniqueIndexCons(rows[0], rest);
        }
      }
      if rows[0].key == l then [rows[0]] + rest else rest
  }

  /**
   * `df[df[feature_by] == l]`: pandas compares element by element, and a
   * missing value (`missing`, as `pd.isna` decides) equals nothing, not even
   * itself.  So a missing label selects no row, and any other label selects
   * exactly the rows carrying it.
   */
  function Matching<Id(!new), L(==, !new)>(rows: seq<Row<Id, L>>, missing: L -> bool, l: L): (s: seq<Row<Id, L>>)
    ensures forall r :: r in s <==> r in rows && r.key == l && !missing(l)
    ensures UniqueIndex(rows) ==> UniqueIndex(s)
  {
    if missing(l) then [] else Stratum(rows, l)
  }

  /** The rows whose label is not missing, in row order. */
  function Present<Id(!new), L(!new)>(rows: seq<Row<Id, L>>, missing: L -> bool): (s: seq<Row<Id, L>>)
    ensures forall r :: r in s <==> r in rows && !missing(r.key)
    ensures UniqueIndex(rows) ==> UniqueIndex(s)
  {
    if rows == [] then []
    else
      assert rows == [rows[0]] + rows[1..];
      var rest := Present(rows[1..], missing);
      assert UniqueIndex(rows) ==> UniqueIndex(rest) && UniqueIndex([rows[0]] + rest) by {
        if UniqueIndex(rows) {
          UniqueIndexTail(rows);
          UniqueIndexCons(rows[0], rest);
        }
      }
      if missing(rows[0].key) then rest else [rows[0]] + rest
  }

  /** The rows whose label is one of `ls` and not missing, in row order. */
  function Within<Id(!new), L(==, !new)>(rows: seq<Row<Id, L>>, missing: L -> bool, ls: seq<L>): (s: seq<Row<Id, L>>)
    ensures forall r :: r in s <==> r in rows && r.key in ls && !missing(r.key)
  {
    if rows == [] then []
    else
      assert rows == [rows[0]] + rows[1..];
      (if rows[0].key in ls && !missing(rows[0].key) then [rows[0]] else []) + Within(rows[1..], missing, ls)
  }

  /** `s` is `t` with some elements left out and the others in their order. */
  predicate Subsequence<T(==)>(s: seq<T>, t: seq<T>)
    decreases |t|
  {
    if s == [] then true
    else if t == [] then false
    else if s[0] == t[0] then Subsequence(s[1..], t[1..])
    else Subsequence(s, t[1..])
  }

  /** `Index.drop(removed)`: the ids not listed in `removed`, in their order. */
  function Drop<Id(==, !new)>(ids: seq<Id>, removed: seq<Id>): (r: seq<Id>)
    ensures forall x :: x in r <==> x in ids && x !in removed
  {
    if ids == [] then []
    else
      assert ids == [ids[0]] + ids[1..];
      (if ids[0] in removed then [] else [ids[0]]) + Drop(ids[1..], removed)
  }

  /** The row a frame holds under index label `id` (the first, should there be several). */
  function Lookup<Id(==, !new), L(!new)>(rows: seq<Row<Id, L>>, id: Id): (r: Row<Id, L>)
    requires id in Ids(rows)
    ensures r in rows && r.id == id
  {
    if rows[0].id == id then rows[0]
    else
      assert id in Ids(rows[1..]) by {
        var k :| 0 <= k < |rows| && Ids(rows)[k] == id;
        assert Ids(rows[1..])[k - 1] == id;
      }
      Lookup(rows[1..], id)
  }

  /** `df.loc[ids]`: the rows under the given index labels, in the order of `ids`. */
  function Loc<Id(==, !new), L(!new)>(rows: seq<Row<Id, L>>, ids: seq<Id>): (s: seq<Row<Id, L>>)
    requires forall id :: id in ids ==> id in Ids(rows)
    ensures Ids(s) == ids
    ensures forall r :: r in s ==> r in rows
  {
    seq(|ids|, i requires 0 <= i < |ids| => Lookup(rows, ids[i]))
  }

  // ---------------------------------------------------------------------------
  // Facts about unique indexes

  lemma UniqueIndexTail<Id(!new), L(!new)>(rows: seq<Row<Id, L>>)
    requires rows != [] && UniqueIndex(rows)
    ensures UniqueIndex(rows[1..])
    ensures forall r :: r in rows[1..] ==> r.id != rows[0].id
  {
    forall r | r in rows[1..] ensures r.id != rows[0].id {
      var k :| 0 <= k < |rows[1..]| && rows[1..][k] == r;
      assert rows[k + 1] == r;
    }
  }

  lemma UniqueIndexCons<Id(!new), L(!new)>(r: Row<Id, L>, rows: seq<Row<Id, L>>)
    requires UniqueIndex(rows)
    requires forall x :: x in rows ==> x.id != r.id
    ensures UniqueIndex([r] + rows)
  {
    var s := [r] + rows;
    forall i, j | 0 <= i < j < |s| ensures s[i].id != s[j].id {
      assert s[j] == rows[j - 1];
      if i > 0 {
        assert s[i] == rows[i - 1];
      }
    }
  }

  /** Two rows of a frame with a unique index that share an id are the same row. */
  lemma SameId<Id(!new), L(!new)>(rows: seq<Row<Id, L>>, x: Row<Id, L>, y: Row<Id, L>)
    requires UniqueIndex(rows) && x in rows && y in rows
    ensures x.id == y.id ==> x == y
  {
    var i :| 0 <= i < |rows| && rows[i] == x;
    var j :| 0 <= j < |rows| && rows[j] == y;
  }

  /** In a frame with a unique index every row occurs exactly once. */
  lemma {:induction false} UniqueCount<Id(!new), L(!new)>(rows: seq<Row<Id, L>>, x: Row<Id, L>)
    requires UniqueIndex(rows)
    ensures multiset(rows)[x] == if x in rows then 1 else 0
  {
    if rows != [] {
      assert rows == [rows[0]] + rows[1..];
      UniqueIndexTail(rows);
      UniqueCount(rows[1..], x);
      if x == rows[0] {
        assert x !in rows[1..];
      }
    }
  }

  lemma RowIdInIds<Id(!new), L(!new)>(rows: seq<Row<Id, L>>, x: Row<Id, L>)
    requires x in rows
    ensures x.id in Ids(rows)
  {
    var k :| 0 <= k < |rows| && rows[k] == x;
    assert Ids(rows)[k] == x.id;
  }

  /** A value at two distinct positions occurs at least twice. */
  lemma TwoPositions<T>(s: seq<T>, i: nat, j: nat)
    requires i < j < |s|
    ensures s[i] == s[j] ==> multiset(s)[s[i]] >= 2
  {
    assert s == s[..j] + [s[j]] + s[j + 1..];
    assert s[..j][i] == s[i];
    assert multiset(s) == multiset(s[..j]) + multiset{s[j]} + multiset(s[j + 1..]);
  }

  /**
   * Two sequences whose rows together are exactly the rows of a frame with a
   * unique index share no id, and neither holds an id twice.
   */
  lemma UniqueOfPartition<Id(!new), L(!new)>(a: seq<Row<Id, L>>, b: seq<Row<Id, L>>, rows: seq<Row<Id, L>>)
    requires UniqueIndex(rows)
    requires multiset(a) + multiset(b) == multiset(rows)
    ensures UniqueIndex(a + b)
  {
    var s := a + b;
    assert multiset(s) == multiset(rows);
    forall i, j | 0 <= i < j < |s| ensures s[i].id != s[j].id {
      assert s[i] in multiset(s) && s[j] in multiset(s);
      TwoPositions(s, i, j);
      UniqueCount(rows, s[i]);
      SameId(rows, s[i], s[j]);
    }
  }

  /** A row that a frame does not hold is in neither part of a partition of it. */
  lemma NotInPartition<T>(a: seq<T>, b: seq<T>, rows: seq<T>, x: T)
    requires multiset(a) + multiset(b) == multiset(rows)
    requires x !in rows
    ensures x !in a && x !in b
  {
    assert multiset(rows)[x] == 0;
  }

  // ---------------------------------------------------------------------------
  // Facts about Stratum, Within and Loc

  lemma {:induction false} StratumConcat<Id(!new), L(!new)>(a: seq<Row<Id, L>>, b: seq<Row<Id, L>>, l: L)
    ensures Stratum(a + b, l) == Stratum(a, l) + Stratum(b, l)
  {
    if a == [] {
      assert a + b == b;
    } else {
      assert (a + b)[0] == a[0];
      assert (a + b)[1..] == a[1..] + b;
      StratumConcat(a[1..], b, l);
    }
  }

  /** Selecting its own label from rows that all carry one label keeps all of them. */
  lemma {:induction false} StratumWhole<Id(!new), L(!new)>(s: seq<Row<Id, L>>, l: L)
    requires forall r :: r in s ==> r.key == l
    ensures Stratum(s, l) == s
  {
    if s != [] {
      assert s[0] in s;
      forall r | r in s[1..] ensures r.key == l {
        assert r in s;
      }
      StratumWhole(s[1..], l);
    }
  }

  /** Selecting a label that no row carries gives nothing. */
  lemma {:induction false} StratumNone<Id(!new), L(!new)>(s: seq<Row<Id, L>>, l: L)
    requires forall r :: r in s ==> r.key != l
    ensures Stratum(s, l) == []
  {
    if s != [] {
      assert s[0] in s;
      forall r | r in s[1..] ensures r.key != l {
        assert r in s;
      }
      StratumNone(s[1..], l);
    }
  }

  /** How often a row occurs among the rows of one label. */
  lemma {:induction false} StratumCount<Id(!new), L(!new)>(s: seq<Row<Id, L>>, l: L, x: Row<Id, L>)
    ensures multiset(Stratum(s, l))[x] == if x.key == l then multiset(s)[x] else 0
  {
    if s != [] {
      assert s == [s[0]] + s[1..];
      StratumCount(s[1..], l, x);
    }
  }

  /** Selecting one label commutes with reordering. */
  lemma StratumPermutation<Id(!new), L(!new)>(s: seq<Row<Id, L>>, t: seq<Row<Id, L>>, l: L)
    requires multiset(s) == multiset(t)
    ensures multiset(Stratum(s, l)) == multiset(Stratum(t, l))
  {
    forall x ensures multiset(Stratum(s, l))[x] == multiset(Stratum(t, l))[x] {
      StratumCount(s, l, x);
      StratumCount(t, l, x);
    }
  }

  /**
   * Adding one more label to `ls` adds exactly the rows that label selects
   * under pandas' `==`: none when it is missing.
   */
  lemma {:induction false} WithinSnoc<Id(!new), L(!new)>(rows: seq<Row<Id, L>>, missing: L -> bool, ls: seq<L>, l: L)
    requires l !in ls
    ensures multiset(Within(rows, missing, ls + [l])) == multiset(Within(rows, missing, ls)) + multiset(Matching(rows, missing, l))
  {
    if rows != [] {
      WithinSnoc(rows[1..], missing, ls, l);
    }
  }

  /** Selecting every label a frame uses keeps the rows whose label is not missing. */
  lemma {:induction false} WithinAll<Id(!new), L(!new)>(rows: seq<Row<Id, L>>, missing: L -> bool, ls: seq<L>)
    requires forall r :: r in rows ==> r.key in ls
    ensures Within(rows, missing, ls) == Present(rows, missing)
  {
    if rows != [] {
      assert rows[0] in rows;
      forall r | r in rows[1..] ensures r.key in ls {
        assert r in rows;
      }
      WithinAll(rows[1..], missing, ls);
    }
  }

  /** When no label is missing, every row is present. */
  lemma {:induction false} PresentAll<Id(!new), L(!new)>(rows: seq<Row<Id, L>>, missing: L -> bool)
    requires forall r :: r in rows ==> !missing(r.key)
    ensures Present(rows, missing) == rows
  {
    if rows != [] {
      assert rows[0] in rows;
      forall r | r in rows[1..] ensures !missing(r.key) {
        assert r in rows;
      }
      PresentAll(rows[1..], missing);
    }
  }

  /** Every label listed is carried by some row. */
  lemma LabelsOccur<Id(!new), L(!new)>(rows: seq<Row<Id, L>>)
    ensures forall l :: l in Labels(rows) ==> exists r :: r in rows && r.key == l
  {
    var col := Column(rows);
    forall l | l in Labels(rows) ensures exists r :: r in rows && r.key == l {
      var k :| 0 <= k < |col| && col[k] == l;
      assert rows[k] in rows;
    }
  }

  /** A label that no row carries selects nothing. */
  lemma AbsentLabel<Id(!new), L(!new)>(rows: seq<Row<Id, L>>, l: L)
    requires l !in Labels(rows)
    ensures Stratum(rows, l) == []
  {
    StratumNone(rows, l);
  }

  // ---------------------------------------------------------------------------
  // Order

  /** The rows of one label keep their order in the frame. */
  lemma {:induction false} StratumInOrder<Id(!new), L(!new)>(rows: seq<Row<Id, L>>, l: L)
    ensures Subsequence(Stratum(rows, l), rows)
  {
    if rows != [] {
      StratumInOrder(rows[1..], l);
      var rest := Stratum(rows[1..], l);
      if rows[0].key != l && rest != [] {
        assert rest[0] in rest;
      }
    }
  }

  /** `Index.drop` keeps the remaining ids in their order. */
  lemma {:induction false} DropInOrder<Id(!new)>(ids: seq<Id>, removed: seq<Id>)
    ensures Subsequence(Drop(ids, removed), ids)
  {
    if ids != [] {
      DropInOrder(ids[1..], removed);
      var rest := Drop(ids[1..], removed);
      if ids[0] in removed {
        assert Drop(ids, removed) == rest;
        if rest != [] {
          assert rest[0] in rest;
        }
      }
    }
  }

  /** `Unique` lists the values in the order in which they first occur. */
  lemma {:induction false} UniqueInOrder<T(!new)>(s: seq<T>)
    ensures forall i, j :: 0 <= i < j < |Unique(s)| ==>
      FirstIndex(s, Unique(s)[i]) < FirstIndex(s, Unique(s)[j])
  {
    if s != [] {
      var p, x := s[..|s| - 1], s[|s| - 1];
      assert s == p + [x];
      assert s[..|p|] == p;
      UniqueInOrder(p);
      var u := Unique(p);
      forall y | y in p ensures FirstIndex(s, y) == FirstIndex(p, y) {
        var m := FirstIndex(p, y);
        assert s[..m] == p[..m];
        FirstIndexUnique(s, y, m);
      }
      if x !in u {
        FirstIndexUnique(s, x, |p|);
        forall i | 0 <= i < |u| ensures FirstIndex(s, u[i]) < FirstIndex(s, x) {
          assert u[i] in p;
        }
      }
    }
  }

  /** The first occurrence is the one with no earlier occurrence. */
  lemma {:induction false} FirstIndexUnique<T(!new)>(s: seq<T>, x: T, k: nat)
    requires k < |s| && s[k] == x && x !in s[..k]
    ensures FirstIndex(s, x) == k
  {
    if k > 0 {
      assert s[..k][0] == s[0];
      assert s[1..][..k - 1] == s[..k][1..];
      FirstIndexUnique(s[1..], x, k - 1);
    }
  }

  lemma IdsConcat<Id(!new), L(!new)>(a: seq<Row<Id, L>>, b: seq<Row<Id, L>>)
    ensures Ids(a + b) == Ids(a) + Ids(b)
  {
  }

  /**
   * Looking up the ids of rows that a frame with a unique index holds gives
   * back exactly those rows, in the same order.
   */
  lemma LocIds<Id(!new), L(!new)>(rows: seq<Row<Id, L>>, s: seq<Row<Id, L>>)
    requires UniqueIndex(rows)
    requires forall r :: r in s ==> r in rows
    ensures forall id :: id in Ids(s) ==> id in Ids(rows)
    ensures Loc(rows, Ids(s)) == s
  {
    forall id | id in Ids(s) ensures id in Ids(rows) {
      var k :| 0 <= k < |s| && Ids(s)[k] == id;
      RowIdInIds(rows, s[k]);
    }
    var t := Loc(rows, Ids(s));
    forall k | 0 <= k < |s| ensures t[k] == s[k] {
      assert Ids(t)[k] == Ids(s)[k];
      SameId(rows, t[k], s[k]);
    }
  }
}
