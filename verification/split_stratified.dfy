/**
 * Stratified train/test partition of a frame.  For each distinct label, in
 * order of first appearance, a test sample is drawn without replacement from
 * the rows `df[feature_by] == label` selects (its stratum); the sample's ids
 * go to the test index and the stratum's remaining ids, in frame order, go to
 * the train index.  The two indexes are then turned back into rows and, optionally,
 * each is reordered.
 *
 * The sampler is a parameter `draw`: for the stratum of label l, of n rows,
 * `draw(l, n)` gives the duplicate-free row positions the sampler picks, in
 * the order it picks them.  With a fixed `random_state` the positions depend
 * on n alone; without one they may differ from call to call, and as each
 * label is sampled once, keying them on the label covers that too.  How many
 * positions it picks is the size rule k(n), the rounding of `test_frac * n`:
 * one rule for every stratum, whatever its label, which the model leaves
 * otherwise open.
 *
 * `missing` is `pd.isna` on labels: `unique()` lists a missing label (NaN,
 * None) like any other, but pandas' `==` never holds for it, so its stratum
 * is empty and the rows carrying it reach neither output.
 */
module SplitStratified {
  import opened Frames

  /**
   * `d` is a draw without replacement from n positions: no position twice,
   * every position below n, and so no more positions than there are.
   */
  function IsDraw(d: seq<nat>, n: nat): (b: bool)
    ensures b ==> |d| <= n
  {
    var ok := Distinct(d) && forall j :: 0 <= j < |d| ==> d[j] < n;
    assert ok ==> |d| <= n by {
      if ok {
        DrawSize(d, n);
      }
    }
    ok
  }

  /** The sampler draws without replacement from every stratum. */
  ghost function ValidDraw<L(!new)>(draw: (L, nat) -> seq<nat>): (b: bool)
    ensures b ==> forall l, n :: |draw(l, n)| <= n
  {
    forall l, n :: IsDraw(draw(l, n), n)
  }

  /**
   * `sample(frac=test_frac)` with one `test_frac` for every stratum: the
   * sampler picks k(n) positions from a stratum of n rows, whatever its label.
   */
  ghost predicate SizeRule<L(!new)>(draw: (L, nat) -> seq<nat>, k: nat -> nat)
  {
    forall l, n :: |draw(l, n)| == k(n)
  }

  /** A draw without replacement never asks for more rows than there are. */
  lemma DrawSize(d: seq<nat>, n: nat)
    requires Distinct(d) && forall j :: 0 <= j < |d| ==> d[j] < n
    ensures |d| <= n
  {
    var picked := set j | 0 <= j < |d| :: d[j];
    DistinctCard(d);
    RangeCard(n);
    assert picked <= Range(n);
    SubsetCard(picked, Range(n));
  }

  lemma {:induction false} DistinctCard(d: seq<nat>)
    requires Distinct(d)
    ensures |set j | 0 <= j < |d| :: d[j]| == |d|
  {
    if d != [] {
      var t := d[1..];
      DistinctCard(t);
      var st := set j | 0 <= j < |t| :: t[j];
      assert (set j | 0 <= j < |d| :: d[j]) == {d[0]} + st by {
        forall x | x in st ensures x in set j | 0 <= j < |d| :: d[j] {
          var j :| 0 <= j < |t| && t[j] == x;
          assert d[j + 1] == x;
        }
      }
      assert d[0] !in st by {
        forall j | 0 <= j < |t| ensures t[j] != d[0] {
          assert t[j] == d[j + 1];
        }
      }
    }
  }

  /** The positions 0 .. n-1. */
  ghost function Range(n: nat): (r: set<nat>)
    ensures forall i: nat :: i in r <==> i < n
  {
    if n == 0 then {} else Range(n - 1) + {n - 1}
  }

  lemma {:induction false} RangeCard(n: nat)
    ensures |Range(n)| == n
  {
    if n > 0 {
      RangeCard(n - 1);
      assert n - 1 !in Range(n - 1);
    }
  }

  lemma {:induction false} SubsetCard(a: set<nat>, b: set<nat>)
    requires a <= b
    ensures |a| <= |b|
    decreases b
  {
    if a != {} {
      var x :| x in a;
      SubsetCard(a - {x}, b - {x});
    }
  }

  /**
   * `cur_df.sample(...)` for the positions `d` the sampler picked: the rows
   * at those positions, in the order they were picked.
   */
  function Sample<Id(!new), L(!new)>(s: seq<Row<Id, L>>, d: seq<nat>): (r: seq<Row<Id, L>>)
    requires IsDraw(d, |s|)
    ensures |r| == |d|
    ensures forall x :: x in r ==> x in s
    ensures UniqueIndex(s) ==> UniqueIndex(r)
  {
    seq(|d|, j requires 0 <= j < |d| => s[d[j]])
  }

  /** The rows of `s` whose id is not in `removed`, in their order. */
  function Leftover<Id(==, !new), L(!new)>(s: seq<Row<Id, L>>, removed: seq<Id>): (r: seq<Row<Id, L>>)
    ensures forall x :: x in r <==> x in s && x.id !in removed
    ensures UniqueIndex(s) ==> UniqueIndex(r)
  {
    if s == [] then []
    else
      assert s == [s[0]] + s[1..];
      var rest := Leftover(s[1..], removed);
      assert UniqueIndex(s) ==> UniqueIndex(rest) && UniqueIndex([s[0]] + rest) by {
        if UniqueIndex(s) {
          UniqueIndexTail(s);
          UniqueIndexCons(s[0], rest);
        }
      }
      if s[0].id in removed then rest else [s[0]] + rest
  }

  /** The leftover rows keep their order in the stratum. */
  lemma {:induction false} LeftoverInOrder<Id(!new), L(!new)>(s: seq<Row<Id, L>>, removed: seq<Id>)
    ensures Subsequence(Leftover(s, removed), s)
  {
    if s != [] {
      LeftoverInOrder(s[1..], removed);
      var rest := Leftover(s[1..], removed);
      if s[0].id in removed && rest != [] {
        assert rest[0] in rest;
      }
    }
  }

  /** `cur_df.index.drop(test_sample)` on rows: the ids of `Leftover`. */
  lemma {:induction false} IdsLeftover<Id(!new), L(!new)>(s: seq<Row<Id, L>>, removed: seq<Id>)
    ensures Ids(Leftover(s, removed)) == Drop(Ids(s), removed)
  {
    if s != [] {
      var ids, rest := Ids(s), Leftover(s[1..], removed);
      var head: seq<Row<Id, L>> := if s[0].id in removed then [] else [s[0]];
      assert ids[0] == s[0].id && ids[1..] == Ids(s[1..]);
      assert Drop(ids, removed) == Ids(head) + Drop(Ids(s[1..]), removed);
      assert Leftover(s, removed) == head + rest;
      IdsLeftover(s[1..], removed);
      IdsConcat(head, rest);
    }
  }

  /** `cur_df.sample(...)`: the test share of the rows label `l` selects. */
  function StratumTest<Id(!new), L(==, !new)>(df: seq<Row<Id, L>>, draw: (L, nat) -> seq<nat>, missing: L -> bool, l: L)
    : (t: seq<Row<Id, L>>)
    requires ValidDraw(draw)
    ensures |t| == |draw(l, |Matching(df, missing, l)|)|
    ensures forall r :: r in t ==> r in df && r.key == l && !missing(l)
    ensures UniqueIndex(df) ==> UniqueIndex(t)
  {
    var s := Matching(df, missing, l);
    Sample(s, draw(l, |s|))
  }

  /**
   * `cur_df.index.drop(test_sample)`, as rows: the rows label `l` selects
   * whose id the test share does not hold.
   */
  function StratumTrain<Id(==, !new), L(==, !new)>(df: seq<Row<Id, L>>, draw: (L, nat) -> seq<nat>, missing: L -> bool, l: L)
    : (t: seq<Row<Id, L>>)
    requires ValidDraw(draw)
    ensures forall r :: r in t <==> r in Matching(df, missing, l) && r.id !in Ids(StratumTest(df, draw, missing, l))
    ensures UniqueIndex(df) ==> UniqueIndex(t)
  {
    var s := Matching(df, missing, l);
    Leftover(s, Ids(Sample(s, draw(l, |s|))))
  }

  /** What the test index holds after the labels `ls` have been processed, as rows. */
  ghost function TestRows<Id(!new), L(!new)>(df: seq<Row<Id, L>>, draw: (L, nat) -> seq<nat>, missing: L -> bool, ls: seq<L>)
    : (t: seq<Row<Id, L>>)
    requires ValidDraw(draw)
    ensures forall r :: r in t ==> r in df && r.key in ls && !missing(r.key)
  {
    if ls == [] then []
    else
      var init, l := ls[..|ls| - 1], ls[|ls| - 1];
      assert ls == init + [l];
      TestRows(df, draw, missing, init) + StratumTest(df, draw, missing, l)
  }

  /** What the train index holds after the labels `ls` have been processed, as rows. */
  ghost function TrainRows<Id(!new), L(!new)>(df: seq<Row<Id, L>>, draw: (L, nat) -> seq<nat>, missing: L -> bool, ls: seq<L>)
    : (t: seq<Row<Id, L>>)
    requires ValidDraw(draw)
    ensures forall r :: r in t ==> r in df && r.key in ls && !missing(r.key)
  {
    if ls == [] then []
    else
      var init, l := ls[..|ls| - 1], ls[|ls| - 1];
      assert ls == init + [l];
      TrainRows(df, draw, missing, init) + StratumTrain(df, draw, missing, l)
  }

  // ---------------------------------------------------------------------------
  // One stratum

  /**
   * The test share of the rows label `l` selects is a duplicate-free
   * selection of them, no larger than they are; the train share is exactly
   * the rest; together they hold every selected row once.
   */
  lemma StratumShares<Id(!new), L(!new)>(df: seq<Row<Id, L>>, draw: (L, nat) -> seq<nat>, missing: L -> bool, l: L)
    requires UniqueIndex(df) && ValidDraw(draw)
    ensures UniqueIndex(StratumTest(df, draw, missing, l))
    ensures |StratumTest(df, draw, missing, l)| == |draw(l, |Matching(df, missing, l)|)| <= |Matching(df, missing, l)|
    ensures forall r :: r in StratumTest(df, draw, missing, l) ==> r in df && r.key == l && !missing(l)
    ensures forall r :: r in StratumTrain(df, draw, missing, l) <==>
      r in df && r.key == l && !missing(l) && r !in StratumTest(df, draw, missing, l)
    ensures multiset(StratumTest(df, draw, missing, l)) + multiset(StratumTrain(df, draw, missing, l))
      == multiset(Matching(df, missing, l))
  {
    var s := Matching(df, missing, l);
    var a, b := StratumTest(df, draw, missing, l), StratumTrain(df, draw, missing, l);
    forall x | x in s ensures x in a <==> x.id in Ids(a) {
      if x in a {
        RowIdInIds(a, x);
      }
      if x.id in Ids(a) {
        SameId(s, x, Lookup(a, x.id));
      }
    }
    forall x ensures multiset(a)[x] + multiset(b)[x] == multiset(s)[x] {
      UniqueCount(s, x);
      UniqueCount(a, x);
      UniqueCount(b, x);
    }
  }

  // ---------------------------------------------------------------------------
  // All strata

  /**
   * After the labels `ls` (each once) have been processed, test and train
   * together hold exactly the rows whose label is among `ls` and not
   * missing, each once.
   */
  lemma {:induction false} PartitionSoFar<Id(!new), L(!new)>(df: seq<Row<Id, L>>, draw: (L, nat) -> seq<nat>, missing: L -> bool, ls: seq<L>)
    requires UniqueIndex(df) && ValidDraw(draw) && Distinct(ls)
    ensures multiset(TestRows(df, draw, missing, ls)) + multiset(TrainRows(df, draw, missing, ls))
      == multiset(Within(df, missing, ls))
  {
    if ls == [] {
      assert Within(df, missing, ls) == [] by {
        WithinNone(df, missing, ls);
      }
    } else {
      var init, l := ls[..|ls| - 1], ls[|ls| - 1];
      assert ls == init + [l];
      PartitionSoFar(df, draw, missing, init);
      StratumShares(df, draw, missing, l);
      WithinSnoc(df, missing, init, l);
    }
  }

  lemma {:induction false} WithinNone<Id(!new), L(!new)>(df: seq<Row<Id, L>>, missing: L -> bool, ls: seq<L>)
    requires ls == []
    ensures Within(df, missing, ls) == []
  {
    if df != [] {
      WithinNone(df[1..], missing, ls);
    }
  }

  /**
   * The rows of label `l` in the test (train) index are exactly that label's
   * test (train) share, in the same order; a label not among `ls`
   * contributes nothing.
   */
  lemma {:induction false} SharesOfLabel<Id(!new), L(!new)>(df: seq<Row<Id, L>>, draw: (L, nat) -> seq<nat>, missing: L -> bool, ls: seq<L>, l: L)
    requires ValidDraw(draw) && Distinct(ls)
    ensures Stratum(TestRows(df, draw, missing, ls), l) == if l in ls then StratumTest(df, draw, missing, l) else []
    ensures Stratum(TrainRows(df, draw, missing, ls), l) == if l in ls then StratumTrain(df, draw, missing, l) else []
  {
    if ls == [] {
      assert Stratum(TestRows(df, draw, missing, ls), l) == [] && Stratum(TrainRows(df, draw, missing, ls), l) == [];
    } else {
      var init, m := ls[..|ls| - 1], ls[|ls| - 1];
      assert ls == init + [m];
      SharesOfLabel(df, draw, missing, init, l);
      var a, b := StratumTest(df, draw, missing, m), StratumTrain(df, draw, missing, m);
      StratumConcat(TestRows(df, draw, missing, init), a, l);
      StratumConcat(TrainRows(df, draw, missing, init), b, l);
      if l == m {
        StratumWhole(a, l);
        StratumWhole(b, l);
      } else {
        StratumNone(a, l);
        StratumNone(b, l);
      }
    }
  }

  /** The rows of each label form one contiguous block. */
  ghost predicate StratumMajor<Id, L>(rows: seq<Row<Id, L>>)
  {
    forall i, j, k :: 0 <= i < j < k < |rows| && rows[i].key == rows[k].key ==> rows[j].key == rows[i].key
  }

  lemma StratumMajorSnoc<Id, L>(a: seq<Row<Id, L>>, b: seq<Row<Id, L>>, l: L)
    requires StratumMajor(a)
    requires forall r :: r in a ==> r.key != l
    requires forall r :: r in b ==> r.key == l
    ensures StratumMajor(a + b)
  {
    var s := a + b;
    assert forall m :: 0 <= m < |a| ==> s[m] == a[m] && s[m].key != l;
    assert forall m :: |a| <= m < |s| ==> s[m] == b[m - |a|] && s[m].key == l;
  }

  /** Before any shuffle, test and train are each stratum-major. */
  lemma {:induction false} RowsStratumMajor<Id(!new), L(!new)>(df: seq<Row<Id, L>>, draw: (L, nat) -> seq<nat>, missing: L -> bool, ls: seq<L>)
    requires ValidDraw(draw) && Distinct(ls)
    ensures StratumMajor(TestRows(df, draw, missing, ls))
    ensures StratumMajor(TrainRows(df, draw, missing, ls))
  {
    if ls != [] {
      var init, l := ls[..|ls| - 1], ls[|ls| - 1];
      assert ls == init + [l];
      RowsStratumMajor(df, draw, missing, init);
      StratumMajorSnoc(TestRows(df, draw, missing, init), StratumTest(df, draw, missing, l), l);
      StratumMajorSnoc(TrainRows(df, draw, missing, init), StratumTrain(df, draw, missing, l), l);
    }
  }

  /**
   * Whatever the order of test and train, as long as they hold the rows of
   * the per-label shares: every row whose label is not missing is in exactly
   * one of them, once, no row with a missing label is in either, and no id
   * occurs twice.
   */
  lemma SplitCoverage<Id(!new), L(!new)>(df: seq<Row<Id, L>>, draw: (L, nat) -> seq<nat>, missing: L -> bool,
                                         train: seq<Row<Id, L>>, test: seq<Row<Id, L>>)
    requires UniqueIndex(df) && ValidDraw(draw)
    requires multiset(test) == multiset(TestRows(df, draw, missing, Labels(df)))
    requires multiset(train) == multiset(TrainRows(df, draw, missing, Labels(df)))
    ensures multiset(train) + multiset(test) == multiset(Present(df, missing))
    ensures forall r :: r in df && missing(r.key) ==> r !in train && r !in test
    ensures UniqueIndex(train + test)
  {
    var kept := Present(df, missing);
    assert multiset(train) + multiset(test) == multiset(kept) by {
      PartitionSoFar(df, draw, missing, Labels(df));
      WithinAll(df, missing, Labels(df));
    }
    UniqueOfPartition(train, test, kept);
    forall r | r in df && missing(r.key) ensures r !in train && r !in test {
      NotInPartition(train, test, kept, r);
    }
  }

  /**
   * Whatever the order of test and train, the rows of label `l` in each are
   * that label's shares: k(n) test rows and n - k(n) train rows out of the n
   * rows the label selects.
   */
  lemma LabelOutcome<Id(!new), L(!new)>(df: seq<Row<Id, L>>, draw: (L, nat) -> seq<nat>, k: nat -> nat, missing: L -> bool,
                                        train: seq<Row<Id, L>>, test: seq<Row<Id, L>>, l: L)
    requires UniqueIndex(df) && ValidDraw(draw) && SizeRule(draw, k)
    requires multiset(test) == multiset(TestRows(df, draw, missing, Labels(df)))
    requires multiset(train) == multiset(TrainRows(df, draw, missing, Labels(df)))
    ensures multiset(Stratum(test, l)) == multiset(StratumTest(df, draw, missing, l))
    ensures multiset(Stratum(train, l)) == multiset(StratumTrain(df, draw, missing, l))
    ensures |Stratum(test, l)| == k(|Matching(df, missing, l)|)
    ensures |Stratum(train, l)| == |Matching(df, missing, l)| - k(|Matching(df, missing, l)|)
  {
    var labels := Labels(df);
    assert |Stratum(test, l)| == |multiset(Stratum(test, l))|;
    assert |Stratum(train, l)| == |multiset(Stratum(train, l))|;
    StratumPermutation(test, TestRows(df, draw, missing, labels), l);
    StratumPermutation(train, TrainRows(df, draw, missing, labels), l);
    SharesOfLabel(df, draw, missing, labels, l);
    StratumShares(df, draw, missing, l);
    assert |Matching(df, missing, l)| == |multiset(Matching(df, missing, l))|;
    if l !in labels {
      AbsentLabel(df, l);
    }
  }

  /** `LabelOutcome` for every label at once. */
  lemma SplitShares<Id(!new), L(!new)>(df: seq<Row<Id, L>>, draw: (L, nat) -> seq<nat>, k: nat -> nat, missing: L -> bool,
                                       train: seq<Row<Id, L>>, test: seq<Row<Id, L>>)
    requires UniqueIndex(df) && ValidDraw(draw) && SizeRule(draw, k)
    requires multiset(test) == multiset(TestRows(df, draw, missing, Labels(df)))
    requires multiset(train) == multiset(TrainRows(df, draw, missing, Labels(df)))
    ensures forall l :: multiset(Stratum(test, l)) == multiset(StratumTest(df, draw, missing, l))
    ensures forall l :: multiset(Stratum(train, l)) == multiset(StratumTrain(df, draw, missing, l))
    ensures forall l :: |Stratum(test, l)| == k(|Matching(df, missing, l)|)
    ensures forall l :: |Stratum(train, l)| == |Matching(df, missing, l)| - k(|Matching(df, missing, l)|)
  {
    forall l
      ensures multiset(Stratum(test, l)) == multiset(StratumTest(df, draw, missing, l))
      ensures multiset(Stratum(train, l)) == multiset(StratumTrain(df, draw, missing, l))
      ensures |Stratum(test, l)| == k(|Matching(df, missing, l)|)
      ensures |Stratum(train, l)| == |Matching(df, missing, l)| - k(|Matching(df, missing, l)|)
    {
      LabelOutcome(df, draw, k, missing, train, test, l);
    }
  }

  // ---------------------------------------------------------------------------
  // The operation

  /**
   * One turn of the loop: processing label `ls[i]` appends the ids of its
   * test sample to the test index and `Index.drop` of them from its rows'
   * ids to the train index.
   */
  lemma NextLabel<Id(!new), L(!new)>(df: seq<Row<Id, L>>, draw: (L, nat) -> seq<nat>, missing: L -> bool, ls: seq<L>, i: nat)
    requires ValidDraw(draw) && i < |ls|
    ensures var cur := Matching(df, missing, ls[i]);
      var sample := Ids(Sample(cur, draw(ls[i], |cur|)));
      Ids(TestRows(df, draw, missing, ls[..i + 1])) == Ids(TestRows(df, draw, missing, ls[..i])) + sample &&
      Ids(TrainRows(df, draw, missing, ls[..i + 1])) == Ids(TrainRows(df, draw, missing, ls[..i])) + Drop(Ids(cur), sample)
  {
    var cur := Matching(df, missing, ls[i]);
    assert ls[..i + 1][..i] == ls[..i];
    IdsConcat(TestRows(df, draw, missing, ls[..i]), StratumTest(df, draw, missing, ls[i]));
    IdsConcat(TrainRows(df, draw, missing, ls[..i]), StratumTrain(df, draw, missing, ls[i]));
    IdsLeftover(cur, Ids(Sample(cur, draw(ls[i], |cur|))));
  }

  /** `sample(frac=1)` without a seed: some reordering of the rows. */
  method Shuffle<T(==)>(rows: seq<T>) returns (r: seq<T>)
    ensures multiset(r) == multiset(rows)
    ensures |r| == |rows|
  {
    r :| multiset(r) == multiset(rows);
    assert |r| == |multiset(r)|;
  }

  /**
   * `split_stratified(df, feature_by, test_frac, random_state, shuffle)`:
   * returns `(train, test)`.  `df` is a value and is left as it is.  `k` is
   * the size rule the sampler follows; only the proof uses it.
   */
  method Split<Id(==, !new), L(==, !new)>(df: seq<Row<Id, L>>, draw: (L, nat) -> seq<nat>, ghost k: nat -> nat,
                                          missing: L -> bool, shuffle: bool)
    returns (train: seq<Row<Id, L>>, test: seq<Row<Id, L>>)
    requires UniqueIndex(df)
    requires ValidDraw(draw) && SizeRule(draw, k)
    // unshuffled, both are the per-label shares concatenated in label order
    ensures !shuffle ==> test == TestRows(df, draw, missing, Labels(df))
    ensures !shuffle ==> train == TrainRows(df, draw, missing, Labels(df))
    // shuffling changes only the order
    ensures multiset(test) == multiset(TestRows(df, draw, missing, Labels(df)))
    ensures multiset(train) == multiset(TrainRows(df, draw, missing, Labels(df)))
    // unshuffled, the rows of each label form one block
    ensures !shuffle ==> StratumMajor(test) && StratumMajor(train)
    // every row whose label is not missing lands in exactly one of them, once;
    // a row whose label is missing lands in neither
    ensures multiset(train) + multiset(test) == multiset(Present(df, missing))
    ensures forall r :: r in df && missing(r.key) ==> r !in train && r !in test
    ensures UniqueIndex(train + test)
    // each label's rows in test (train) are that label's test (train) share
    ensures forall l :: multiset(Stratum(test, l)) == multiset(StratumTest(df, draw, missing, l))
    ensures forall l :: multiset(Stratum(train, l)) == multiset(StratumTrain(df, draw, missing, l))
    // one size rule for every label: k(n) test rows and n - k(n) train rows
    ensures forall l :: |Stratum(test, l)| == k(|Matching(df, missing, l)|)
    ensures forall l :: |Stratum(train, l)| == |Matching(df, missing, l)| - k(|Matching(df, missing, l)|)
  {
    var testIdx: seq<Id> := [];
    var trainIdx: seq<Id> := [];
    var labels := Labels(df);
    for i := 0 to |labels|
      invariant testIdx == Ids(TestRows(df, draw, missing, labels[..i]))
      invariant trainIdx == Ids(TrainRows(df, draw, missing, labels[..i]))
    {
      var cur := Matching(df, missing, labels[i]);
      var testSample := Ids(Sample(cur, draw(labels[i], |cur|)));
      testIdx := testIdx + testSample;
      trainIdx := trainIdx + Drop(Ids(cur), testSample);
      NextLabel(df, draw, missing, labels, i);
    }
    assert labels[..|labels|] == labels;

    ghost var testRows, trainRows := TestRows(df, draw, missing, labels), TrainRows(df, draw, missing, labels);
    LocIds(df, testRows);
    LocIds(df, trainRows);
    test := Loc(df, testIdx);
    train := Loc(df, trainIdx);
    if shuffle {
      test := Shuffle(test);
      train := Shuffle(train);
    }

    SplitCoverage(df, draw, missing, train, test);
    SplitShares(df, draw, k, missing, train, test);
    RowsStratumMajor(df, draw, missing, labels);
  }

  // ---------------------------------------------------------------------------
  // Missing labels

  /** `unique()` lists a missing label (NaN, here -1) like any other. */
  lemma MissingLabelListed()
    ensures Labels([Row(0, 1), Row(1, -1)]) == [1, -1]
  {
    var col := Column([Row(0, 1), Row(1, -1)]);
    assert col == [1, -1];
    assert col[..1] == [1] && col[..1][..0] == [];
    assert Unique(col[..1][..0]) == [];
    assert Unique(col[..1]) == [1];
    assert Unique(col) == [1, -1];
  }

  /**
   * A frame whose labels are integers, with -1 a missing value (NaN): index
   * [0, 1], labels [1, NaN].  `unique()` visits both labels, yet the row
   * labelled NaN reaches neither the test nor the train index, so together
   * they do not hold every row of the frame.
   */
  lemma MissingLabelLost(draw: (int, nat) -> seq<nat>, missing: int -> bool)
    requires ValidDraw(draw) && missing(-1) && !missing(1)
    ensures var df := [Row(0, 1), Row(1, -1)];
      var t, u := TestRows(df, draw, missing, Labels(df)), TrainRows(df, draw, missing, Labels(df));
      -1 in Labels(df) && Row(1, -1) in df && Row(1, -1) !in t && Row(1, -1) !in u &&
      multiset(t) + multiset(u) != multiset(df)
  {
    var df := [Row(0, 1), Row(1, -1)];
    MissingLabelListed();
    var t, u := TestRows(df, draw, missing, Labels(df)), TrainRows(df, draw, missing, Labels(df));
    assert Row(1, -1) !in t && Row(1, -1) !in u;
    assert multiset(df)[Row(1, -1)] == 1;
    assert (multiset(t) + multiset(u))[Row(1, -1)] == 0;
  }

  /**
   * The split as its docstring promises it: the label filter compares with
   * missing values treated as equal to themselves (`isna()` for a missing
   * label, `==` otherwise), and then every row of `df` lands in exactly one
   * of train and test.
   */
  method SplitKeepingMissing<Id(==, !new), L(==, !new)>(df: seq<Row<Id, L>>, draw: (L, nat) -> seq<nat>, ghost k: nat -> nat,
                                                        shuffle: bool)
    returns (train: seq<Row<Id, L>>, test: seq<Row<Id, L>>)
    requires UniqueIndex(df)
    requires ValidDraw(draw) && SizeRule(draw, k)
    ensures multiset(train) + multiset(test) == multiset(df)
    ensures UniqueIndex(train + test)
    ensures forall l :: |Stratum(test, l)| == k(|Stratum(df, l)|)
    ensures forall l :: |Stratum(train, l)| == |Stratum(df, l)| - k(|Stratum(df, l)|)
  {
    var matchesItself := (l: L) => false;
    train, test := Split(df, draw, k, matchesItself, shuffle);
    PresentAll(df, matchesItself);
  }
}
