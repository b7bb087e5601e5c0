/**
 * Finite-sequence building blocks shared by the graph builder and the
 * statistics aggregator: order-preserving deduplication and an ordered
 * counter (Python's Counter, whose keys keep their insertion order).
 */
module Seqs {

  /** Concatenation is associative. */
  lemma AppendAssoc<T>(a: seq<T>, b: seq<T>, c: seq<T>)
    ensures a + (b + c) == (a + b) + c
  {
  }

  predicate NoDuplicates<T(==)>(xs: seq<T>) {
    forall i, j :: 0 <= i < j < |xs| ==> xs[i] != xs[j]
  }

  /** The position of the first occurrence of `x`. */
  function FirstIndex<T(==)>(xs: seq<T>, x: T): (i: nat)
    requires x in xs
    ensures i < |xs| && xs[i] == x
    ensures forall j :: 0 <= j < i ==> xs[j] != x
  {
    if xs[0] == x then 0 else 1 + FirstIndex(xs[1..], x)
  }

  /** The number of occurrences of `x`. */
  function Occ<T(==)>(xs: seq<T>, x: T): (n: nat)
    ensures n <= |xs|
    ensures n == 0 <==> x !in xs
  {
    if xs == [] then 0 else Occ(xs[..|xs| - 1], x) + (if xs[|xs| - 1] == x then 1 else 0)
  }

  /** The elements of `xs` in first-occurrence order, each once. */
  function Dedup<T(==,!new)>(xs: seq<T>): (r: seq<T>)
    ensures NoDuplicates(r)
    ensures forall x :: x in r <==> x in xs
    ensures |r| <= |xs|
  {
    if xs == [] then []
    else
      var rest := Dedup(xs[..|xs| - 1]);
      var last := xs[|xs| - 1];
      assert forall x :: x in xs <==> x in xs[..|xs| - 1] || x == last;
      if last in rest then rest else rest + [last]
  }

  /** Appending an element to the input appends it to the result unless already there. */
  lemma DedupStep<T(!new)>(xs: seq<T>, x: T)
    ensures Dedup(xs + [x]) == if x in Dedup(xs) then Dedup(xs) else Dedup(xs) + [x]
  {
    var ys := xs + [x];
    assert ys[..|ys| - 1] == xs && ys[|ys| - 1] == x;
  }

  /** Dedup keeps first-occurrence order: earlier in the result means first seen earlier. */
  lemma {:induction false} DedupOrder<T(!new)>(xs: seq<T>)
    ensures forall i, j :: 0 <= i < j < |Dedup(xs)| ==> FirstIndex(xs, Dedup(xs)[i]) < FirstIndex(xs, Dedup(xs)[j])
  {
    if xs != [] {
      var init := xs[..|xs| - 1];
      var last := xs[|xs| - 1];
      assert xs == init + [last];
      DedupOrder(init);
      DedupOrderStep(init, last);
    }
  }

  /** The inductive step of DedupOrder: appending one element to the input. */
  lemma DedupOrderStep<T(!new)>(init: seq<T>, last: T)
    requires forall i, j :: 0 <= i < j < |Dedup(init)| ==> FirstIndex(init, Dedup(init)[i]) < FirstIndex(init, Dedup(init)[j])
    ensures forall i, j :: 0 <= i < j < |Dedup(init + [last])| ==>
      FirstIndex(init + [last], Dedup(init + [last])[i]) < FirstIndex(init + [last], Dedup(init + [last])[j])
  {
    var xs := init + [last];
    assert xs[..|xs| - 1] == init;
    var rest := Dedup(init);
    var r := Dedup(xs);
    assert r == if last in rest then rest else rest + [last];
    forall i | 0 <= i < |rest| ensures FirstIndex(xs, rest[i]) == FirstIndex(init, rest[i]) {
      FirstIndexOfPrefix(init, last, rest[i]);
    }
    if last !in rest {
      FirstIndexOfLast(init, last);
    }
    forall i, j | 0 <= i < j < |r| ensures FirstIndex(xs, r[i]) < FirstIndex(xs, r[j]) {
      assert r[i] == rest[i];
      assert FirstIndex(xs, r[i]) == FirstIndex(init, rest[i]);
      if j < |rest| {
        assert r[j] == rest[j];
        assert FirstIndex(xs, r[j]) == FirstIndex(init, rest[j]);
        assert FirstIndex(init, rest[i]) < FirstIndex(init, rest[j]);
      } else {
        assert last !in rest && r[j] == last;
        assert FirstIndex(xs, r[j]) == |init|;
        assert FirstIndex(init, rest[i]) < |init|;
      }
    }
  }

  /** Appending an element does not move the first occurrences of the others. */
  lemma {:induction false} FirstIndexOfPrefix<T>(init: seq<T>, last: T, x: T)
    requires x in init
    ensures FirstIndex(init + [last], x) == FirstIndex(init, x)
  {
    if init[0] != x {
      assert (init + [last])[1..] == init[1..] + [last];
      FirstIndexOfPrefix(init[1..], last, x);
    }
  }

  /** A new element appended at the end is first seen there. */
  lemma {:induction false} FirstIndexOfLast<T>(init: seq<T>, last: T)
    requires last !in init
    ensures FirstIndex(init + [last], last) == |init|
  {
    if init != [] {
      assert (init + [last])[1..] == init[1..] + [last];
      FirstIndexOfLast(init[1..], last);
    }
  }

  /** A duplicate-free sequence has as many distinct elements as positions. */
  lemma {:induction false} DistinctCardinality<T>(xs: seq<T>)
    requires NoDuplicates(xs)
    ensures |set x | x in xs| == |xs|
  {
    if xs != [] {
      var init := xs[..|xs| - 1];
      var last := xs[|xs| - 1];
      DistinctCardinality(init);
      assert (set x | x in xs) == (set x | x in init) + {last};
      assert last !in init;
    }
  }

  // ---------------------------------------------------------------------
  // An ordered counter
  // ---------------------------------------------------------------------

  /** Python's Counter: (key, count) entries in first-insertion order. */
  type Tally<K> = seq<(K, nat)>

  /** The keys of a sequence of (key, value) entries, in their order. */
  function Keys<K, V>(t: seq<(K, V)>): (ks: seq<K>)
    ensures |ks| == |t|
    ensures forall i :: 0 <= i < |t| ==> ks[i] == t[i].0
  {
    if t == [] then [] else [t[0].0] + Keys(t[1..])
  }

  /** A well-formed counter: each key once, every count positive. */
  predicate WellFormed<K(==)>(t: Tally<K>) {
    NoDuplicates(Keys(t)) && forall i :: 0 <= i < |t| ==> t[i].1 >= 1
  }

  /** `counter[k]`: the count of `k`, 0 when absent. */
  function Count<K(==)>(t: Tally<K>, k: K): nat {
    if t == [] then 0
    else if t[0].0 == k then t[0].1
    else Count(t[1..], k)
  }

  /** `counter[k] += 1`: an existing entry grows, a new key is appended with count 1. */
  function Bump<K(==)>(t: Tally<K>, k: K): (r: Tally<K>)
    ensures |r| == |t| + (if k in Keys(t) then 0 else 1)
  {
    if t == [] then [(k, 1)]
    else if t[0].0 == k then [(k, t[0].1 + 1)] + t[1..]
    else [t[0]] + Bump(t[1..], k)
  }

  /** The sum of the counts. */
  function Total<K>(t: Tally<K>): nat {
    if t == [] then 0 else t[0].1 + Total(t[1..])
  }

  /** Bumping adds one to exactly the bumped key's count. */
  lemma {:induction false} CountBump<K>(t: Tally<K>, k: K, k': K)
    ensures Count(Bump(t, k), k') == Count(t, k') + (if k == k' then 1 else 0)
  {
    if t != [] && t[0].0 != k {
      CountBump(t[1..], k, k');
    }
  }

  /** Bumping keeps the key order and appends a key seen for the first time. */
  lemma {:induction false} KeysBump<K>(t: Tally<K>, k: K)
    ensures Keys(Bump(t, k)) == Keys(t) + (if k in Keys(t) then [] else [k])
  {
    if t != [] && t[0].0 != k {
      KeysBump(t[1..], k);
      var b := Bump(t, k);
      assert b[1..] == Bump(t[1..], k);
    } else if t != [] {
      var b := Bump(t, k);
      assert b[1..] == t[1..];
    }
  }

  /** Bumping adds one to the total. */
  lemma {:induction false} TotalBump<K>(t: Tally<K>, k: K)
    ensures Total(Bump(t, k)) == Total(t) + 1
  {
    if t != [] && t[0].0 != k {
      TotalBump(t[1..], k);
    }
  }

  /** Bumping keeps every count positive. */
  lemma {:induction false} BumpPositive<K>(t: Tally<K>, k: K)
    requires forall i :: 0 <= i < |t| ==> t[i].1 >= 1
    ensures forall i :: 0 <= i < |Bump(t, k)| ==> Bump(t, k)[i].1 >= 1
  {
    if t != [] && t[0].0 != k {
      BumpPositive(t[1..], k);
      var b := Bump(t, k);
      var tail := Bump(t[1..], k);
      assert b == [t[0]] + tail;
      forall i | 0 <= i < |b| ensures b[i].1 >= 1 {
        if i > 0 {
          assert b[i] == tail[i - 1];
        }
      }
    }
  }

  /** The counter of a sequence: one Bump per element, in order. */
  function TallyOf<K(==)>(xs: seq<K>): Tally<K> {
    if xs == [] then [] else Bump(TallyOf(xs[..|xs| - 1]), xs[|xs| - 1])
  }

  /**
   * The counter of a sequence: its keys are the distinct elements in
   * first-occurrence order, each count is the number of occurrences, every
   * count is positive and the counts add up to the length.
   */
  lemma {:induction false} TallyOfSpec<K(!new)>(xs: seq<K>)
    ensures Keys(TallyOf(xs)) == Dedup(xs)
    ensures WellFormed(TallyOf(xs))
    ensures forall k :: Count(TallyOf(xs), k) == Occ(xs, k)
    ensures Total(TallyOf(xs)) == |xs|
  {
    if xs != [] {
      var init := xs[..|xs| - 1];
      var last := xs[|xs| - 1];
      TallyOfSpec(init);
      KeysBump(TallyOf(init), last);
      BumpPositive(TallyOf(init), last);
      TotalBump(TallyOf(init), last);
      forall k ensures Count(TallyOf(xs), k) == Occ(xs, k) {
        CountBump(TallyOf(init), last, k);
      }
    }
  }

  /**
   * `most_common(1)[0][0]`: the first key whose count is maximal (Python
   * keeps the earliest of equal counts).
   */
  function MostCommon<K>(t: Tally<K>): (k: K)
    requires t != []
    ensures exists i :: (0 <= i < |t| && t[i].0 == k &&
      (forall j :: 0 <= j < |t| ==> t[j].1 <= t[i].1) &&
      (forall j :: 0 <= j < i ==> t[j].1 < t[i].1))
  {
    var i := ArgMax(t);
    t[i].0
  }

  /** The index of the first maximal count. */
  function ArgMax<K>(t: Tally<K>): (i: nat)
    requires t != []
    ensures i < |t|
    ensures forall j :: 0 <= j < |t| ==> t[j].1 <= t[i].1
    ensures forall j :: 0 <= j < i ==> t[j].1 < t[i].1
  {
    if |t| == 1 then 0
    else
      var m := ArgMax(t[..|t| - 1]);
      if t[|t| - 1].1 > t[m].1 then |t| - 1 else m
  }

  /** In a counter whose keys are distinct, an entry's count is the key's count. */
  lemma {:induction false} CountAt<K>(t: Tally<K>, i: nat)
    requires NoDuplicates(Keys(t)) && i < |t|
    ensures Count(t, t[i].0) == t[i].1
  {
    if i > 0 {
      assert Keys(t)[0] != Keys(t)[i];
      assert Keys(t[1..]) == Keys(t)[1..];
      CountAt(t[1..], i - 1);
    }
  }

  /** Each entry of a sequence's counter holds the key's number of occurrences. */
  lemma TallyEntryOcc<K(!new)>(xs: seq<K>, j: nat)
    requires j < |TallyOf(xs)|
    ensures TallyOf(xs)[j].0 in xs
    ensures Occ(xs, TallyOf(xs)[j].0) == TallyOf(xs)[j].1
  {
    TallyOfSpec(xs);
    CountAt(TallyOf(xs), j);
    assert Keys(TallyOf(xs))[j] == TallyOf(xs)[j].0;
  }

  /** Every element of a sequence has an entry in its counter. */
  lemma TallyEntryOf<K(!new)>(xs: seq<K>, x: K) returns (j: nat)
    requires x in xs
    ensures j < |TallyOf(xs)| && TallyOf(xs)[j].0 == x
  {
    TallyOfSpec(xs);
    assert x in Keys(TallyOf(xs));
    j :| 0 <= j < |TallyOf(xs)| && Keys(TallyOf(xs))[j] == x;
  }

  /** A counter's entries come in first-occurrence order. */
  lemma TallyEntryOrder<K(!new)>(xs: seq<K>, i: nat, j: nat)
    requires i < j < |TallyOf(xs)|
    ensures TallyOf(xs)[i].0 in xs && TallyOf(xs)[j].0 in xs
    ensures FirstIndex(xs, TallyOf(xs)[i].0) < FirstIndex(xs, TallyOf(xs)[j].0)
  {
    TallyOfSpec(xs);
    DedupOrder(xs);
    assert Keys(TallyOf(xs))[i] == TallyOf(xs)[i].0 && Keys(TallyOf(xs))[j] == TallyOf(xs)[j].0;
  }

  /**
   * `Counter(xs).most_common(1)[0][0]` is an element of maximal
   * multiplicity, and every element seen before it occurs strictly fewer
   * times.
   */
  lemma MostCommonOfTally<K(!new)>(xs: seq<K>)
    requires xs != []
    ensures TallyOf(xs) != []
    ensures MostCommon(TallyOf(xs)) in xs
    ensures forall x :: x in xs ==> Occ(xs, x) <= Occ(xs, MostCommon(TallyOf(xs)))
    ensures forall x :: x in xs && FirstIndex(xs, x) < FirstIndex(xs, MostCommon(TallyOf(xs))) ==>
      Occ(xs, x) < Occ(xs, MostCommon(TallyOf(xs)))
  {
    var t := TallyOf(xs);
    var j0 := TallyEntryOf(xs, xs[0]);
    var i := ArgMax(t);
    var r := t[i].0;
    assert MostCommon(t) == r;
    TallyEntryOcc(xs, i);
    forall x | x in xs
      ensures Occ(xs, x) <= Occ(xs, r)
      ensures FirstIndex(xs, x) < FirstIndex(xs, r) ==> Occ(xs, x) < Occ(xs, r)
    {
      ArgMaxBeats(xs, i, x);
    }
  }

  /** The first maximal entry of a counter beats every element, and strictly beats those seen before it. */
  lemma ArgMaxBeats<K(!new)>(xs: seq<K>, i: nat, x: K)
    requires i < |TallyOf(xs)| && x in xs
    requires forall j :: 0 <= j < |TallyOf(xs)| ==> TallyOf(xs)[j].1 <= TallyOf(xs)[i].1
    requires forall j :: 0 <= j < i ==> TallyOf(xs)[j].1 < TallyOf(xs)[i].1
    ensures TallyOf(xs)[i].0 in xs
    ensures Occ(xs, x) <= Occ(xs, TallyOf(xs)[i].0)
    ensures FirstIndex(xs, x) < FirstIndex(xs, TallyOf(xs)[i].0) ==> Occ(xs, x) < Occ(xs, TallyOf(xs)[i].0)
  {
    var t := TallyOf(xs);
    var r := t[i].0;
    TallyEntryOcc(xs, i);
    var j := TallyEntryOf(xs, x);
    TallyEntryOcc(xs, j);
    if FirstIndex(xs, x) < FirstIndex(xs, r) && j >= i {
      if j > i {
        TallyEntryOrder(xs, i, j);
      }
      assert false;
    }
  }

}
