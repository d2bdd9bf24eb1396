/** benchmarks/longmemeval_bench.py:421-425: normalised discounted cumulative gain with binary
    relevance. The discount is any positive, strictly decreasing one; the source's is
    1 / log2(i + 2). */
module Ndcg {
  import opened Arithmetic
  import opened Sequences

  type Id = string

  ghost predicate Discount(d: nat -> real) {
    && (forall i: nat :: d(i) > 0.0)
    && (forall i: nat, j: nat :: i < j ==> d(i) > d(j))
  }

  /** The discounts of the gold positions of a list. */
  function Dcg(d: nat -> real, ids: seq<Id>, gold: set<Id>): real {
    if ids == [] then 0.0
    else
      var last := |ids| - 1;
      Dcg(d, ids[..last], gold) + (if ids[last] in gold then d(last) else 0.0)
  }

  function Ideal(d: nat -> real, n: nat): real {
    if n == 0 then 0.0 else Ideal(d, n - 1) + d(n - 1)
  }

  function NdcgAt(d: nat -> real, retrieved: seq<Id>, gold: set<Id>, k: nat): real {
    var dcg := Dcg(d, retrieved[..Min(k, |retrieved|)], gold);
    var ideal := Ideal(d, Min(|gold|, k));
    if ideal > 0.0 then dcg / ideal else 0.0
  }

  function Hits(ids: seq<Id>, gold: set<Id>): nat {
    if ids == [] then 0
    else Hits(ids[..|ids| - 1], gold) + (if ids[|ids| - 1] in gold then 1 else 0)
  }

  lemma {:induction false} IdealGrows(d: nat -> real, m: nat, n: nat)
    requires Discount(d) && m <= n
    ensures 0.0 <= Ideal(d, m) <= Ideal(d, n)
    ensures m < n ==> Ideal(d, m) < Ideal(d, n)
    decreases n
  {
    if m < n {
      IdealGrows(d, m, n - 1);
    } else if n > 0 {
      IdealGrows(d, n - 1, n - 1);
    }
  }

  /** A list with h gold positions gains at most the h best discounts, and exactly those only
      when all its gold positions come first. */
  lemma {:induction false} GainAtMostIdeal(d: nat -> real, ids: seq<Id>, gold: set<Id>)
    requires Discount(d)
    ensures Hits(ids, gold) <= |ids|
    ensures 0.0 <= Dcg(d, ids, gold) <= Ideal(d, Hits(ids, gold))
    ensures Dcg(d, ids, gold) == Ideal(d, Hits(ids, gold)) <==> forall i :: 0 <= i < Hits(ids, gold) ==> ids[i] in gold
  {
    if ids != [] {
      var last := |ids| - 1;
      var init := ids[..last];
      GainAtMostIdeal(d, init, gold);
      var h := Hits(init, gold);
      assert forall i :: 0 <= i < h ==> init[i] == ids[i];
      if ids[last] in gold {
        GoldLast(d, ids, gold, h);
      }
    }
  }

  /** A gold id at the end gains less than the next best discount, unless all ids before it are
      gold. */
  lemma GoldLast(d: nat -> real, ids: seq<Id>, gold: set<Id>, h: nat)
    requires Discount(d) && ids != [] && h == Hits(ids[..|ids| - 1], gold) <= |ids| - 1
    ensures 0.0 < d(|ids| - 1) <= d(h) && (d(|ids| - 1) == d(h) <==> h == |ids| - 1)
    ensures h < |ids| - 1 ==> exists i :: 0 <= i < h + 1 && ids[i] !in gold
  {
    if h < |ids| - 1 && forall i :: 0 <= i < h + 1 ==> ids[i] in gold {
      AllGold(ids[..h + 1], gold);
      HitsPrefix(ids[..|ids| - 1], gold, h + 1);
      assert ids[..|ids| - 1][..h + 1] == ids[..h + 1];
    }
  }

  lemma {:induction false} AllGold(ids: seq<Id>, gold: set<Id>)
    requires forall i :: 0 <= i < |ids| ==> ids[i] in gold
    ensures Hits(ids, gold) == |ids|
  {
    if ids != [] {
      AllGold(ids[..|ids| - 1], gold);
    }
  }

  lemma {:induction false} HitsPrefix(ids: seq<Id>, gold: set<Id>, n: nat)
    requires n <= |ids|
    ensures Hits(ids[..n], gold) <= Hits(ids, gold)
    decreases |ids|
  {
    if n < |ids| {
      assert ids[..|ids| - 1][..n] == ids[..n];
      HitsPrefix(ids[..|ids| - 1], gold, n);
    } else {
      assert ids[..n] == ids;
    }
  }

  /** The gold ids of a list. */
  function Found(ids: seq<Id>, gold: set<Id>): (found: set<Id>)
    ensures forall x :: x in found ==> x in ids && x in gold
  {
    if ids == [] then {}
    else Found(ids[..|ids| - 1], gold) + (if ids[|ids| - 1] in gold then {ids[|ids| - 1]} else {})
  }

  lemma {:induction false} HitsAreFound(ids: seq<Id>, gold: set<Id>)
    requires Distinct(ids)
    ensures Hits(ids, gold) == |Found(ids, gold)|
  {
    if ids != [] {
      HitsAreFound(ids[..|ids| - 1], gold);
    }
  }

  /** Distinct ids hit each gold id at most once. */
  lemma HitsAtMostGold(ids: seq<Id>, gold: set<Id>)
    requires Distinct(ids)
    ensures Hits(ids, gold) <= |gold|
  {
    HitsAreFound(ids, gold);
    SubsetSize(Found(ids, gold), gold);
  }

  /** For duplicate-free lists NDCG@k lies in [0, 1]; with gold ids and k >= 1 it is 1 exactly
      when the first min(|gold|, k) retrieved ids exist and are all gold. */
  lemma NdcgLaws(d: nat -> real, retrieved: seq<Id>, gold: set<Id>, k: nat)
    requires Discount(d) && Distinct(retrieved)
    ensures 0.0 <= NdcgAt(d, retrieved, gold, k) <= 1.0
    ensures gold != {} && k >= 1 ==>
              var w := Min(|gold|, k);
              (NdcgAt(d, retrieved, gold, k) == 1.0 <==> |retrieved| >= w && forall i :: 0 <= i < w ==> retrieved[i] in gold)
  {
    var top, w := retrieved[..Min(k, |retrieved|)], Min(|gold|, k);
    GainLimits(d, top, gold, w);
    IdealGrows(d, 0, w);
    if w > 0 {
      FractionCompare(Dcg(d, top, gold), Ideal(d, w));
      assert |retrieved| >= w <==> |top| >= w;
      assert |top| >= w ==> forall i :: 0 <= i < w ==> top[i] == retrieved[i];
    }
  }

  lemma GainLimits(d: nat -> real, top: seq<Id>, gold: set<Id>, w: nat)
    requires Discount(d) && Distinct(top) && w <= |gold| && (w == |gold| || |top| <= w)
    ensures 0.0 <= Dcg(d, top, gold) <= Ideal(d, w)
    ensures Dcg(d, top, gold) == Ideal(d, w) <==> |top| >= w && forall i :: 0 <= i < w ==> top[i] in gold
  {
    GainAtMostIdeal(d, top, gold);
    HitsAtMostGold(top, gold);
    IdealGrows(d, Hits(top, gold), w);
    if |top| >= w && forall i :: 0 <= i < w ==> top[i] in gold {
      AllGold(top[..w], gold);
      HitsPrefix(top, gold, w);
    }
  }

  /** The bound is exactly about duplicates: NDCG@k is at most 1 for every gold set if and only
      if the first k retrieved ids are distinct. */
  lemma BoundedExactlyWhenDistinct(d: nat -> real, retrieved: seq<Id>, k: nat)
    requires Discount(d)
    ensures (forall gold :: NdcgAt(d, retrieved, gold, k) <= 1.0) <==> Distinct(retrieved[..Min(k, |retrieved|)])
  {
    var top := retrieved[..Min(k, |retrieved|)];
    if Distinct(top) {
      forall gold ensures NdcgAt(d, retrieved, gold, k) <= 1.0 {
        NdcgLaws(d, top, gold, k);
        assert top[..Min(k, |top|)] == top;
      }
    } else {
      var gold := set x | x in top;
      assert top != [];
      FewerIdsThanPlaces(top);
      AllGold(top, gold);
      GainAtMostIdeal(d, top, gold);
      IdealGrows(d, 0, |gold|);
      IdealGrows(d, |gold|, |top|);
      assert top[0] in gold;
      IdealGrows(d, 0, Min(|gold|, k));
      FractionCompare(Dcg(d, top, gold), Ideal(d, |gold|));
      assert NdcgAt(d, retrieved, gold, k) > 1.0;
    }
  }

  lemma {:induction false} FewerIdsThanPlaces(ids: seq<Id>)
    ensures |set x | x in ids| <= |ids|
    ensures !Distinct(ids) ==> |set x | x in ids| < |ids|
  {
    var all := set x | x in ids;
    if ids != [] {
      var init, last := ids[..|ids| - 1], ids[|ids| - 1];
      FewerIdsThanPlaces(init);
      assert ids == init + [last];
      var before := set x | x in init;
      assert all == before + {last};
      if last in init {
        assert all == before;
      } else {
        assert Distinct(init) ==> Distinct(ids);
      }
    }
  }

  // ---------------------------------------------------------------------------------------
  // Where the gold ids are matters, place by place.

  /** What the id at place `p` is worth. */
  function Worth(d: nat -> real, id: Id, p: nat, gold: set<Id>): real { if id in gold then d(p) else 0.0 }

  /** Replacing one id changes the gain by exactly the difference of their worths at its place. */
  lemma {:induction false} GainByPlace(d: nat -> real, ids: seq<Id>, gold: set<Id>, p: nat, id: Id)
    requires p < |ids|
    ensures Dcg(d, ids[p := id], gold) == Dcg(d, ids, gold) - Worth(d, ids[p], p, gold) + Worth(d, id, p, gold)
  {
    var last := |ids| - 1;
    if p == last {
      assert ids[p := id][..last] == ids[..last];
    } else {
      GainByPlace(d, ids[..last], gold, p, id);
      assert ids[p := id][..last] == ids[..last][p := id];
    }
  }

  lemma {:induction false} NoGain(d: nat -> real, ids: seq<Id>, gold: set<Id>)
    requires forall id :: id in ids ==> id !in gold
    ensures Dcg(d, ids, gold) == 0.0
  {
    if ids != [] {
      NoGain(d, ids[..|ids| - 1], gold);
    }
  }

  /** The ideal is the gain of as many gold ids as fit. */
  lemma {:induction false} IdealIsAllGold(d: nat -> real, ids: seq<Id>, gold: set<Id>)
    requires forall id :: id in ids ==> id in gold
    ensures Dcg(d, ids, gold) == Ideal(d, |ids|)
  {
    if ids != [] {
      IdealIsAllGold(d, ids[..|ids| - 1], gold);
    }
  }

  /** With gold ids and k >= 1, NDCG@k is the gain of the first k ids over the ideal one; without,
      it is 0. */
  lemma NdcgMeaning(d: nat -> real, retrieved: seq<Id>, gold: set<Id>, k: nat)
    requires Discount(d)
    ensures var top := retrieved[..if k <= |retrieved| then k else |retrieved|];
            if gold == {} || k == 0 then NdcgAt(d, retrieved, gold, k) == 0.0
            else NdcgAt(d, retrieved, gold, k) * Ideal(d, if |gold| <= k then |gold| else k) == Dcg(d, top, gold)
  {
    IdealGrows(d, 0, Min(|gold|, k));
  }

  lemma SwapGain(d: nat -> real, top: seq<Id>, gold: set<Id>, i: nat, j: nat)
    requires i < j < |top| && top[i] !in gold && top[j] in gold
    ensures Dcg(d, top[i := top[j]][j := top[i]], gold) == Dcg(d, top, gold) + d(i) - d(j)
  {
    GainByPlace(d, top, gold, i, top[j]);
    GainByPlace(d, top[i := top[j]], gold, j, top[i]);
  }

  /** Moving a gold id before one that is not raises NDCG@k, by the difference of the discounts. */
  lemma EarlierIsBetter(d: nat -> real, retrieved: seq<Id>, gold: set<Id>, k: nat, i: nat, j: nat)
    requires Discount(d) && i < j < |retrieved| && j < k && retrieved[i] !in gold && retrieved[j] in gold
    ensures var swapped := retrieved[i := retrieved[j]][j := retrieved[i]];
            && NdcgAt(d, swapped, gold, k) > NdcgAt(d, retrieved, gold, k)
            && (NdcgAt(d, swapped, gold, k) - NdcgAt(d, retrieved, gold, k)) * Ideal(d, Min(|gold|, k)) == d(i) - d(j)
  {
    var n := Min(k, |retrieved|);
    var top := retrieved[..n];
    var swapped := retrieved[i := retrieved[j]][j := retrieved[i]];
    assert swapped[..n] == top[i := top[j]][j := top[i]];
    SwapGain(d, top, gold, i, j);
    RaisedBy(d, retrieved, swapped, gold, k, d(i) - d(j));
  }

  lemma RaisedBy(d: nat -> real, ids: seq<Id>, other: seq<Id>, gold: set<Id>, k: nat, delta: real)
    requires Discount(d) && gold != {} && k > 0 && |ids| == |other| && delta > 0.0
    requires Dcg(d, other[..Min(k, |ids|)], gold) == Dcg(d, ids[..Min(k, |ids|)], gold) + delta
    ensures NdcgAt(d, other, gold, k) > NdcgAt(d, ids, gold, k)
    ensures (NdcgAt(d, other, gold, k) - NdcgAt(d, ids, gold, k)) * Ideal(d, Min(|gold|, k)) == delta
  {
    NdcgMeaning(d, ids, gold, k);
    NdcgMeaning(d, other, gold, k);
    IdealGrows(d, 0, Min(|gold|, k));
    Above(NdcgAt(d, other, gold, k), NdcgAt(d, ids, gold, k), Ideal(d, Min(|gold|, k)),
          Dcg(d, other[..Min(k, |ids|)], gold), Dcg(d, ids[..Min(k, |ids|)], gold));
  }

  lemma Above(x: real, y: real, m: real, a: real, b: real)
    requires m > 0.0 && x * m == a && y * m == b && a > b
    ensures x > y && (x - y) * m == a - b
  {
    if x <= y {
      MulOrder(x, y, m);
    }
  }
}
