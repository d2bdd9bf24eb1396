/** benchmarks/vector_index_eval.py:77-88: the two-stage search (Hamming prefilter with tie
    handling, then exact rescoring) against the exhaustive one. */
module VectorIndex {
  import opened Arithmetic
  import opened Sequences
  import opened SignBits

  // ---------------------------------------------------------------------------------------
  // Stable ordering. numpy's stable argsort and partition are given by what they return.

  /** Index `j` comes before `i` in the stable ascending order of `keys`. */
  predicate Before(keys: seq<real>, j: nat, i: nat)
    requires j < |keys| && i < |keys|
  {
    keys[j] < keys[i] || (keys[j] == keys[i] && j < i)
  }

  ghost predicate Within(o: seq<nat>, n: nat) {
    forall a :: 0 <= a < |o| ==> o[a] < n
  }

  ghost predicate Sorted(keys: seq<real>, o: seq<nat>) {
    Within(o, |keys|) && forall a, b :: 0 <= a < b < |o| ==> Before(keys, o[a], o[b])
  }

  function Elements(o: seq<nat>): set<nat> { set x | x in o }

  function All(n: nat): (s: set<nat>)
    ensures forall i: nat :: i in s <==> i < n
  {
    if n == 0 then {} else All(n - 1) + {n - 1}
  }

  function Insert(keys: seq<real>, o: seq<nat>, i: nat): seq<nat>
    requires i < |keys| && Within(o, |keys|)
  {
    if o == [] || keys[o[|o| - 1]] <= keys[i] then o + [i]
    else
      var last := |o| - 1;
      Insert(keys, o[..last], i) + [o[last]]
  }

  function Argsort(keys: seq<real>, n: nat): (o: seq<nat>)
    requires n <= |keys|
    ensures |o| == n && Within(o, n)
  {
    if n == 0 then []
    else
      InsertMembers(keys, Argsort(keys, n - 1), n - 1, n);
      Insert(keys, Argsort(keys, n - 1), n - 1)
  }

  lemma {:induction false} InsertMembers(keys: seq<real>, o: seq<nat>, i: nat, n: nat)
    requires i < n <= |keys| && Within(o, n)
    ensures |Insert(keys, o, i)| == |o| + 1 && Within(Insert(keys, o, i), n)
    ensures Elements(Insert(keys, o, i)) == Elements(o) + {i}
  {
    if o != [] && !(keys[o[|o| - 1]] <= keys[i]) {
      InsertMembers(keys, o[..|o| - 1], i, n);
      assert o == o[..|o| - 1] + [o[|o| - 1]];
      assert Elements(o) == Elements(o[..|o| - 1]) + {o[|o| - 1]};
      assert Elements(Insert(keys, o, i)) == Elements(Insert(keys, o[..|o| - 1], i)) + {o[|o| - 1]};
    }
  }

  lemma {:induction false} InsertSorted(keys: seq<real>, o: seq<nat>, i: nat)
    requires i < |keys| && Sorted(keys, o) && Within(o, i)
    ensures Sorted(keys, Insert(keys, o, i))
  {
    InsertMembers(keys, o, i, |keys|);
    if o != [] && !(keys[o[|o| - 1]] <= keys[i]) {
      var init, last := o[..|o| - 1], o[|o| - 1];
      InsertSorted(keys, init, i);
      InsertMembers(keys, init, i, |keys|);
      var t := Insert(keys, init, i);
      forall a | 0 <= a < |t| ensures Before(keys, t[a], last) {
        assert t[a] in Elements(t);
        if t[a] != i {
          var b :| 0 <= b < |init| && init[b] == t[a];
          assert o[b] == t[a];
        }
      }
    }
  }

  lemma {:induction false} ArgsortMembers(keys: seq<real>, n: nat)
    requires n <= |keys|
    ensures Elements(Argsort(keys, n)) == All(n)
  {
    if n > 0 {
      ArgsortMembers(keys, n - 1);
      InsertMembers(keys, Argsort(keys, n - 1), n - 1, n);
    }
  }

  lemma {:induction false} ArgsortOrder(keys: seq<real>, n: nat)
    requires n <= |keys|
    ensures Sorted(keys, Argsort(keys, n))
  {
    if n > 0 {
      ArgsortOrder(keys, n - 1);
      InsertSorted(keys, Argsort(keys, n - 1), n - 1);
    }
  }

  lemma ArgsortSorted(keys: seq<real>, n: nat)
    requires n <= |keys|
    ensures Sorted(keys, Argsort(keys, n))
    ensures Elements(Argsort(keys, n)) == All(n)
  {
    ArgsortOrder(keys, n);
    ArgsortMembers(keys, n);
  }

  /** The members of `s` that come before `i`. */
  ghost function Ahead(keys: seq<real>, s: set<nat>, i: nat): set<nat>
    requires i < |keys|
  {
    set j | j in s && j < |keys| && Before(keys, j, i)
  }

  /** In a sorted list each element is preceded by as many members as its position says. */
  lemma RankIsPosition(keys: seq<real>, o: seq<nat>, r: nat)
    requires Sorted(keys, o) && r < |o|
    ensures |Ahead(keys, Elements(o), o[r])| == r
  {
    forall j | j in Ahead(keys, Elements(o), o[r]) ensures j in Elements(o[..r]) {
      var a :| 0 <= a < |o| && o[a] == j;
      assert o[a] in o[..r];
    }
    forall j | j in Elements(o[..r]) ensures j in Ahead(keys, Elements(o), o[r]) {
      var a :| 0 <= a < r && o[a] == j;
    }
    assert Ahead(keys, Elements(o), o[r]) == Elements(o[..r]);
    DistinctSize(o[..r]);
  }

  /** Being among the first `k` of a sorted list is having fewer than `k` members ahead. */
  lemma FirstByRank(keys: seq<real>, o: seq<nat>, k: nat, i: nat)
    requires Sorted(keys, o) && k <= |o| && i in o
    ensures i in o[..k] <==> |Ahead(keys, Elements(o), i)| < k
  {
    var r :| 0 <= r < |o| && o[r] == i;
    RankIsPosition(keys, o, r);
    if i in o[..k] {
      var a :| 0 <= a < k && o[..k][a] == i;
      RankIsPosition(keys, o, a);
    }
    if r < k {
      assert o[..k][r] == i;
    }
  }

  /** A sorted list is determined by its members. */
  lemma {:induction false} SortedByMembers(keys: seq<real>, o: seq<nat>, p: seq<nat>)
    requires Sorted(keys, o) && Sorted(keys, p) && Elements(o) == Elements(p)
    ensures o == p
  {
    DistinctSize(o);
    DistinctSize(p);
    forall r | 0 <= r < |o| ensures o[r] == p[r] {
      RankIsPosition(keys, o, r);
      assert o[r] in Elements(p);
      var a :| 0 <= a < |p| && p[a] == o[r];
      RankIsPosition(keys, p, a);
    }
  }

  // ---------------------------------------------------------------------------------------
  // The prefilter.

  /** A slice from the start, as Python takes it for a non-negative bound. */
  function Take(s: seq<nat>, k: int): seq<nat> {
    if k <= 0 then [] else if k < |s| then s[..k] else s
  }

  function Positions(flags: seq<bool>): seq<nat> {
    if flags == [] then []
    else
      var last := |flags| - 1;
      Positions(flags[..last]) + (if flags[last] then [last] else [])
  }

  ghost predicate Ascending(o: seq<nat>) {
    forall a, b :: 0 <= a < b < |o| ==> o[a] < o[b]
  }

  lemma {:induction false} PositionsMeaning(flags: seq<bool>)
    ensures var o := Positions(flags);
            && Ascending(o) && Within(o, |flags|)
            && (forall i: nat :: i in o <==> i < |flags| && flags[i])
  {
    if flags != [] {
      var last := |flags| - 1;
      PositionsMeaning(flags[..last]);
    }
  }

  function InsertAscending(o: seq<nat>, x: nat): seq<nat> {
    if o == [] || o[|o| - 1] <= x then o + [x]
    else InsertAscending(o[..|o| - 1], x) + [o[|o| - 1]]
  }

  /** The in-place sort of the selected indices. */
  function SortAscending(s: seq<nat>): seq<nat> {
    if s == [] then [] else InsertAscending(SortAscending(s[..|s| - 1]), s[|s| - 1])
  }

  lemma {:induction false} InsertAscendingMembers(o: seq<nat>, x: nat)
    ensures Elements(InsertAscending(o, x)) == Elements(o) + {x}
  {
    if o != [] && !(o[|o| - 1] <= x) {
      var init, last := o[..|o| - 1], o[|o| - 1];
      InsertAscendingMembers(init, x);
      ElementsAppend(init, last);
      ElementsAppend(InsertAscending(init, x), last);
      assert o == init + [last];
    } else {
      ElementsAppend(o, x);
    }
  }

  lemma ElementsAppend(o: seq<nat>, x: nat)
    ensures Elements(o + [x]) == Elements(o) + {x}
  {
  }

  lemma {:induction false} InsertAscendingMeaning(o: seq<nat>, x: nat)
    requires Ascending(o) && x !in o
    ensures Ascending(InsertAscending(o, x))
  {
    if o != [] {
      var init, last := o[..|o| - 1], o[|o| - 1];
      if last > x {
        InsertAscendingMeaning(init, x);
        InsertAscendingMembers(init, x);
        AllBelow(InsertAscending(init, x), init, x, last);
      }
    }
  }

  lemma AllBelow(t: seq<nat>, init: seq<nat>, x: nat, last: nat)
    requires Elements(t) == Elements(init) + {x} && x < last && forall a :: 0 <= a < |init| ==> init[a] < last
    ensures forall a :: 0 <= a < |t| ==> t[a] < last
  {
    forall a | 0 <= a < |t| ensures t[a] < last {
      assert t[a] in Elements(t);
      assert t[a] == x || t[a] in init;
    }
  }

  lemma {:induction false} SortAscendingMeaning(s: seq<nat>)
    requires forall a, b :: 0 <= a < b < |s| ==> s[a] != s[b]
    ensures Ascending(SortAscending(s)) && Elements(SortAscending(s)) == Elements(s)
  {
    if s != [] {
      var init, last := s[..|s| - 1], s[|s| - 1];
      SortAscendingMeaning(init);
      assert last !in init;
      assert s == init + [last];
      assert last !in Elements(SortAscending(init));
      InsertAscendingMeaning(SortAscending(init), last);
      InsertAscendingMembers(SortAscending(init), last);
      ElementsAppend(init, last);
    }
  }

  /** The value at position `count - 1` of the sorted distances. */
  function Boundary(distances: seq<real>, count: nat): real
    requires 0 < count <= |distances|
  {
    distances[Argsort(distances, |distances|)[count - 1]]
  }

  function Below(distances: seq<real>, bound: real): seq<nat> {
    Positions(seq(|distances|, i requires 0 <= i < |distances| => distances[i] < bound))
  }

  function At(distances: seq<real>, bound: real): seq<nat> {
    Positions(seq(|distances|, i requires 0 <= i < |distances| => distances[i] == bound))
  }

  /** All indices strictly below the boundary distance, filled up with the first ties. */
  function Chosen(distances: seq<real>, count: nat): seq<nat>
    requires 0 < count <= |distances|
  {
    var bound := Boundary(distances, count);
    var below := Below(distances, bound);
    below + Take(At(distances, bound), count - |below|)
  }

  function Selected(distances: seq<real>, candidates: nat): seq<nat>
    requires distances != [] && candidates > 0
  {
    SortAscending(Chosen(distances, Min(candidates, |distances|)))
  }

  lemma AtSorted(distances: seq<real>, bound: real)
    ensures var ties := At(distances, bound);
            && Sorted(distances, ties)
            && (forall i: nat :: i in ties <==> i < |distances| && distances[i] == bound)
  {
    PositionsMeaning(seq(|distances|, i requires 0 <= i < |distances| => distances[i] == bound));
    var ties := At(distances, bound);
    forall a, b | 0 <= a < b < |ties| ensures Before(distances, ties[a], ties[b]) {
      assert ties[a] in ties && ties[b] in ties;
    }
  }

  lemma BelowMeaning(distances: seq<real>, bound: real)
    ensures var below := Below(distances, bound);
            && Ascending(below)
            && (forall i: nat :: i in below <==> i < |distances| && distances[i] < bound)
  {
    PositionsMeaning(seq(|distances|, i requires 0 <= i < |distances| => distances[i] < bound));
  }

  /** Fewer indices come before one with a smaller distance, more before one with a larger. */
  lemma RankOrder(distances: seq<real>, at: nat, i: nat)
    requires at < |distances| && i < |distances|
    ensures var here, there := |Ahead(distances, All(|distances|), i)|, |Ahead(distances, All(|distances|), at)|;
            && (distances[i] < distances[at] ==> here <= there)
            && (distances[i] > distances[at] ==> here > there)
  {
    var ahead, aheadOfAt := Ahead(distances, All(|distances|), i), Ahead(distances, All(|distances|), at);
    if distances[i] < distances[at] {
      SubsetSize(ahead, aheadOfAt);
    } else if distances[i] > distances[at] {
      assert at !in aheadOfAt && at in ahead;
      SubsetSize(aheadOfAt, ahead - {at});
    }
  }

  lemma RankTied(distances: seq<real>, bound: real, i: nat)
    requires i < |distances| && distances[i] == bound
    ensures |Ahead(distances, All(|distances|), i)| ==
            |Below(distances, bound)| + |Ahead(distances, Elements(At(distances, bound)), i)|
  {
    var below, ties := Below(distances, bound), At(distances, bound);
    BelowMeaning(distances, bound);
    AtSorted(distances, bound);
    DistinctSize(below);
    var tied := Ahead(distances, Elements(ties), i);
    assert Ahead(distances, All(|distances|), i) == Elements(below) + tied && Elements(below) !! tied;
  }

  /** The prefilter selects exactly the first min(candidates, n) indices of the stable order by
      (distance, index), in ascending index order. */
  lemma {:induction false} SelectedExactly(distances: seq<real>, candidates: nat)
    requires distances != [] && candidates > 0
    ensures var chosen := Selected(distances, candidates);
            && Ascending(chosen)
            && Elements(chosen) == Elements(Argsort(distances, |distances|)[..Min(candidates, |distances|)])
  {
    var count := Min(candidates, |distances|);
    ChosenDistinct(distances, count);
    SortAscendingMeaning(Chosen(distances, count));
    ChosenSet(distances, count);
  }

  lemma {:induction false} ChosenSet(distances: seq<real>, count: nat)
    requires 0 < count <= |distances|
    ensures Elements(Chosen(distances, count)) == Elements(Argsort(distances, |distances|)[..count])
  {
    var n := |distances|;
    var chosen, first := Elements(Chosen(distances, count)), Elements(Argsort(distances, n)[..count]);
    ChosenInRange(distances, count);
    forall i | i in chosen ensures i in first {
      ChosenByRank(distances, count, i);
    }
    forall i | i in first ensures i in chosen {
      ChosenByRank(distances, count, i);
    }
  }

  lemma {:induction false} ChosenInRange(distances: seq<real>, count: nat)
    requires 0 < count <= |distances|
    ensures forall i :: i in Elements(Chosen(distances, count)) ==> i < |distances|
    ensures forall i :: i in Elements(Argsort(distances, |distances|)[..count]) ==> i < |distances|
  {
    var bound := Boundary(distances, count);
    BelowMeaning(distances, bound);
    AtSorted(distances, bound);
    TakeMembers(At(distances, bound), count - |Below(distances, bound)|);
  }

  lemma ChosenByRank(distances: seq<real>, count: nat, i: nat)
    requires 0 < count <= |distances| && i < |distances|
    ensures i in Elements(Chosen(distances, count)) <==> i in Elements(Argsort(distances, |distances|)[..count])
  {
    var o := Argsort(distances, |distances|);
    ArgsortSorted(distances, |distances|);
    ChosenByOrder(distances, o, count, i);
  }

  lemma ChosenByOrder(distances: seq<real>, o: seq<nat>, count: nat, i: nat)
    requires i < |distances| && 0 < count <= |o| && Sorted(distances, o) && Elements(o) == All(|distances|)
    ensures var bound := distances[o[count - 1]];
            var below := Below(distances, bound);
            i in below + Take(At(distances, bound), count - |below|) <==> i in o[..count]
  {
    var at := o[count - 1];
    var bound := distances[at];
    var below, ties := Below(distances, bound), At(distances, bound);
    RankIsPosition(distances, o, count - 1);
    RankOrder(distances, at, i);
    assert i in Elements(o);
    FirstByRank(distances, o, count, i);
    BelowMeaning(distances, bound);
    AtSorted(distances, bound);
    TakeMembers(ties, count - |below|);
    if distances[i] == bound {
      RankTied(distances, bound, i);
      TieTaken(distances, ties, count - |below|, i);
    }
  }

  lemma TakeMembers(s: seq<nat>, k: int)
    ensures forall x :: x in Take(s, k) ==> x in s
  {
  }

  lemma ChosenDistinct(distances: seq<real>, count: nat)
    requires 0 < count <= |distances|
    ensures var all := Chosen(distances, count);
            forall a, b :: 0 <= a < b < |all| ==> all[a] != all[b]
  {
    var bound := Boundary(distances, count);
    var below, ties := Below(distances, bound), At(distances, bound);
    var some := Take(ties, count - |below|);
    BelowMeaning(distances, bound);
    AtSorted(distances, bound);
    TakeMembers(ties, count - |below|);
    assert forall a :: 0 <= a < |some| ==> some[a] == ties[a];
    BelowTiesDistinct(distances, bound, below, some);
  }

  lemma BelowTiesDistinct(distances: seq<real>, bound: real, below: seq<nat>, some: seq<nat>)
    requires Ascending(below) && Sorted(distances, some)
    requires forall i :: i in below ==> i < |distances| && distances[i] < bound
    requires forall i :: i in some ==> i < |distances| && distances[i] == bound
    ensures forall a, b :: 0 <= a < b < |below + some| ==> (below + some)[a] != (below + some)[b]
  {
    var all := below + some;
    forall a, b | 0 <= a < b < |all| ensures all[a] != all[b] {
      if b < |below| {
      } else if a >= |below| {
        assert Before(distances, some[a - |below|], some[b - |below|]);
      } else {
        assert all[a] in below && all[b] in some;
      }
    }
  }

  lemma TieTaken(distances: seq<real>, ties: seq<nat>, room: int, i: nat)
    requires Sorted(distances, ties) && i in ties
    ensures i in Take(ties, room) <==> |Ahead(distances, Elements(ties), i)| < room
  {
    if 0 < room < |ties| {
      FirstByRank(distances, ties, room, i);
    } else {
      FirstByRank(distances, ties, |ties|, i);
      assert ties[..|ties|] == ties;
    }
  }

  // ---------------------------------------------------------------------------------------
  // Rescoring. `keys` are the negated scores, so that ascending order is best first.

  /** The rows of the selected indices. */
  function Gather(keys: seq<real>, chosen: seq<nat>): seq<real>
    requires Within(chosen, |keys|)
  {
    seq(|chosen|, p requires 0 <= p < |chosen| => keys[chosen[p]])
  }

  function Map(chosen: seq<nat>, places: seq<nat>): seq<nat>
    requires Within(places, |chosen|)
  {
    seq(|places|, r requires 0 <= r < |places| => chosen[places[r]])
  }

  function ExactHits(keys: seq<real>, top: nat): seq<nat> {
    Take(Argsort(keys, |keys|), top)
  }

  /** Rescore the selected rows and map the winning places back to indices. */
  function Rescored(keys: seq<real>, chosen: seq<nat>, top: nat): seq<nat>
    requires Within(chosen, |keys|)
  {
    Map(chosen, Take(Argsort(Gather(keys, chosen), |chosen|), top))
  }

  function BinaryHits(keys: seq<real>, distances: seq<real>, candidates: nat, top: nat): seq<nat>
    requires |keys| == |distances| > 0 && candidates > 0
  {
    SelectedInRange(distances, candidates);
    Rescored(keys, Selected(distances, candidates), top)
  }

  lemma SelectedInRange(distances: seq<real>, candidates: nat)
    requires distances != [] && candidates > 0
    ensures Within(Selected(distances, candidates), |distances|)
  {
    var chosen := Selected(distances, candidates);
    SelectedExactly(distances, candidates);
    ChosenInRange(distances, Min(candidates, |distances|));
    forall a | 0 <= a < |chosen| ensures chosen[a] < |distances| {
      assert chosen[a] in Elements(chosen);
    }
  }

  /** The full rescored order: sorted by the original keys, with exactly the chosen members.
      Stability carries over because the chosen indices ascend. */
  lemma {:induction false} RescoredOrder(keys: seq<real>, chosen: seq<nat>)
    requires Within(chosen, |keys|) && Ascending(chosen)
    ensures var order := Map(chosen, Argsort(Gather(keys, chosen), |chosen|));
            Sorted(keys, order) && Elements(order) == Elements(chosen)
  {
    var gathered := Gather(keys, chosen);
    var places := Argsort(gathered, |chosen|);
    ArgsortSorted(gathered, |chosen|);
    MapMembers(chosen, places);
  }

  lemma MapMembers(chosen: seq<nat>, places: seq<nat>)
    requires Within(places, |chosen|) && Elements(places) == All(|chosen|)
    ensures Elements(Map(chosen, places)) == Elements(chosen)
  {
    var order := Map(chosen, places);
    forall i | i in Elements(chosen) ensures i in Elements(order) {
      var p :| 0 <= p < |chosen| && chosen[p] == i;
      assert p in Elements(places);
      var r :| 0 <= r < |places| && places[r] == p;
      assert order[r] == i;
    }
  }

  lemma MapTake(chosen: seq<nat>, places: seq<nat>, k: int)
    requires Within(places, |chosen|)
    ensures Map(chosen, Take(places, k)) == Take(Map(chosen, places), k)
  {
  }

  lemma RescoredIsPrefix(keys: seq<real>, chosen: seq<nat>, top: nat)
    requires Within(chosen, |keys|)
    ensures Rescored(keys, chosen, top) == Take(Map(chosen, Argsort(Gather(keys, chosen), |chosen|)), top)
  {
    MapTake(chosen, Argsort(Gather(keys, chosen), |chosen|), top);
  }

  /** A hit of the exhaustive search that survives the prefilter is a hit of the two-stage one. */
  lemma SurvivorKept(keys: seq<real>, chosen: seq<nat>, top: nat, i: nat)
    requires Within(chosen, |keys|) && Ascending(chosen)
    requires i in ExactHits(keys, top) && i in chosen
    ensures i in Rescored(keys, chosen, top)
  {
    var n := |keys|;
    var all, order := Argsort(keys, n), Map(chosen, Argsort(Gather(keys, chosen), |chosen|));
    ArgsortSorted(keys, n);
    RescoredOrder(keys, chosen);
    RescoredIsPrefix(keys, chosen, top);
    assert i in Elements(order);
    TieTaken(keys, all, top, i);
    TieTaken(keys, order, top, i);
    assert Ahead(keys, Elements(order), i) <= Ahead(keys, Elements(all), i);
    SubsetSize(Ahead(keys, Elements(order), i), Ahead(keys, Elements(all), i));
  }

  /** The exact hits that the two-stage search finds are exactly those that survived. */
  lemma {:induction false} FoundIsSurvived(keys: seq<real>, distances: seq<real>, candidates: nat, top: nat)
    requires |keys| == |distances| > 0 && candidates > 0
    ensures Elements(BinaryHits(keys, distances, candidates, top)) * Elements(ExactHits(keys, top)) ==
            Elements(Selected(distances, candidates)) * Elements(ExactHits(keys, top))
  {
    SelectedInRange(distances, candidates);
    SelectedExactly(distances, candidates);
    var chosen := Selected(distances, candidates);
    RescoredOrder(keys, chosen);
    RescoredIsPrefix(keys, chosen, top);
    TakeMembers(Map(chosen, Argsort(Gather(keys, chosen), |chosen|)), top);
    forall i | i in Elements(BinaryHits(keys, distances, candidates, top)) ensures i in Elements(chosen) {
      assert i in Elements(Map(chosen, Argsort(Gather(keys, chosen), |chosen|)));
    }
    forall i | i in Elements(chosen) && i in Elements(ExactHits(keys, top))
      ensures i in Elements(BinaryHits(keys, distances, candidates, top))
    {
      SurvivorKept(keys, chosen, top, i);
    }
  }

  /** How many of the expected hits are found; recall divides it by the number expected. */
  function Found(keys: seq<real>, distances: seq<real>, candidates: nat, top: nat, expected: set<nat>): nat
    requires |keys| == |distances| > 0 && candidates > 0
  {
    |Elements(BinaryHits(keys, distances, candidates, top)) * expected|
  }

  /** Against the exhaustive search, recall never falls when more candidates are let through. */
  lemma {:induction false} RecallMonotone(keys: seq<real>, distances: seq<real>, fewer: nat, more: nat, top: nat)
    requires |keys| == |distances| > 0 && 0 < fewer <= more
    ensures Found(keys, distances, fewer, top, Elements(ExactHits(keys, top)))
         <= Found(keys, distances, more, top, Elements(ExactHits(keys, top)))
  {
    FoundIsSurvived(keys, distances, fewer, top);
    FoundIsSurvived(keys, distances, more, top);
    SelectedExactly(distances, fewer);
    SelectedExactly(distances, more);
    var o, e := Argsort(distances, |distances|), Elements(ExactHits(keys, top));
    var a, b := Min(fewer, |distances|), Min(more, |distances|);
    assert o[..b][..a] == o[..a];
    assert Elements(o[..a]) <= Elements(o[..b]);
    SubsetSize(Elements(o[..a]) * e, Elements(o[..b]) * e);
  }

  /** With at least as many candidates as rows the two searches return the same list. */
  lemma ExactWhenAllCandidates(keys: seq<real>, distances: seq<real>, candidates: nat, top: nat)
    requires |keys| == |distances| > 0 && candidates >= |distances|
    ensures BinaryHits(keys, distances, candidates, top) == ExactHits(keys, top)
  {
    var n := |distances|;
    var o, chosen := Argsort(distances, n), Selected(distances, candidates);
    SelectedInRange(distances, candidates);
    SelectedExactly(distances, candidates);
    ArgsortSorted(distances, n);
    ArgsortSorted(keys, n);
    assert o[..n] == o;
    RescoredOrder(keys, chosen);
    RescoredIsPrefix(keys, chosen, top);
    SortedByMembers(keys, Map(chosen, Argsort(Gather(keys, chosen), |chosen|)), Argsort(keys, n));
  }

  // ---------------------------------------------------------------------------------------
  // The reference list, which another index computes and which may break ties otherwise.

  /** As many rows as the exhaustive search returns, none of them worse than a row left out. */
  ghost predicate Reference(keys: seq<real>, top: nat, expected: set<nat>) {
    && expected <= All(|keys|) && |expected| == Min(top, |keys|)
    && forall i, j :: i in expected && j in All(|keys|) - expected ==> keys[i] <= keys[j]
  }

  /** No row left out scores the same as a row of the list. */
  ghost predicate Untied(keys: seq<real>, expected: set<nat>)
    requires expected <= All(|keys|)
  {
    forall i, j :: i in expected && j in All(|keys|) - expected ==> keys[i] != keys[j]
  }

  lemma ExactHitsSize(keys: seq<real>, top: nat)
    ensures Elements(ExactHits(keys, top)) <= All(|keys|)
    ensures |Elements(ExactHits(keys, top))| == Min(top, |keys|)
  {
    var n := |keys|;
    var all := Argsort(keys, n);
    ArgsortSorted(keys, n);
    DistinctSize(all);
    AllSize(n);
    TakeMembers(all, top);
    forall i | i in Elements(ExactHits(keys, top)) ensures i in All(n) {
      assert i in Elements(all);
    }
    DistinctSize(ExactHits(keys, top));
  }

  lemma {:induction false} AllSize(n: nat)
    ensures |All(n)| == n
  {
    if n > 0 {
      AllSize(n - 1);
      var before, last := All(n - 1), n - 1;
      assert last !in before && All(n) == before + {last};
    }
  }

  /** A reference without ties at its end is the result of the exhaustive search. */
  lemma UntiedReference(keys: seq<real>, top: nat, expected: set<nat>)
    requires Reference(keys, top, expected) && Untied(keys, expected)
    ensures expected == Elements(ExactHits(keys, top))
  {
    var n := |keys|;
    var all := Argsort(keys, n);
    ArgsortSorted(keys, n);
    ExactHitsSize(keys, top);
    forall i | i in expected ensures i in Elements(ExactHits(keys, top)) {
      assert i in Elements(all);
      var ahead := Ahead(keys, Elements(all), i);
      assert ahead <= expected - {i};
      SubsetSize(ahead, expected - {i});
      TieTaken(keys, all, top, i);
    }
    SameWhenAsLarge(expected, Elements(ExactHits(keys, top)));
  }

  lemma SameWhenAsLarge(a: set<nat>, b: set<nat>)
    requires a <= b && |a| == |b|
    ensures a == b
  {
    if b - a != {} {
      var x :| x in b - a;
      SubsetSize(a, b - {x});
    }
  }

  /** Distances that let exactly the given rows through first. */
  function Favouring(n: nat, rows: set<nat>): seq<real> { seq(n, i => if i in rows then 0.0 else 1.0) }

  /** With as many candidates as favoured rows, those are what the search returns. */
  lemma FavouredFound(keys: seq<real>, expected: set<nat>, top: nat)
    requires keys != [] && expected != {} && expected <= All(|keys|) && |expected| <= top
    ensures Elements(BinaryHits(keys, Favouring(|keys|, expected), |expected|, top)) == expected
  {
    var n, count := |keys|, |expected|;
    var distances := Favouring(n, expected);
    SubsetSize(expected, All(n));
    AllSize(n);
    SelectedExactly(distances, count);
    SelectedInRange(distances, count);
    FavouredFirst(distances, expected);
    var chosen := Selected(distances, count);
    RescoredOrder(keys, chosen);
    RescoredIsPrefix(keys, chosen, top);
    var order := Map(chosen, Argsort(Gather(keys, chosen), |chosen|));
    DistinctSize(order);
    assert Take(order, top) == order;
  }

  lemma FavouredAhead(distances: seq<real>, expected: set<nat>, all: set<nat>, i: nat)
    requires distances == Favouring(|distances|, expected) && i in expected && i < |distances|
    ensures |Ahead(distances, all, i)| < |expected|
  {
    var ahead := Ahead(distances, all, i);
    forall j | j in ahead ensures j in expected - {i} {
      assert distances[j] <= distances[i];
    }
    SubsetSize(ahead, expected - {i});
  }

  lemma FavouredFirst(distances: seq<real>, expected: set<nat>)
    requires distances == Favouring(|distances|, expected) && expected <= All(|distances|)
    requires |expected| <= |distances|
    ensures Elements(Argsort(distances, |distances|)[..|expected|]) == expected
  {
    var n, count := |distances|, |expected|;
    var all := Argsort(distances, n);
    ArgsortSorted(distances, n);
    DistinctSize(all);
    AllSize(n);
    forall i | i in expected ensures i in Elements(all[..count]) {
      assert i in Elements(all);
      FavouredAhead(distances, expected, Elements(all), i);
      FirstByRank(distances, all, count, i);
    }
    DistinctSize(all[..count]);
    SameWhenAsLarge(expected, Elements(all[..count]));
  }

  lemma CountFavoured(keys: seq<real>, expected: set<nat>, top: nat)
    requires keys != [] && expected != {} && expected <= All(|keys|) && |expected| <= top
    ensures Found(keys, Favouring(|keys|, expected), |expected|, top, expected) == |expected|
  {
    FavouredFound(keys, expected, top);
    assert expected * expected == expected;
  }

  lemma NotMonotone(keys: seq<real>, top: nat, expected: set<nat>)
    requires keys != [] && expected <= All(|keys|) && |expected| == Min(top, |keys|)
    requires expected != Elements(ExactHits(keys, top))
    ensures expected != {}
    ensures var distances := Favouring(|keys|, expected);
            Found(keys, distances, |expected|, top, expected) > Found(keys, distances, |keys|, top, expected)
  {
    var n, exact := |keys|, Elements(ExactHits(keys, top));
    ExactHitsSize(keys, top);
    assert |exact| == |expected|;
    CountFavoured(keys, expected, top);
    ExactWhenAllCandidates(keys, Favouring(n, expected), n, top);
    FewerShared(expected, exact);
  }

  lemma FewerShared(a: set<nat>, b: set<nat>)
    requires |a| == |b| && a != b
    ensures |b * a| < |a|
  {
    SubsetSize(b * a, a);
    if |b * a| >= |a| {
      SameWhenAsLarge(b * a, a);
      SameWhenAsLarge(a, b);
    }
  }

  /** Recall against a list of full length is monotone in the candidates, whatever the distances,
      exactly when that list has the members of the exhaustive result: a reference that breaks
      ties otherwise can be matched better by fewer candidates. */
  lemma MonotoneExactly(keys: seq<real>, top: nat, expected: set<nat>)
    requires keys != [] && expected <= All(|keys|) && |expected| == Min(top, |keys|)
    ensures (forall distances, fewer, more :: |distances| == |keys| && 0 < fewer <= more ==>
               Found(keys, distances, fewer, top, expected) <= Found(keys, distances, more, top, expected))
       <==> expected == Elements(ExactHits(keys, top))
  {
    var n, exact := |keys|, Elements(ExactHits(keys, top));
    ExactHitsSize(keys, top);
    if expected == exact {
      forall distances, fewer, more | |distances| == n && 0 < fewer <= more
        ensures Found(keys, distances, fewer, top, expected) <= Found(keys, distances, more, top, expected)
      {
        RecallMonotone(keys, distances, fewer, more, top);
      }
    } else {
      NotMonotone(keys, top, expected);
      SubsetSize(expected, All(n));
      AllSize(n);
    }
  }

  // ---------------------------------------------------------------------------------------
  // The whole search on vectors.

  function Dot(u: seq<real>, v: seq<real>): real
    requires |u| == |v|
  {
    if u == [] then 0.0 else Dot(u[..|u| - 1], v[..|v| - 1]) + u[|u| - 1] * v[|v| - 1]
  }

  ghost predicate Shaped(matrix: seq<seq<real>>, q: seq<real>) {
    forall i :: 0 <= i < |matrix| ==> |matrix[i]| == |q|
  }

  function NegatedScores(matrix: seq<seq<real>>, q: seq<real>): seq<real>
    requires Shaped(matrix, q)
  {
    seq(|matrix|, i requires 0 <= i < |matrix| => -Dot(matrix[i], q))
  }

  function PackedDistances(binary: seq<seq<bv8>>, packed: seq<bv8>): seq<real>
    requires forall i :: 0 <= i < |binary| ==> |binary[i]| == |packed|
  {
    seq(|binary|, i requires 0 <= i < |binary| => Hamming(binary[i], packed) as real)
  }

  function SignDistances(matrix: seq<seq<real>>, q: seq<real>): seq<real> {
    seq(|matrix|, i requires 0 <= i < |matrix| => Disagreements(matrix[i], q, |q|) as real)
  }

  /** The search over packed bytes ranks by the number of sign disagreements with the query. */
  lemma SearchOverSigns(matrix: seq<seq<real>>, q: seq<real>, binary: seq<seq<bv8>>, packed: seq<bv8>,
                        candidates: nat, top: nat)
    requires matrix != [] && candidates > 0 && Shaped(matrix, q) && Packed(q, packed)
    requires |binary| == |matrix|
    requires forall i :: 0 <= i < |binary| ==> Packed(matrix[i], binary[i]) && |binary[i]| == |packed|
    ensures PackedDistances(binary, packed) == SignDistances(matrix, q)
    ensures BinaryHits(NegatedScores(matrix, q), PackedDistances(binary, packed), candidates, top) ==
            BinaryHits(NegatedScores(matrix, q), SignDistances(matrix, q), candidates, top)
  {
    forall i | 0 <= i < |matrix| ensures Hamming(binary[i], packed) == Disagreements(matrix[i], q, |q|) {
      HammingCountsDisagreements(matrix[i], q, binary[i], packed);
    }
  }

  // ---------------------------------------------------------------------------------------
  // What the hits are, told from the dot products.

  /** The hits are `count` of the given rows, by descending dot product with the query and then by
      index, and no given row that is left out would come before one of them. */
  ghost predicate Best(matrix: seq<seq<real>>, q: seq<real>, rows: set<nat>, hits: seq<nat>, count: nat)
    requires Shaped(matrix, q)
  {
    && |hits| == count && Elements(hits) <= rows && rows <= All(|matrix|)
    && (forall a, b :: 0 <= a < b < |hits| ==> Better(matrix, q, hits[a], hits[b]))
    && (forall a, j :: 0 <= a < |hits| && j in rows && j !in hits ==> Better(matrix, q, hits[a], j))
  }

  ghost predicate Better(matrix: seq<seq<real>>, q: seq<real>, i: nat, j: nat)
    requires Shaped(matrix, q)
  {
    && i < |matrix| && j < |matrix|
    && (Dot(matrix[i], q) > Dot(matrix[j], q) || (Dot(matrix[i], q) == Dot(matrix[j], q) && i < j))
  }

  lemma TakeBest(matrix: seq<seq<real>>, q: seq<real>, order: seq<nat>, top: nat)
    requires Shaped(matrix, q) && Sorted(NegatedScores(matrix, q), order)
    ensures Best(matrix, q, Elements(order), Take(order, top), Min(top, |order|))
  {
    var keys, hits := NegatedScores(matrix, q), Take(order, top);
    forall a, b | 0 <= a < b < |order| ensures Better(matrix, q, order[a], order[b]) {
      assert Before(keys, order[a], order[b]);
    }
    forall a, j | 0 <= a < |hits| && j in Elements(order) && j !in hits ensures Better(matrix, q, hits[a], j) {
      var b :| 0 <= b < |order| && order[b] == j;
      assert b >= |hits|;
    }
    TakeMembers(order, top);
    forall i | i in Elements(order) ensures i in All(|matrix|) {
      var a :| 0 <= a < |order| && order[a] == i;
    }
  }

  /** The exhaustive search returns the best rows of all. */
  lemma ExactHitsAreBest(matrix: seq<seq<real>>, q: seq<real>, top: nat)
    requires Shaped(matrix, q)
    ensures Best(matrix, q, All(|matrix|), ExactHits(NegatedScores(matrix, q), top), Min(top, |matrix|))
  {
    ArgsortSorted(NegatedScores(matrix, q), |matrix|);
    TakeBest(matrix, q, Argsort(NegatedScores(matrix, q), |matrix|), top);
  }

  /** The two-stage search returns the best of the selected rows. */
  lemma BinaryHitsAreBest(matrix: seq<seq<real>>, q: seq<real>, distances: seq<real>, candidates: nat, top: nat)
    requires matrix != [] && Shaped(matrix, q) && |distances| == |matrix| && candidates > 0
    ensures Best(matrix, q, Elements(Selected(distances, candidates)),
                 BinaryHits(NegatedScores(matrix, q), distances, candidates, top),
                 Min(top, Min(candidates, |matrix|)))
  {
    var keys, chosen := NegatedScores(matrix, q), Selected(distances, candidates);
    SelectedInRange(distances, candidates);
    SelectedExactly(distances, candidates);
    RescoredOrder(keys, chosen);
    RescoredIsPrefix(keys, chosen, top);
    var order := Map(chosen, Argsort(Gather(keys, chosen), |chosen|));
    TakeBest(matrix, q, order, top);
    SelectedCount(distances, candidates);
  }

  lemma SelectedCount(distances: seq<real>, candidates: nat)
    requires distances != [] && candidates > 0
    ensures |Selected(distances, candidates)| == Min(candidates, |distances|)
  {
    var all, chosen, count := Argsort(distances, |distances|), Selected(distances, candidates), Min(candidates, |distances|);
    SelectedExactly(distances, candidates);
    ArgsortSorted(distances, |distances|);
    AscendingDistinct(chosen);
    DistinctSize(chosen);
    forall a, b | 0 <= a < b < count ensures all[a] != all[b] {
      assert Before(distances, all[a], all[b]);
    }
    DistinctSize(all[..count]);
  }

  lemma AscendingDistinct(o: seq<nat>)
    requires Ascending(o)
    ensures Distinct(o)
  {
  }

  /** The dot product adds up over parts, and is the product for one component. */
  lemma {:induction false} DotParts(u: seq<real>, v: seq<real>, x: seq<real>, y: seq<real>)
    requires |u| == |v| && |x| == |y|
    ensures Dot(u + x, v + y) == Dot(u, v) + Dot(x, y)
    ensures |x| == 1 ==> Dot(x, y) == x[0] * y[0]
  {
    if x == [] {
      assert u + x == u && v + y == v;
    } else {
      var n := |x| - 1;
      DotParts(u, v, x[..n], y[..n]);
      assert (u + x)[..|u| + n] == u + x[..n] && (v + y)[..|v| + n] == v + y[..n];
      if n == 0 {
        assert Dot(x[..0], y[..0]) == 0.0;
      }
    }
  }
}
