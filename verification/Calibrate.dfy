/** scripts/calibrate.py:129-171: per-category decision thresholds by a sweep of Youden's J. */
module Calibrate {
  import opened Arithmetic

  datatype Sample = Sample(p: real, y: int)

  const FALLBACK: real := 0.45
  const MIN_SAMPLES := 5

  // ---------------------------------------------------------------------------------------
  // Youden's J over all real thresholds.

  function CountIf(s: seq<Sample>, f: Sample -> bool): nat {
    if s == [] then 0 else CountIf(s[..|s| - 1], f) + (if f(s[|s| - 1]) then 1 else 0)
  }

  function Labelled(y: int): Sample -> bool { (x: Sample) => x.y == y }

  function Accepted(t: real, y: int): Sample -> bool { (x: Sample) => x.p >= t && x.y == y }

  function Rejected(t: real, y: int): Sample -> bool { (x: Sample) => !(x.p >= t) && x.y == y }

  /** Both classes are present. */
  predicate Separable(s: seq<Sample>) {
    CountIf(s, Labelled(1)) > 0 && CountIf(s, Labelled(0)) > 0
  }

  /** True positive rate minus false positive rate when accepting from `t` upwards. */
  function J(s: seq<Sample>, t: real): real
    requires Separable(s)
  {
    CountIf(s, Accepted(t, 1)) as real / CountIf(s, Labelled(1)) as real
    - CountIf(s, Accepted(t, 0)) as real / CountIf(s, Labelled(0)) as real
  }

  lemma {:induction false} CountCongruent(s: seq<Sample>, f: Sample -> bool, g: Sample -> bool)
    requires forall x :: x in s ==> f(x) == g(x)
    ensures CountIf(s, f) == CountIf(s, g)
  {
    if s != [] {
      assert s == s[..|s| - 1] + [s[|s| - 1]];
      CountCongruent(s[..|s| - 1], f, g);
    }
  }

  lemma {:induction false} CountSplits(s: seq<Sample>, t: real, y: int)
    ensures CountIf(s, Accepted(t, y)) + CountIf(s, Rejected(t, y)) == CountIf(s, Labelled(y))
  {
    if s != [] {
      CountSplits(s[..|s| - 1], t, y);
    }
  }

  lemma {:induction false} CountNone(s: seq<Sample>, f: Sample -> bool)
    requires forall x :: x in s ==> !f(x)
    ensures CountIf(s, f) == 0
  {
    if s != [] {
      assert s == s[..|s| - 1] + [s[|s| - 1]];
      CountNone(s[..|s| - 1], f);
    }
  }

  /** Counting is the size of a set of indices. */
  ghost function Where(s: seq<Sample>, f: Sample -> bool): set<nat> { set i | 0 <= i < |s| && f(s[i]) }

  lemma {:induction false} CountMeaning(s: seq<Sample>, f: Sample -> bool)
    ensures CountIf(s, f) == |Where(s, f)|
  {
    if s == [] {
      assert Where(s, f) == {};
    } else {
      var init, last := s[..|s| - 1], |s| - 1;
      CountMeaning(init, f);
      if f(s[last]) {
        assert Where(s, f) == Where(init, f) + {last};
      } else {
        assert Where(s, f) == Where(init, f);
      }
    }
  }

  /** J is the share of positive samples at or above the threshold minus that of negative ones. */
  lemma JMeaning(s: seq<Sample>, t: real)
    requires Separable(s)
    ensures var tp, pos := set i | 0 <= i < |s| && s[i].p >= t && s[i].y == 1, set i | 0 <= i < |s| && s[i].y == 1;
            var fp, neg := set i | 0 <= i < |s| && s[i].p >= t && s[i].y == 0, set i | 0 <= i < |s| && s[i].y == 0;
            |pos| > 0 && |neg| > 0 && J(s, t) == |tp| as real / |pos| as real - |fp| as real / |neg| as real
  {
    CountMeaning(s, Accepted(t, 1));
    CountMeaning(s, Accepted(t, 0));
    CountMeaning(s, Labelled(1));
    CountMeaning(s, Labelled(0));
    assert Where(s, Accepted(t, 1)) == set i | 0 <= i < |s| && s[i].p >= t && s[i].y == 1;
    assert Where(s, Accepted(t, 0)) == set i | 0 <= i < |s| && s[i].p >= t && s[i].y == 0;
    assert Where(s, Labelled(1)) == set i | 0 <= i < |s| && s[i].y == 1;
    assert Where(s, Labelled(0)) == set i | 0 <= i < |s| && s[i].y == 0;
  }

  lemma {:induction false} ClassPresent(s: seq<Sample>, y: int)
    ensures CountIf(s, Labelled(y)) == 0 <==> forall x :: x in s ==> x.y != y
  {
    if s != [] {
      ClassPresent(s[..|s| - 1], y);
      assert s == s[..|s| - 1] + [s[|s| - 1]];
    }
  }

  /** Thresholds that accept the same samples have the same J. */
  lemma SameAcceptance(s: seq<Sample>, t: real, u: real)
    requires Separable(s) && forall x :: x in s ==> (x.p >= t <==> x.p >= u)
    ensures J(s, t) == J(s, u)
  {
    CountCongruent(s, Accepted(t, 1), Accepted(u, 1));
    CountCongruent(s, Accepted(t, 0), Accepted(u, 0));
  }

  /** Accepting everything, or nothing, scores zero. */
  lemma ExtremesScoreZero(s: seq<Sample>, t: real)
    requires Separable(s)
    requires (forall x :: x in s ==> x.p >= t) || (forall x :: x in s ==> x.p < t)
    ensures J(s, t) == 0.0
  {
    if forall x :: x in s ==> x.p >= t {
      CountCongruent(s, Accepted(t, 1), Labelled(1));
      CountCongruent(s, Accepted(t, 0), Labelled(0));
      SelfRatio(CountIf(s, Labelled(1)) as real);
      SelfRatio(CountIf(s, Labelled(0)) as real);
    } else {
      CountNone(s, Accepted(t, 1));
      CountNone(s, Accepted(t, 0));
    }
  }

  // ---------------------------------------------------------------------------------------
  // The candidates: the distinct probabilities and a fixed grid, ascending.

  function InsertUnique(xs: seq<real>, v: real): seq<real> {
    if xs == [] then [v]
    else if v < xs[0] then [v] + xs
    else if v == xs[0] then xs
    else [xs[0]] + InsertUnique(xs[1..], v)
  }

  function SortedUnique(xs: seq<real>): seq<real> {
    if xs == [] then [] else InsertUnique(SortedUnique(xs[1..]), xs[0])
  }

  ghost predicate Increasing(xs: seq<real>) {
    forall i, j :: 0 <= i < j < |xs| ==> xs[i] < xs[j]
  }

  lemma {:induction false} InsertUniqueMeaning(xs: seq<real>, v: real)
    requires Increasing(xs)
    ensures Increasing(InsertUnique(xs, v))
    ensures forall x :: x in InsertUnique(xs, v) <==> x in xs || x == v
  {
    if xs != [] {
      InsertUniqueMeaning(xs[1..], v);
      assert xs == [xs[0]] + xs[1..];
      var t := InsertUnique(xs[1..], v);
      if v > xs[0] {
        forall i | 0 <= i < |t| ensures xs[0] < t[i] {
          assert t[i] in t;
        }
      }
    }
  }

  lemma {:induction false} SortedUniqueMeaning(xs: seq<real>)
    ensures Increasing(SortedUnique(xs))
    ensures forall x :: x in SortedUnique(xs) <==> x in xs
  {
    if xs != [] {
      SortedUniqueMeaning(xs[1..]);
      InsertUniqueMeaning(SortedUnique(xs[1..]), xs[0]);
      assert xs == [xs[0]] + xs[1..];
    }
  }

  function Grid(): seq<real> { seq(19, i => 0.05 + i as real * 0.05) }

  function Twentieths(n: int): real { n as real * 0.05 }

  function Probabilities(s: seq<Sample>): seq<real> {
    seq(|s|, i requires 0 <= i < |s| => s[i].p)
  }

  function Candidates(s: seq<Sample>): seq<real> { SortedUnique(Probabilities(s) + Grid()) }

  /** The candidates are the probabilities and the multiples of 0.05 from 0.05 to 0.95, ascending. */
  lemma CandidatesMeaning(s: seq<Sample>)
    ensures Increasing(Candidates(s))
    ensures forall x :: x in s ==> x.p in Candidates(s)
    ensures forall n :: 1 <= n <= 19 ==> Twentieths(n) in Candidates(s)
    ensures forall t :: t in Candidates(s) ==>
              (exists x :: x in s && x.p == t) || exists n :: 1 <= n <= 19 && t == Twentieths(n)
  {
    SortedUniqueMeaning(Probabilities(s) + Grid());
    forall x | x in s ensures x.p in Candidates(s) {
      var i :| 0 <= i < |s| && s[i] == x;
      assert Probabilities(s)[i] == x.p;
      assert x.p in Probabilities(s);
    }
    forall n | 1 <= n <= 19 ensures Twentieths(n) in Candidates(s) {
      assert Grid()[n - 1] == Twentieths(n);
      assert Grid()[n - 1] in Grid();
    }
    forall t | t in Candidates(s)
      ensures (exists x :: x in s && x.p == t) || exists n :: 1 <= n <= 19 && t == Twentieths(n)
    {
      if t in Probabilities(s) {
        var i :| 0 <= i < |s| && Probabilities(s)[i] == t;
        assert s[i] in s && s[i].p == t;
      } else {
        var i :| 0 <= i < 19 && Grid()[i] == t;
        assert t == Twentieths(i + 1);
      }
    }
  }

  lemma {:induction false} LeastFrom(s: seq<Sample>, t: real) returns (least: Sample)
    requires exists x :: x in s && x.p >= t
    ensures least in s && least.p >= t && forall x :: x in s && x.p >= t ==> least.p <= x.p
  {
    var init, last := s[..|s| - 1], s[|s| - 1];
    assert s == init + [last];
    if x :| x in init && x.p >= t {
      least := LeastFrom(init, t);
      if t <= last.p < least.p {
        least := last;
      }
    } else {
      least := last;
    }
  }

  /** The finite sweep loses nothing: the J of every real threshold is the J of a candidate. */
  lemma CandidateForEvery(s: seq<Sample>, u: real) returns (c: real)
    requires Separable(s)
    ensures c in Candidates(s) && J(s, c) == J(s, u)
  {
    CandidatesMeaning(s);
    if exists x :: x in s && x.p >= u {
      var least := LeastFrom(s, u);
      c := least.p;
      SameAcceptance(s, c, u);
    } else {
      assert s != [];
      var lowest := Lowest(s);
      c := lowest.p;
      ExtremesScoreZero(s, c);
      ExtremesScoreZero(s, u);
    }
  }

  lemma {:induction false} Lowest(s: seq<Sample>) returns (least: Sample)
    requires s != []
    ensures least in s && forall x :: x in s ==> least.p <= x.p
  {
    var init, last := s[..|s| - 1], s[|s| - 1];
    assert s == init + [last];
    least := last;
    if init != [] {
      var other := Lowest(init);
      if other.p < last.p {
        least := other;
      }
    }
  }

  // ---------------------------------------------------------------------------------------
  // The sweep.

  /** `t` is the smallest candidate whose J no real threshold exceeds. */
  ghost predicate Optimal(s: seq<Sample>, t: real)
    requires Separable(s)
  {
    && t in Candidates(s)
    && (forall u: real :: J(s, u) <= J(s, t))
    && (forall c :: c in Candidates(s) && c < t ==> J(s, c) < J(s, t))
  }

  /** The four cells of the confusion matrix and the resulting J. */
  method Youden(s: seq<Sample>, t: real) returns (j: real)
    requires Separable(s)
    ensures j == J(s, t)
  {
    CountSplits(s, t, 1);
    CountSplits(s, t, 0);
    var tp, fn := CountIf(s, Accepted(t, 1)) as real, CountIf(s, Rejected(t, 1)) as real;
    var fp, tn := CountIf(s, Accepted(t, 0)) as real, CountIf(s, Rejected(t, 0)) as real;
    assert tp + fn == CountIf(s, Labelled(1)) as real && fp + tn == CountIf(s, Labelled(0)) as real;
    var ones, zeros := tp + fn, fp + tn;
    return tp / (if ones > 1.0 then ones else 1.0) - fp / (if zeros > 1.0 then zeros else 1.0);
  }

  lemma Attained(s: seq<Sample>) returns (c: real)
    requires Separable(s)
    ensures c in Candidates(s) && J(s, c) == 0.0
  {
    var lowest := Lowest(s);
    ExtremesScoreZero(s, lowest.p);
    CandidatesMeaning(s);
    c := lowest.p;
  }

  method BestThreshold(s: seq<Sample>) returns (bestT: real, bestJ: real)
    requires Separable(s)
    ensures Optimal(s, bestT) && bestJ == J(s, bestT) && bestJ >= 0.0
  {
    var candidates := Candidates(s);
    CandidatesMeaning(s);
    bestJ, bestT := -1.0, FALLBACK;
    ghost var best := -1;
    for n := 0 to |candidates|
      invariant -1 <= best < n
      invariant if best < 0 then bestJ == -1.0
                else bestT == candidates[best] && bestJ == J(s, bestT) && bestJ > -1.0
      invariant forall k :: 0 <= k < n ==> J(s, candidates[k]) <= bestJ
      invariant forall k :: 0 <= k < best ==> J(s, candidates[k]) < bestJ
    {
      var j := Youden(s, candidates[n]);
      if j > bestJ {
        bestJ, bestT := j, candidates[n];
        best := n;
      }
    }
    var zero := Attained(s);
    assert bestJ >= 0.0;
    forall u: real ensures J(s, u) <= bestJ {
      var c := CandidateForEvery(s, u);
    }
    forall c | c in candidates && c < bestT ensures J(s, c) < bestJ {
      var k :| 0 <= k < |candidates| && candidates[k] == c;
    }
  }

  // ---------------------------------------------------------------------------------------
  // All categories.

  /** The indices of the samples of category `c`, in order. */
  function IndexesOf(cats: seq<string>, c: string): (idxs: seq<nat>)
    ensures forall k :: 0 <= k < |idxs| ==> idxs[k] < |cats|
  {
    if cats == [] then []
    else IndexesOf(cats[..|cats| - 1], c) + (if cats[|cats| - 1] == c then [|cats| - 1] else [])
  }

  /** The indices of a category are those of its samples, in order. */
  lemma {:induction false} IndexesMeaning(cats: seq<string>, c: string)
    ensures forall i :: i in IndexesOf(cats, c) <==> 0 <= i < |cats| && cats[i] == c
    ensures forall a, b :: 0 <= a < b < |IndexesOf(cats, c)| ==> IndexesOf(cats, c)[a] < IndexesOf(cats, c)[b]
  {
    if cats != [] {
      IndexesMeaning(cats[..|cats| - 1], c);
    }
  }

  function Pick(probs: seq<real>, labels: seq<int>, idxs: seq<nat>): seq<Sample>
    requires |probs| == |labels| && forall k :: 0 <= k < |idxs| ==> idxs[k] < |probs|
  {
    seq(|idxs|, k requires 0 <= k < |idxs| => Sample(probs[idxs[k]], labels[idxs[k]]))
  }

  /** What the suggestion for one category must be. */
  ghost predicate Suggested(s: seq<Sample>, round3: real -> real, value: real) {
    if |s| < 5 || (forall x :: x in s ==> x.y != 1) || (forall x :: x in s ==> x.y != 0) then value == 0.45
    else Separable(s) && exists t :: Optimal(s, t) && value == round3(t)
  }

  /** The suggestion for the samples of category `c`. */
  ghost predicate SuggestedFor(probs: seq<real>, labels: seq<int>, cats: seq<string>, c: string,
                               round3: real -> real, value: real)
    requires |probs| == |labels| == |cats|
  {
    Suggested(Pick(probs, labels, IndexesOf(cats, c)), round3, value)
  }

  /** `names` lists the keys of the dictionary in insertion order. */
  method GroupByCategory(cats: seq<string>) returns (byCat: map<string, seq<nat>>, names: seq<string>)
    ensures byCat.Keys == (set c | c in cats) == (set c | c in names)
    ensures forall c :: c in byCat ==> byCat[c] == IndexesOf(cats, c)
  {
    byCat, names := map[], [];
    for i := 0 to |cats|
      invariant byCat.Keys == (set c | c in cats[..i]) == (set c | c in names)
      invariant forall c :: c in byCat ==> byCat[c] == IndexesOf(cats[..i], c)
    {
      assert cats[..i + 1][..i] == cats[..i];
      NotYetIndexed(cats[..i], cats[i]);
      if cats[i] !in byCat {
        byCat := byCat[cats[i] := []];
        names := names + [cats[i]];
      }
      byCat := byCat[cats[i] := byCat[cats[i]] + [i]];
    }
    assert cats[..|cats|] == cats;
  }

  method SuggestThresholds(probs: seq<real>, labels: seq<int>, cats: seq<string>, round3: real -> real)
    returns (out: map<string, real>)
    requires |probs| == |labels| == |cats|
    ensures out.Keys == set c | c in cats
    ensures forall c :: c in out ==> SuggestedFor(probs, labels, cats, c, round3, out[c])
  {
    var byCat, names := GroupByCategory(cats);
    out := map[];
    for n := 0 to |names|
      invariant out.Keys == set c | c in names[..n]
      invariant forall c :: c in out ==> SuggestedFor(probs, labels, cats, c, round3, out[c])
    {
      var c := names[n];
      assert c in byCat.Keys;
      var value := SuggestFor(probs, labels, cats, c, byCat[c], round3);
      out := out[c := value];
    }
    assert names[..|names|] == names;
  }

  method SuggestFor(probs: seq<real>, labels: seq<int>, cats: seq<string>, c: string, idxs: seq<nat>, round3: real -> real)
    returns (value: real)
    requires |probs| == |labels| == |cats| && idxs == IndexesOf(cats, c)
    ensures SuggestedFor(probs, labels, cats, c, round3, value)
  {
    value := SuggestOne(Pick(probs, labels, idxs), round3);
  }

  method SuggestOne(s: seq<Sample>, round3: real -> real) returns (value: real)
    ensures Suggested(s, round3, value)
  {
    ClassPresent(s, 1);
    ClassPresent(s, 0);
    if |s| < MIN_SAMPLES || CountIf(s, Labelled(1)) == 0 || CountIf(s, Labelled(0)) == 0 {
      return FALLBACK;
    }
    var t, _ := BestThreshold(s);
    return round3(t);
  }

  lemma {:induction false} NotYetIndexed(cats: seq<string>, c: string)
    ensures c !in cats ==> IndexesOf(cats, c) == []
  {
    if cats != [] {
      NotYetIndexed(cats[..|cats| - 1], c);
    }
  }
}
