/** src/canonical_tags.py:167-190: the rolling two-row Levenshtein ratio, against the least
    number of single-character edits. */
module EditDistance {
  import opened Arithmetic

  // ---------------------------------------------------------------------------------------
  // The recurrence over prefixes.

  function Gap(a: string, b: string): nat {
    if |a| >= |b| then |a| - |b| else |b| - |a|
  }

  function Cost(x: char, y: char): nat { if x == y then 0 else 1 }

  function Distance(a: string, b: string): nat
    decreases |a| + |b|
  {
    if a == [] then |b|
    else if b == [] then |a|
    else
      var a', b' := a[..|a| - 1], b[..|b| - 1];
      Min(Min(Distance(a', b) + 1, Distance(a, b') + 1),
          Distance(a', b') + Cost(a[|a| - 1], b[|b| - 1]))
  }

  lemma {:induction false} DistanceBounds(a: string, b: string)
    ensures Gap(a, b) <= Distance(a, b) <= Max(|a|, |b|)
    decreases |a| + |b|
  {
    if a != [] && b != [] {
      DistanceBounds(a[..|a| - 1], b);
      DistanceBounds(a, b[..|b| - 1]);
      DistanceBounds(a[..|a| - 1], b[..|b| - 1]);
    }
  }

  lemma {:induction false} Symmetric(a: string, b: string)
    ensures Distance(a, b) == Distance(b, a)
    decreases |a| + |b|
  {
    if a != [] && b != [] {
      Symmetric(a[..|a| - 1], b);
      Symmetric(a, b[..|b| - 1]);
      Symmetric(a[..|a| - 1], b[..|b| - 1]);
    }
  }

  lemma {:induction false} ZeroExactlyWhenEqual(a: string, b: string)
    ensures Distance(a, b) == 0 <==> a == b
  {
    if a != [] && b != [] {
      var a', b' := a[..|a| - 1], b[..|b| - 1];
      ZeroExactlyWhenEqual(a', b');
      assert a == a' + [a[|a| - 1]] && b == b' + [b[|b| - 1]];
    }
  }

  lemma {:induction false} Triangle(a: string, b: string, c: string)
    ensures Distance(a, c) <= Distance(a, b) + Distance(b, c)
    decreases |a| + |b| + |c|
  {
    if a == [] || b == [] || c == [] {
      DistanceBounds(a, b);
      DistanceBounds(b, c);
      DistanceBounds(a, c);
    } else {
      var a', b', c' := a[..|a| - 1], b[..|b| - 1], c[..|c| - 1];
      Triangle(a', b, c);
      Triangle(a, b, c');
      Triangle(a, b', c);
      Triangle(a, b', c');
      Triangle(a', b', c);
      Triangle(a', b', c');
    }
  }

  // ---------------------------------------------------------------------------------------
  // The independent meaning: chains of single-character edits.

  /** `t` is `s` with one character deleted, inserted or replaced. */
  ghost predicate OneEdit(s: string, t: string) {
    exists i: nat :: EditAt(s, t, i)
  }

  ghost predicate EditAt(s: string, t: string, i: nat) {
    i <= |s| && i <= |t| && s[..i] == t[..i] &&
    (|| (i < |s| && t[i..] == s[i + 1..])
     || (i < |t| && s[i..] == t[i + 1..])
     || (i < |s| && i < |t| && s[i + 1..] == t[i + 1..]))
  }

  /** `b` can be reached from `a` by `k` single-character edits. */
  ghost predicate Reaches(a: string, b: string, k: nat)
    decreases k
  {
    if k == 0 then a == b else exists mid :: OneEdit(a, mid) && Reaches(mid, b, k - 1)
  }

  lemma {:induction false} CommonSuffix(a: string, b: string, c: string)
    ensures Distance(a + c, b + c) <= Distance(a, b)
  {
    if c == [] {
      assert a + c == a && b + c == b;
    } else {
      var c' := c[..|c| - 1];
      CommonSuffix(a, b, c');
      assert (a + c)[..|a + c| - 1] == a + c' && (b + c)[..|b + c| - 1] == b + c';
    }
  }

  lemma OneEditCostsOne(s: string, t: string)
    requires OneEdit(s, t)
    ensures Distance(s, t) <= 1
  {
    var i: nat :| EditAt(s, t, i);
    if i < |s| && t[i..] == s[i + 1..] {
      Parts(s, t, i);
      DropOne(s[..i], s[i], t[i..]);
    } else if i < |t| && s[i..] == t[i + 1..] {
      Parts(t, s, i);
      DropOne(t[..i], t[i], s[i..]);
    } else {
      ReplaceMiddle(s, t, i);
    }
  }

  lemma Parts(s: string, t: string, i: nat)
    requires i < |s| && i <= |t| && s[..i] == t[..i] && t[i..] == s[i + 1..]
    ensures s == s[..i] + [s[i]] + t[i..] && t == s[..i] + t[i..]
  {
  }

  lemma ReplaceMiddle(s: string, t: string, i: nat)
    requires i < |s| && i < |t| && s[..i] == t[..i] && s[i + 1..] == t[i + 1..]
    ensures Distance(s, t) <= 1
  {
    var p, q := s[..i], s[i + 1..];
    ReplaceLast(p, s[i], t[i]);
    CommonSuffix(p + [s[i]], p + [t[i]], q);
    assert s == p + [s[i]] + q && t == p + [t[i]] + q;
  }

  lemma DropOne(p: string, x: char, q: string)
    ensures Distance(p + [x] + q, p + q) <= 1 && Distance(p + q, p + [x] + q) <= 1
  {
    ExtendByOne(p, x);
    CommonSuffix(p + [x], p, q);
    CommonSuffix(p, p + [x], q);
  }

  lemma ReplaceLast(p: string, x: char, y: char)
    ensures Distance(p + [x], p + [y]) <= 1
  {
    ZeroExactlyWhenEqual(p, p);
    assert (p + [x])[..|p|] == p && (p + [y])[..|p|] == p;
  }

  lemma ExtendByOne(p: string, x: char)
    ensures Distance(p + [x], p) <= 1 && Distance(p, p + [x]) <= 1
  {
    ZeroExactlyWhenEqual(p, p);
    assert (p + [x])[..|p|] == p;
  }

  /** No chain of edits is shorter than the distance. */
  lemma {:induction false} NoScriptIsShorter(a: string, b: string, k: nat)
    requires Reaches(a, b, k)
    ensures Distance(a, b) <= k
    decreases k
  {
    if k == 0 {
      ZeroExactlyWhenEqual(a, b);
    } else {
      var mid :| OneEdit(a, mid) && Reaches(mid, b, k - 1);
      OneEditCostsOne(a, mid);
      NoScriptIsShorter(mid, b, k - 1);
      Triangle(a, mid, b);
    }
  }

  lemma {:induction false} ReachesJoin(a: string, b: string, c: string, j: nat, k: nat)
    requires Reaches(a, b, j) && Reaches(b, c, k)
    ensures Reaches(a, c, j + k)
    decreases j
  {
    if j > 0 {
      var mid :| OneEdit(a, mid) && Reaches(mid, b, j - 1);
      ReachesJoin(mid, b, c, j - 1, k);
    }
  }

  lemma {:induction false} ReachesWithSuffix(a: string, b: string, x: char, k: nat)
    requires Reaches(a, b, k)
    ensures Reaches(a + [x], b + [x], k)
    decreases k
  {
    if k > 0 {
      var mid :| OneEdit(a, mid) && Reaches(mid, b, k - 1);
      ReachesWithSuffix(mid, b, x, k - 1);
      var i: nat :| EditAt(a, mid, i);
      EditWithSuffix(a, mid, x, i);
      assert OneEdit(a + [x], mid + [x]) && Reaches(mid + [x], b + [x], k - 1);
    }
  }

  lemma EditWithSuffix(a: string, b: string, x: char, i: nat)
    requires EditAt(a, b, i)
    ensures EditAt(a + [x], b + [x], i)
  {
    var s, t := a + [x], b + [x];
    assert s[..i] == a[..i] && t[..i] == b[..i];
    assert s[i..] == a[i..] + [x] && t[i..] == b[i..] + [x];
    assert i < |a| ==> s[i + 1..] == a[i + 1..] + [x];
    assert i < |b| ==> t[i + 1..] == b[i + 1..] + [x];
  }

  lemma OneStep(a: string, b: string, i: nat)
    requires EditAt(a, b, i)
    ensures Reaches(a, b, 1)
  {
    assert OneEdit(a, b) && Reaches(b, b, 0);
  }

  /** Some chain of edits is as short as the distance. */
  lemma {:induction false} SomeScriptAttains(a: string, b: string)
    ensures Reaches(a, b, Distance(a, b))
    decreases |a| + |b|
  {
    if a == [] && b == [] {
    } else if b == [] || (a != [] && Distance(a, b) == Distance(a[..|a| - 1], b) + 1) {
      SomeScriptAttains(a[..|a| - 1], b);
      DeleteFirst(a, b, Distance(a[..|a| - 1], b));
      DistanceBounds(a, b);
    } else if a == [] || Distance(a, b) == Distance(a, b[..|b| - 1]) + 1 {
      SomeScriptAttains(a, b[..|b| - 1]);
      InsertLast(a, b, Distance(a, b[..|b| - 1]));
    } else {
      SomeScriptAttains(a[..|a| - 1], b[..|b| - 1]);
      ReplaceAtEnd(a, b, Distance(a[..|a| - 1], b[..|b| - 1]));
    }
  }

  lemma DeleteFirst(a: string, b: string, k: nat)
    requires a != [] && Reaches(a[..|a| - 1], b, k)
    ensures Reaches(a, b, k + 1)
  {
    var a' := a[..|a| - 1];
    assert EditAt(a, a', |a'|);
    OneStep(a, a', |a'|);
    ReachesJoin(a, a', b, 1, k);
  }

  lemma InsertLast(a: string, b: string, k: nat)
    requires b != [] && Reaches(a, b[..|b| - 1], k)
    ensures Reaches(a, b, k + 1)
  {
    var b' := b[..|b| - 1];
    assert EditAt(b', b, |b'|);
    OneStep(b', b, |b'|);
    ReachesJoin(a, b', b, k, 1);
  }

  lemma ReplaceAtEnd(a: string, b: string, k: nat)
    requires a != [] && b != [] && Reaches(a[..|a| - 1], b[..|b| - 1], k)
    ensures Reaches(a, b, k + Cost(a[|a| - 1], b[|b| - 1]))
  {
    var a', b', x, y := a[..|a| - 1], b[..|b| - 1], a[|a| - 1], b[|b| - 1];
    ReachesWithSuffix(a', b', x, k);
    assert a == a' + [x] && b == b' + [y];
    if x != y {
      var mid := b' + [x];
      assert mid[..|b'|] == b' && b[..|b'|] == b';
      assert EditAt(mid, b, |b'|);
      OneStep(mid, b, |b'|);
      ReachesJoin(a, mid, b, k, 1);
    }
  }

  // ---------------------------------------------------------------------------------------
  // The ratio.

  /** The ratio with the distance always computed. */
  function FullRatio(a: string, b: string): real
    requires a != [] || b != []
  {
    1.0 - Distance(a, b) as real / Max(|a|, |b|) as real
  }

  /** The length gap is more than half of the longer string. */
  predicate TooDifferent(a: string, b: string)
    requires a != [] || b != []
  {
    Gap(a, b) as real / Max(|a|, |b|) as real > 0.5
  }

  function Ratio(a: string, b: string): real {
    if a == [] || b == [] then 0.0
    else if a == b then 1.0
    else if TooDifferent(a, b) then 0.0
    else FullRatio(a, b)
  }

  /** The ratio in terms of edits: a pair whose lengths differ by more than half of the longer gets
      0, any other pair of non-empty strings the part of the longer length that the least number of
      edits leaves. */
  lemma RatioMeaning(a: string, b: string, k: nat)
    requires a != [] && b != [] && Reaches(a, b, k) && forall j: nat :: Reaches(a, b, j) ==> k <= j
    ensures var longer := if |a| >= |b| then |a| else |b|;
            var gap := if |a| >= |b| then |a| - |b| else |b| - |a|;
            Ratio(a, b) == if 2 * gap > longer then 0.0 else (longer - k) as real / longer as real
  {
    SomeScriptAttains(a, b);
    NoScriptIsShorter(a, b, k);
    RatioOfDistance(a, b, k);
  }

  lemma RatioOfDistance(a: string, b: string, k: nat)
    requires a != [] && b != [] && k == Distance(a, b)
    ensures Ratio(a, b) == if 2 * Gap(a, b) > Max(|a|, |b|) then 0.0
                           else (Max(|a|, |b|) - k) as real / Max(|a|, |b|) as real
  {
    ZeroExactlyWhenEqual(a, b);
    DistanceBounds(a, b);
    var m := Max(|a|, |b|) as real;
    Halves(Gap(a, b) as real, m);
    Leaves(k as real, m);
    SelfRatio(m);
  }

  lemma Halves(gap: real, m: real)
    requires m > 0.0
    ensures gap / m > 0.5 <==> 2.0 * gap > m
  {
    FractionOrder(m / 2.0, gap, m);
    var half := m / 2.0 / m;
    assert half * m == m / 2.0;
    assert half == 0.5 by {
      SameFactor(half, 0.5, m);
    }
  }

  lemma Leaves(k: real, m: real)
    requires m > 0.0
    ensures 1.0 - k / m == (m - k) / m
  {
    var q, r := k / m, (m - k) / m;
    assert q * m == k && r * m == m - k;
    var w := 1.0 - q;
    assert w * m == m - q * m;
    SameFactor(w, r, m);
  }

  /** The two rolling rows of the dynamic program. */
  method RollingRows(a: string, b: string) returns (distance: nat)
    ensures distance == Distance(a, b)
  {
    var m, n := |a|, |b|;
    var prev: seq<nat> := seq(n + 1, j => j);
    for i := 1 to m + 1
      invariant RowOf(prev, a[..i - 1], b, n + 1)
    {
      prev := NextRow(prev, a, b, i);
    }
    assert a[..m] == a && b[..n] == b;
    return prev[n];
  }

  method NextRow(prev: seq<nat>, a: string, b: string, i: nat) returns (curr: seq<nat>)
    requires 1 <= i <= |a| && RowOf(prev, a[..i - 1], b, |b| + 1)
    ensures RowOf(curr, a[..i], b, |b| + 1)
  {
    curr := [i] + seq(|b|, j => 0);
    for j := 1 to |b| + 1
      invariant RowOf(curr, a[..i], b, j)
    {
      var cost := if a[i - 1] == b[j - 1] then 0 else 1;
      var best := Min(Min(prev[j] + 1, curr[j - 1] + 1), prev[j - 1] + cost);
      ExtendRow(prev, curr, best, a, b, i, j);
      curr := curr[j := best];
    }
  }

  lemma {:induction false} ExtendRow(prev: seq<nat>, curr: seq<nat>, best: nat, a: string, b: string, i: nat, j: nat)
    requires 1 <= i <= |a| && 1 <= j <= |b|
    requires RowOf(prev, a[..i - 1], b, |b| + 1) && RowOf(curr, a[..i], b, j)
    requires best == Min(Min(prev[j] + 1, curr[j - 1] + 1), prev[j - 1] + Cost(a[i - 1], b[j - 1]))
    ensures RowOf(curr[j := best], a[..i], b, j + 1)
  {
    assert best == Distance(a[..i], b[..j]) by {
      LastCharacters(a[..i], b[..j], a[..i - 1], b[..j - 1]);
    }
  }

  /** The first `filled` cells of a row hold the distances to the prefixes of `b`. */
  ghost predicate RowOf(row: seq<nat>, prefix: string, b: string, filled: nat) {
    && |row| == |b| + 1 && filled <= |row|
    && forall j {:trigger row[j]} :: 0 <= j < filled ==> row[j] == Distance(prefix, b[..j])
  }

  lemma {:induction false} LastCharacters(p: string, q: string, p': string, q': string)
    requires p != [] && q != [] && p' == p[..|p| - 1] && q' == q[..|q| - 1]
    ensures Distance(p, q) == Min(Min(Distance(p', q) + 1, Distance(p, q') + 1),
                                  Distance(p', q') + Cost(p[|p| - 1], q[|q| - 1]))
  {
  }

  method LevenshteinRatio(a: string, b: string) returns (ratio: real)
    ensures ratio == Ratio(a, b)
  {
    if a == [] || b == [] {
      return 0.0;
    }
    if a == b {
      return 1.0;
    }
    var m, n := |a|, |b|;
    if Gap(a, b) as real / Max(m, n) as real > 0.5 {
      return 0.0;
    }
    var distance := RollingRows(a, b);
    return 1.0 - distance as real / Max(m, n) as real;
  }

  /** The ratio lies in [0, 1], is symmetric, and is 1 exactly for equal non-empty strings. */
  lemma RatioLaws(a: string, b: string)
    ensures 0.0 <= Ratio(a, b) <= 1.0
    ensures Ratio(a, b) == Ratio(b, a)
    ensures Ratio(a, b) == 1.0 <==> a == b && a != []
  {
    if a != [] && b != [] {
      DistanceBounds(a, b);
      Symmetric(a, b);
      ZeroExactlyWhenEqual(a, b);
      FractionCompare(Distance(a, b) as real, Max(|a|, |b|) as real);
    }
  }

  /** A pair rejected for its lengths has a true ratio below one half; every other pair gets
      its true ratio. */
  lemma EarlyReject(a: string, b: string)
    requires a != [] || b != []
    ensures Ratio(a, b) == FullRatio(a, b) || (Ratio(a, b) == 0.0 && FullRatio(a, b) < 0.5)
    ensures 0.0 <= FullRatio(a, b)
  {
    DistanceBounds(a, b);
    ZeroExactlyWhenEqual(a, b);
    var d, m := Distance(a, b) as real, Max(|a|, |b|) as real;
    FractionCompare(d, m);
    FractionOrder(d, Gap(a, b) as real, m);
    if a == [] || b == [] {
      assert Distance(a, b) == Max(|a|, |b|);
    }
  }
}
