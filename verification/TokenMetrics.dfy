/** benchmarks/locomo_bench_llm.py:186-227: token F1 and ROUGE-L. Texts are the token lists the
    tokeniser produces. */
module TokenMetrics {
  import opened Arithmetic
  import opened Sequences

  type Tokens = seq<string>

  // ---------------------------------------------------------------------------------------
  // The longest common subsequence.

  ghost predicate Common(s: Tokens, p: Tokens, g: Tokens) {
    Subseq(s, p) && Subseq(s, g)
  }

  function Lcs(p: Tokens, g: Tokens): nat
    decreases |p| + |g|
  {
    if p == [] || g == [] then 0
    else
      var p', g' := p[..|p| - 1], g[..|g| - 1];
      if p[|p| - 1] == g[|g| - 1] then Lcs(p', g') + 1 else Max(Lcs(p', g), Lcs(p, g'))
  }

  /** Some common subsequence is that long. */
  lemma {:induction false} LcsAttained(p: Tokens, g: Tokens) returns (s: Tokens)
    ensures Common(s, p, g) && |s| == Lcs(p, g)
    decreases |p| + |g|
  {
    s := [];
    if p != [] && g != [] {
      var p', g', x := p[..|p| - 1], g[..|g| - 1], p[|p| - 1];
      assert p == p' + [x] && g == g' + [g[|g| - 1]];
      if x == g[|g| - 1] {
        var t := LcsAttained(p', g');
        s := t + [x];
        SubseqOf([x]);
        SubseqAppend(t, p', [x], [x]);
        SubseqAppend(t, g', [x], [x]);
      } else if Lcs(p', g) >= Lcs(p, g') {
        s := LcsAttained(p', g);
        SubseqLonger(s, p', x);
      } else {
        s := LcsAttained(p, g');
        SubseqLonger(s, g', g[|g| - 1]);
      }
    }
  }

  lemma SubseqLonger(s: Tokens, p: Tokens, x: string)
    requires Subseq(s, p)
    ensures Subseq(s, p + [x])
  {
    SubseqAppend(s, p, [], [x]);
    assert s + [] == s;
  }

  /** A subsequence of a list either ends with the list's last token or avoids it. */
  lemma {:induction false} SubseqLast(s: Tokens, p: Tokens, x: string)
    requires Subseq(s, p + [x]) && s != []
    ensures (s[|s| - 1] == x && Subseq(s[..|s| - 1], p)) || Subseq(s, p)
  {
    var t := p + [x];
    if p == [] {
      SubseqMembers(s, t);
      assert s == [s[0]] + s[1..];
      assert s[..|s| - 1] == [];
    } else {
      assert t[1..] == p[1..] + [x];
      if s[0] == t[0] && Subseq(s[1..], t[1..]) {
        if s[1..] == [] {
          assert Subseq(s, p);
        } else {
          SubseqLast(s[1..], p[1..], x);
          assert s[1..][..|s| - 2] == s[..|s| - 1][1..];
        }
      } else {
        SubseqLast(s, p[1..], x);
      }
    }
  }

  /** No common subsequence is longer. */
  lemma {:induction false} LcsLongest(s: Tokens, p: Tokens, g: Tokens)
    requires Common(s, p, g)
    ensures |s| <= Lcs(p, g)
    decreases |p| + |g|
  {
    if s != [] {
      var p', g', x, y := p[..|p| - 1], g[..|g| - 1], p[|p| - 1], g[|g| - 1];
      assert p == p' + [x] && g == g' + [y];
      SubseqLast(s, p', x);
      SubseqLast(s, g', y);
      if x == y {
        var s' := s[..|s| - 1];
        ButLast(s, p');
        ButLast(s, g');
        LcsLongest(s', p', g');
      } else if Subseq(s, p') {
        LcsLongest(s, p', g);
      } else {
        LcsLongest(s, p, g');
      }
    }
  }

  lemma ButLast(s: Tokens, p: Tokens)
    requires s != []
    ensures Subseq(s, p) ==> Subseq(s[..|s| - 1], p)
  {
    if Subseq(s, p) {
      SubseqPrefix(s[..|s| - 1], s, p);
    }
  }

  lemma {:induction false} SubseqPrefix(r: Tokens, s: Tokens, p: Tokens)
    requires r <= s && Subseq(s, p)
    ensures Subseq(r, p)
    decreases p
  {
    if r != [] {
      if s[0] == p[0] && Subseq(s[1..], p[1..]) {
        SubseqPrefix(r[1..], s[1..], p[1..]);
      } else {
        SubseqPrefix(r, s, p[1..]);
      }
    }
  }

  lemma LcsBounds(p: Tokens, g: Tokens)
    ensures Lcs(p, g) <= |p| && Lcs(p, g) <= |g|
    ensures Lcs(p, g) == Lcs(g, p)
    ensures Lcs(p, g) == |p| == |g| <==> p == g
  {
    var s := LcsAttained(p, g);
    var t := LcsAttained(g, p);
    SubseqMembers(s, p);
    SubseqMembers(s, g);
    LcsLongest(s, g, p);
    LcsLongest(t, p, g);
    if p == g {
      SubseqOf(p);
      LcsLongest(p, p, g);
    }
    if |s| == |p| == |g| {
      SubseqWhole(s, p);
      SubseqWhole(s, g);
    }
  }

  lemma {:induction false} SubseqWhole(s: Tokens, p: Tokens)
    requires Subseq(s, p) && |s| == |p|
    ensures s == p
  {
    if s != [] {
      if s[0] == p[0] && Subseq(s[1..], p[1..]) {
        SubseqWhole(s[1..], p[1..]);
      } else {
        SubseqMembers(s, p[1..]);
      }
    }
  }

  // ---------------------------------------------------------------------------------------
  // ROUGE-L.

  /** 2xy / (x + y), or 0 when both are 0: the mean of precision `c / n` and recall `c / m`. */
  function Harmonic(c: nat, n: nat, m: nat): real
    requires n > 0 && m > 0
  {
    var prec, rec := c as real / n as real, c as real / m as real;
    if prec + rec == 0.0 then 0.0 else 2.0 * prec * rec / (prec + rec)
  }

  /** The filled table's last cell. */
  method LcsTable(p: Tokens, g: Tokens) returns (lcs: nat)
    ensures lcs == Lcs(p, g)
  {
    var n, m := |p|, |g|;
    var dp := new nat[n + 1, m + 1]((i, j) => 0);
    for i := 1 to n + 1
      invariant forall k {:trigger dp[k, 0]} :: 0 <= k <= n ==> dp[k, 0] == 0
      invariant forall k, l {:trigger dp[k, l]} :: 0 <= k < i && 0 <= l <= m ==> dp[k, l] == Lcs(p[..k], g[..l])
    {
      for j := 1 to m + 1
        invariant forall k {:trigger dp[k, 0]} :: 0 <= k <= n ==> dp[k, 0] == 0
        invariant forall k, l {:trigger dp[k, l]} :: 0 <= k < i && 0 <= l <= m ==> dp[k, l] == Lcs(p[..k], g[..l])
        invariant forall l {:trigger dp[i, l]} :: 0 <= l < j ==> dp[i, l] == Lcs(p[..i], g[..l])
      {
        LastTokens(p[..i], g[..j], p[..i - 1], g[..j - 1]);
        if p[i - 1] == g[j - 1] {
          dp[i, j] := dp[i - 1, j - 1] + 1;
        } else {
          dp[i, j] := Max(dp[i - 1, j], dp[i, j - 1]);
        }
      }
    }
    assert p[..n] == p && g[..m] == g;
    return dp[n, m];
  }

  function Rouge(p: Tokens, g: Tokens): real {
    if p == [] || g == [] then 0.0 else Harmonic(Lcs(p, g), |p|, |g|)
  }

  method RougeL(p: Tokens, g: Tokens) returns (score: real)
    ensures score == Rouge(p, g)
  {
    if p == [] || g == [] {
      return 0.0;
    }
    var lcs := LcsTable(p, g);
    var prec, rec := lcs as real / |p| as real, lcs as real / |g| as real;
    if prec + rec == 0.0 {
      return 0.0;
    }
    return 2.0 * prec * rec / (prec + rec);
  }

  lemma LastTokens(p: Tokens, g: Tokens, p': Tokens, g': Tokens)
    requires p != [] && g != [] && p' == p[..|p| - 1] && g' == g[..|g| - 1]
    ensures Lcs(p, g) == if p[|p| - 1] == g[|g| - 1] then Lcs(p', g') + 1 else Max(Lcs(p', g), Lcs(p, g'))
  {
  }

  /** The harmonic mean of c/n and c/m is 2c / (n + m). */
  lemma HarmonicIsDice(c: nat, n: nat, m: nat)
    requires n > 0 && m > 0
    ensures Harmonic(c, n, m) == 2.0 * c as real / (n + m) as real
  {
    var x, y, k := n as real, m as real, c as real;
    var prec, rec := k / x, k / y;
    assert prec * x == k && rec * y == k;
    if c > 0 {
      Quotient(k, x, y, prec, rec);
    } else {
      assert prec == 0.0 && rec == 0.0;
    }
  }

  lemma Quotient(k: real, x: real, y: real, prec: real, rec: real)
    requires x > 0.0 && y > 0.0 && k > 0.0 && prec * x == k && rec * y == k
    ensures prec > 0.0 && rec > 0.0
    ensures 2.0 * prec * rec / (prec + rec) == 2.0 * k / (x + y)
  {
    if prec <= 0.0 { NotPositive(prec, x); }
    if rec <= 0.0 { NotPositive(rec, y); }
    // (prec + rec) * k == prec * rec * (x + y), both sides being k * prec + k * rec
    assert prec * rec * x == k * rec && prec * rec * y == k * prec;
  }

  /** ROUGE-L is 2 * LCS / (n + m), is symmetric and lies in [0, 1]; it is 1 exactly for equal
      non-empty token lists. */
  lemma {:induction false} RougeLaws(p: Tokens, g: Tokens)
    ensures p == [] || g == [] ==> Rouge(p, g) == 0.0
    ensures p != [] && g != [] ==> Rouge(p, g) == 2.0 * Lcs(p, g) as real / (|p| + |g|) as real
    ensures Rouge(p, g) == Rouge(g, p)
    ensures 0.0 <= Rouge(p, g) <= 1.0
    ensures Rouge(p, g) == 1.0 <==> p == g && p != []
  {
    if p != [] && g != [] {
      HarmonicIsDice(Lcs(p, g), |p|, |g|);
      HarmonicIsDice(Lcs(g, p), |g|, |p|);
      LcsBounds(p, g);
      DiceBounds(Lcs(p, g), |p| + |g|);
    }
  }

  lemma DiceBounds(c: nat, total: nat)
    requires total > 0 && 2 * c <= total
    ensures 0.0 <= 2.0 * c as real / total as real <= 1.0
    ensures 2.0 * c as real / total as real == 1.0 <==> 2 * c == total
  {
    FractionCompare(2.0 * c as real, total as real);
  }

  // ---------------------------------------------------------------------------------------
  // Token F1.

  function Overlap(p: Tokens, g: Tokens): nat { |multiset(p) * multiset(g)| }

  function F1(p: Tokens, g: Tokens): real {
    if p == [] || g == [] then (if p == g then 1.0 else 0.0) else Harmonic(Overlap(p, g), |p|, |g|)
  }

  function Total(keys: seq<string>, common: map<string, nat>): nat
    requires forall k :: k in keys ==> k in common
  {
    if keys == [] then 0 else common[keys[0]] + Total(keys[1..], common)
  }

  /** Adding up the multiplicities of distinct keys that cover a multiset gives its size. */
  lemma {:induction false} TotalIsSize(keys: seq<string>, common: map<string, nat>, m: multiset<string>)
    requires forall i, j :: 0 <= i < j < |keys| ==> keys[i] != keys[j]
    requires forall k :: k in keys ==> k in common && common[k] == m[k]
    requires forall k :: k in m ==> k in keys
    ensures Total(keys, common) == |m|
  {
    if keys == [] {
      assert m == multiset{};
    } else {
      var k := keys[0];
      var rest := m[k := 0];
      assert m == rest[k := m[k]];
      assert keys == [k] + keys[1..];
      TotalIsSize(keys[1..], common, rest);
    }
  }

  /** `keys` lists the keys of the `common` dictionary in insertion order. */
  method NumSame(p: Tokens, g: Tokens) returns (same: nat)
    ensures same == Overlap(p, g)
  {
    var keys: seq<string> := [];
    var common: map<string, nat> := map[];
    for i := 0 to |p|
      invariant forall k :: k in keys <==> k in common
      invariant forall k :: k in p[..i] ==> k in common
      invariant forall k :: k in common ==> common[k] == Min(multiset(p)[k], multiset(g)[k])
      invariant forall a, b :: 0 <= a < b < |keys| ==> keys[a] != keys[b]
    {
      if p[i] !in common {
        keys := keys + [p[i]];
      }
      common := common[p[i] := Min(multiset(p)[p[i]], multiset(g)[p[i]])];
    }
    ghost var m := multiset(p) * multiset(g);
    forall k | k in m ensures k in keys {
      assert k in p && p[..|p|] == p;
    }
    TotalIsSize(keys, common, m);
    same := 0;
    for i := 0 to |keys|
      invariant same + Total(keys[i..], common) == Total(keys, common)
    {
      same := same + common[keys[i]];
      assert keys[i..][1..] == keys[i + 1..];
    }
  }

  method F1Score(p: Tokens, g: Tokens) returns (score: real)
    ensures score == F1(p, g)
  {
    if p == [] || g == [] {
      return if p == g then 1.0 else 0.0;
    }
    var same := NumSame(p, g);
    if same == 0 {
      return 0.0;
    }
    var prec, rec := same as real / |p| as real, same as real / |g| as real;
    assert prec + rec != 0.0 by {
      FractionOrder(0.0, same as real, |p| as real);
      FractionOrder(0.0, same as real, |g| as real);
    }
    return 2.0 * prec * rec / (prec + rec);
  }

  /** F1 is symmetric and lies in [0, 1]; it is 1 exactly when the lists are permutations of
      each other. */
  lemma {:induction false} F1Laws(p: Tokens, g: Tokens)
    ensures p != [] && g != [] ==>
              F1(p, g) == 2.0 * |multiset(p) * multiset(g)| as real / (|p| + |g|) as real
    ensures (p == []) != (g == []) ==> F1(p, g) == 0.0
    ensures F1(p, g) == F1(g, p)
    ensures 0.0 <= F1(p, g) <= 1.0
    ensures F1(p, g) == 1.0 <==> multiset(p) == multiset(g)
  {
    OverlapLaws(p, g);
    OverlapLaws(g, p);
    if p != [] && g != [] {
      HarmonicIsDice(Overlap(p, g), |p|, |g|);
      HarmonicIsDice(Overlap(g, p), |g|, |p|);
      DiceBounds(Overlap(p, g), |p| + |g|);
    } else {
      assert |multiset(p)| == |p| && |multiset(g)| == |g|;
    }
  }

  lemma OverlapLaws(p: Tokens, g: Tokens)
    ensures Overlap(p, g) == Overlap(g, p)
    ensures Overlap(p, g) <= |p| && Overlap(p, g) <= |g|
    ensures 2 * Overlap(p, g) == |p| + |g| <==> multiset(p) == multiset(g)
  {
    var a, b := multiset(p), multiset(g);
    assert |a| == |p| && |b| == |g|;
    assert a * b == b * a;
    MultisetSize(a * b, a);
    MultisetSize(a * b, b);
    if a == b {
      assert a * b == a;
    }
    if |a * b| == |a| == |b| {
      SameSize(a * b, a);
      SameSize(a * b, b);
    }
  }

  lemma SameSize(a: multiset<string>, b: multiset<string>)
    requires a <= b && |a| == |b|
    ensures a == b
  {
    assert b == a + (b - a);
  }

  /** A common subsequence fits inside the multiset overlap, so ROUGE-L never exceeds F1. */
  lemma {:induction false} RougeAtMostF1(p: Tokens, g: Tokens)
    ensures Rouge(p, g) <= F1(p, g)
  {
    if p != [] && g != [] {
      var s := LcsAttained(p, g);
      SubseqMembers(s, p);
      SubseqMembers(s, g);
      MultisetSize(multiset(s), multiset(p) * multiset(g));
      HarmonicIsDice(Lcs(p, g), |p|, |g|);
      HarmonicIsDice(Overlap(p, g), |p|, |g|);
      if Lcs(p, g) < Overlap(p, g) {
        FractionOrder(2.0 * Lcs(p, g) as real, 2.0 * Overlap(p, g) as real, (|p| + |g|) as real);
      }
    }
  }

  lemma MultisetSize(a: multiset<string>, b: multiset<string>)
    requires a <= b
    ensures |a| <= |b|
  {
    assert b == a + (b - a);
  }
}
