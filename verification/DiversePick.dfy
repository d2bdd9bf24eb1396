/** scripts/mine_locomo_fewshot.py:254-319: the three-pass greedy choice of few-shot examples. */
module DiversePick {
  import opened Arithmetic
  import opened Sequences

  datatype Pair = Pair(question: string, answer: string, sampleIdx: int, qaIdx: int)

  /** The three coarse labels of a pair, as arbitrary functions of its text. */
  datatype Labels = Labels(stem: string -> string, surface: string -> string, canon: string -> string)

  function Canons(l: Labels, s: seq<Pair>): set<string> { set p | p in s :: l.canon(p.answer) }

  function Stems(l: Labels, s: seq<Pair>): set<string> { set p | p in s :: l.stem(p.question) }

  function Surfaces(l: Labels, s: seq<Pair>): set<string> { set p | p in s :: l.surface(p.answer) }

  // ---------------------------------------------------------------------------------------
  // The passes, as scans of the pool. Each leaves a full selection alone.

  /** A new canonical answer that also brings a new stem or a new surface form. */
  predicate Novel(l: Labels, picked: seq<Pair>, p: Pair) {
    && l.canon(p.answer) !in Canons(l, picked)
    && (l.stem(p.question) !in Stems(l, picked) || l.surface(p.answer) !in Surfaces(l, picked))
  }

  function Diverse(l: Labels, pool: seq<Pair>, k: int): seq<Pair> {
    if pool == [] then []
    else
      var picked := Diverse(l, pool[..|pool| - 1], k);
      if |picked| < k && Novel(l, picked, pool[|pool| - 1]) then picked + [pool[|pool| - 1]] else picked
  }

  function FreshAnswers(l: Labels, start: seq<Pair>, pool: seq<Pair>, k: int): seq<Pair> {
    if pool == [] then start
    else
      var picked, p := FreshAnswers(l, start, pool[..|pool| - 1], k), pool[|pool| - 1];
      if |picked| < k && p !in picked && l.canon(p.answer) !in Canons(l, picked) then picked + [p] else picked
  }

  function TopUp(start: seq<Pair>, pool: seq<Pair>, k: int): seq<Pair> {
    if pool == [] then start
    else
      var picked, p := TopUp(start, pool[..|pool| - 1], k), pool[|pool| - 1];
      if |picked| < k && p !in picked then picked + [p] else picked
  }

  function Selection(l: Labels, pool: seq<Pair>, k: int): seq<Pair> {
    TopUp(FreshAnswers(l, Diverse(l, pool, k), pool, k), pool, k)
  }

  lemma {:induction false} DiverseFull(l: Labels, pool: seq<Pair>, k: int, n: nat)
    requires n <= |pool| && |Diverse(l, pool[..n], k)| >= k
    ensures Diverse(l, pool, k) == Diverse(l, pool[..n], k)
    decreases |pool|
  {
    if n == |pool| {
      assert pool[..n] == pool;
    } else {
      assert pool[..|pool| - 1][..n] == pool[..n];
      DiverseFull(l, pool[..|pool| - 1], k, n);
    }
  }

  lemma {:induction false} FreshFull(l: Labels, start: seq<Pair>, pool: seq<Pair>, k: int, n: nat)
    requires n <= |pool| && |FreshAnswers(l, start, pool[..n], k)| >= k
    ensures FreshAnswers(l, start, pool, k) == FreshAnswers(l, start, pool[..n], k)
    decreases |pool|
  {
    if n == |pool| {
      assert pool[..n] == pool;
    } else {
      assert pool[..|pool| - 1][..n] == pool[..n];
      FreshFull(l, start, pool[..|pool| - 1], k, n);
    }
  }

  lemma {:induction false} TopUpFull(start: seq<Pair>, pool: seq<Pair>, k: int, n: nat)
    requires n <= |pool| && |TopUp(start, pool[..n], k)| >= k
    ensures TopUp(start, pool, k) == TopUp(start, pool[..n], k)
    decreases |pool|
  {
    if n == |pool| {
      assert pool[..n] == pool;
    } else {
      assert pool[..|pool| - 1][..n] == pool[..n];
      TopUpFull(start, pool[..|pool| - 1], k, n);
    }
  }

  // ---------------------------------------------------------------------------------------
  // The program: three loops over growing seen-sets.

  method SelectDiverse(l: Labels, pool: seq<Pair>, k: int) returns (picked: seq<Pair>)
    ensures picked == Selection(l, pool, k)
  {
    var seenCanon: set<string>;
    picked, seenCanon := PassOne(l, pool, k);
    if |picked| < k {
      picked := PassTwo(l, picked, seenCanon, pool, k);
    } else {
      FreshFull(l, picked, pool, k, 0);
    }
    if |picked| < k {
      picked := PassThree(picked, pool, k);
    } else {
      TopUpFull(picked, pool, k, 0);
    }
    SelectionSize(l, pool, k);
    if k < 0 {
      return [];
    }
    assert picked[..|picked|] == picked;
    return picked[..if |picked| < k then |picked| else k];
  }

  method PassOne(l: Labels, pool: seq<Pair>, k: int) returns (picked: seq<Pair>, seenCanon: set<string>)
    ensures picked == Diverse(l, pool, k) && seenCanon == Canons(l, picked)
  {
    picked, seenCanon := [], {};
    var seenStems: set<string> := {};
    var seenSurfaces: set<string> := {};
    for n := 0 to |pool|
      invariant picked == Diverse(l, pool[..n], k) && seenCanon == Canons(l, picked)
      invariant seenStems == Stems(l, picked) && seenSurfaces == Surfaces(l, picked)
    {
      if |picked| >= k {
        DiverseFull(l, pool, k, n);
        return;
      }
      assert pool[..n + 1][..n] == pool[..n];
      var p := pool[n];
      if l.canon(p.answer) in seenCanon {
        continue;
      }
      var isNewStem, isNewSurface := l.stem(p.question) !in seenStems, l.surface(p.answer) !in seenSurfaces;
      if !(isNewStem || isNewSurface) {
        continue;
      }
      LabelsExtend(l, picked, p);
      picked := picked + [p];
      seenStems := seenStems + {l.stem(p.question)};
      seenSurfaces := seenSurfaces + {l.surface(p.answer)};
      seenCanon := seenCanon + {l.canon(p.answer)};
    }
    assert pool[..|pool|] == pool;
  }

  method PassTwo(l: Labels, start: seq<Pair>, canons: set<string>, pool: seq<Pair>, k: int) returns (picked: seq<Pair>)
    requires canons == Canons(l, start)
    ensures picked == FreshAnswers(l, start, pool, k)
  {
    picked := start;
    var seenCanon := canons;
    for n := 0 to |pool|
      invariant picked == FreshAnswers(l, start, pool[..n], k) && seenCanon == Canons(l, picked)
    {
      if |picked| >= k {
        FreshFull(l, start, pool, k, n);
        return;
      }
      assert pool[..n + 1][..n] == pool[..n];
      var p := pool[n];
      if p in picked {
        continue;
      }
      if l.canon(p.answer) in seenCanon {
        continue;
      }
      LabelsExtend(l, picked, p);
      picked := picked + [p];
      seenCanon := seenCanon + {l.canon(p.answer)};
    }
    assert pool[..|pool|] == pool;
  }

  method PassThree(start: seq<Pair>, pool: seq<Pair>, k: int) returns (picked: seq<Pair>)
    ensures picked == TopUp(start, pool, k)
  {
    picked := start;
    for n := 0 to |pool|
      invariant picked == TopUp(start, pool[..n], k)
    {
      if |picked| >= k {
        TopUpFull(start, pool, k, n);
        return;
      }
      assert pool[..n + 1][..n] == pool[..n];
      if pool[n] in picked {
        continue;
      }
      picked := picked + [pool[n]];
    }
    assert pool[..|pool|] == pool;
  }

  lemma LabelsExtend(l: Labels, s: seq<Pair>, p: Pair)
    ensures Canons(l, s + [p]) == Canons(l, s) + {l.canon(p.answer)}
    ensures Stems(l, s + [p]) == Stems(l, s) + {l.stem(p.question)}
    ensures Surfaces(l, s + [p]) == Surfaces(l, s) + {l.surface(p.answer)}
  {
    assert forall x :: x in s + [p] <==> x in s || x == p;
  }

  // ---------------------------------------------------------------------------------------
  // What the selection achieves.

  /** No two picks share a canonical answer. */
  ghost predicate DistinctAnswers(l: Labels, s: seq<Pair>) {
    forall i, j :: 0 <= i < j < |s| ==> l.canon(s[i].answer) != l.canon(s[j].answer)
  }

  ghost predicate From(s: seq<Pair>, pool: seq<Pair>) {
    forall p :: p in s ==> p in pool
  }

  function Quota(k: int): nat { if k < 0 then 0 else k }

  lemma {:induction false} DiverseInOrder(l: Labels, pool: seq<Pair>, k: int)
    ensures |Diverse(l, pool, k)| <= Quota(k) && Subseq(Diverse(l, pool, k), pool)
  {
    if pool != [] {
      var init, p := pool[..|pool| - 1], pool[|pool| - 1];
      DiverseInOrder(l, init, k);
      var before := Diverse(l, init, k);
      assert pool == init + [p] && before + [] == before;
      SubseqOf([p]);
      SubseqAppend(before, init, [], [p]);
      SubseqAppend(before, init, [p], [p]);
    }
  }

  ghost predicate EachNovel(l: Labels, picked: seq<Pair>) {
    forall i :: 0 <= i < |picked| ==> Novel(l, picked[..i], picked[i])
  }

  ghost predicate NoneNovel(l: Labels, picked: seq<Pair>, pool: seq<Pair>) {
    forall p :: p in pool ==> !Novel(l, picked, p)
  }

  /** The first pass: every pick is novel when it is made, and unless the selection is full no
      pair of the pool still offers a new answer with a new stem or surface. */
  lemma {:induction false} DiverseLaws(l: Labels, pool: seq<Pair>, k: int)
    ensures var picked := Diverse(l, pool, k);
            EachNovel(l, picked) && (|picked| < k ==> NoneNovel(l, picked, pool))
  {
    if pool != [] {
      var init, p := pool[..|pool| - 1], pool[|pool| - 1];
      DiverseLaws(l, init, k);
      assert pool == init + [p];
      var before := Diverse(l, init, k);
      if |before| < k && Novel(l, before, p) {
      }
    }
  }

  /** The second pass keeps answers distinct, and unless the selection is full it has every
      canonical answer of the pool. */
  lemma {:induction false} FreshLaws(l: Labels, start: seq<Pair>, pool: seq<Pair>, k: int)
    requires DistinctAnswers(l, start) && |start| <= Quota(k)
    ensures var picked := FreshAnswers(l, start, pool, k);
            && start <= picked && |picked| <= Quota(k) && DistinctAnswers(l, picked)
            && (forall p :: p in picked ==> p in start || p in pool)
            && (|picked| < k ==> Canons(l, pool) <= Canons(l, picked))
  {
    if pool != [] {
      var init, p := pool[..|pool| - 1], pool[|pool| - 1];
      FreshLaws(l, start, init, k);
      assert pool == init + [p];
      LabelsExtend(l, init, p);
      var before := FreshAnswers(l, start, init, k);
      LabelsExtend(l, before, p);
      if FreshAnswers(l, start, pool, k) != before {
        forall i | 0 <= i < |before| ensures l.canon(before[i].answer) in Canons(l, before) {
          assert before[i] in before;
        }
      } else if |before| < k && p in before {
        assert l.canon(p.answer) in Canons(l, before);
      }
    }
  }

  lemma {:induction false} TopUpLaws(start: seq<Pair>, pool: seq<Pair>, k: int)
    requires Distinct(start) && |start| <= Quota(k)
    ensures var picked := TopUp(start, pool, k);
            && start <= picked && |picked| <= Quota(k) && Distinct(picked)
            && (forall p :: p in picked ==> p in start || p in pool)
            && (|picked| < k ==> forall p :: p in pool ==> p in picked)
  {
    if pool != [] {
      var init, p := pool[..|pool| - 1], pool[|pool| - 1];
      TopUpLaws(start, init, k);
      assert pool == init + [p];
    }
  }

  /** No pick shares the canonical answer; or the stem; or the surface form. */
  ghost predicate NewAnswer(l: Labels, picked: seq<Pair>, p: Pair) {
    forall x :: x in picked ==> l.canon(x.answer) != l.canon(p.answer)
  }

  ghost predicate NewStem(l: Labels, picked: seq<Pair>, p: Pair) {
    forall x :: x in picked ==> l.stem(x.question) != l.stem(p.question)
  }

  ghost predicate NewSurface(l: Labels, picked: seq<Pair>, p: Pair) {
    forall x :: x in picked ==> l.surface(x.answer) != l.surface(p.answer)
  }

  /** Each pass takes the pairs of the pool in order, the next one exactly when there is room and
      it brings what the pass asks for; the passes start where the one before ended. */
  lemma GreedySteps(l: Labels, start: seq<Pair>, pool: seq<Pair>, p: Pair, k: int)
    ensures var one := Diverse(l, pool, k);
            Diverse(l, pool + [p], k) ==
              if |one| < k && NewAnswer(l, one, p) && (NewStem(l, one, p) || NewSurface(l, one, p)) then one + [p] else one
    ensures var two := FreshAnswers(l, start, pool, k);
            FreshAnswers(l, start, pool + [p], k) ==
              if |two| < k && p !in two && NewAnswer(l, two, p) then two + [p] else two
    ensures var three := TopUp(start, pool, k);
            TopUp(start, pool + [p], k) == if |three| < k && p !in three then three + [p] else three
    ensures Diverse(l, [], k) == [] && FreshAnswers(l, start, [], k) == start && TopUp(start, [], k) == start
    ensures Diverse(l, pool, k) <= FreshAnswers(l, Diverse(l, pool, k), pool, k) <= Selection(l, pool, k)
  {
    assert (pool + [p])[..|pool|] == pool;
    FreshPrefix(l, Diverse(l, pool, k), pool, k);
    TopUpPrefix(FreshAnswers(l, Diverse(l, pool, k), pool, k), pool, k);
  }

  lemma {:induction false} FreshPrefix(l: Labels, start: seq<Pair>, pool: seq<Pair>, k: int)
    ensures start <= FreshAnswers(l, start, pool, k)
  {
    if pool != [] {
      FreshPrefix(l, start, pool[..|pool| - 1], k);
    }
  }

  lemma {:induction false} TopUpPrefix(start: seq<Pair>, pool: seq<Pair>, k: int)
    ensures start <= TopUp(start, pool, k)
  {
    if pool != [] {
      TopUpPrefix(start, pool[..|pool| - 1], k);
    }
  }

  lemma SelectionSize(l: Labels, pool: seq<Pair>, k: int)
    ensures |Selection(l, pool, k)| <= Quota(k)
  {
    SelectionParts(l, pool, k);
  }

  lemma SelectionParts(l: Labels, pool: seq<Pair>, k: int)
    ensures var two, all := FreshAnswers(l, Diverse(l, pool, k), pool, k), Selection(l, pool, k);
            && two <= all && |all| <= Quota(k)
            && DistinctAnswers(l, two) && Distinct(all) && From(all, pool)
            && (|two| < k ==> Canons(l, pool) <= Canons(l, two))
            && (|all| < k ==> From(pool, all))
  {
    var one := Diverse(l, pool, k);
    DiverseInOrder(l, pool, k);
    DiverseLaws(l, pool, k);
    SubseqMembers(one, pool);
    FreshLaws(l, one, pool, k);
    TopUpLaws(FreshAnswers(l, one, pool, k), pool, k);
  }

  lemma {:induction false} AnswerCount(l: Labels, s: seq<Pair>)
    ensures |Canons(l, s)| <= |s|
    ensures DistinctAnswers(l, s) ==> |Canons(l, s)| == |s|
  {
    if s != [] {
      var init, last := s[..|s| - 1], s[|s| - 1];
      AnswerCount(l, init);
      assert s == init + [last];
      LabelsExtend(l, init, last);
      var before, canon := Canons(l, init), l.canon(last.answer);
      assert Canons(l, s) == before + {canon};
      if DistinctAnswers(l, s) {
        assert canon !in before && DistinctAnswers(l, init);
      }
    }
  }

  lemma CanonsOfMembers(l: Labels, s: seq<Pair>, pool: seq<Pair>)
    requires From(s, pool)
    ensures Canons(l, s) <= Canons(l, pool)
  {
  }

  lemma SelectionAnswers(l: Labels, pool: seq<Pair>, k: int)
    ensures |Canons(l, Selection(l, pool, k))| == Min(Quota(k), |Canons(l, pool)|)
  {
    var two, s := FreshAnswers(l, Diverse(l, pool, k), pool, k), Selection(l, pool, k);
    SelectionParts(l, pool, k);
    AnswerCount(l, two);
    AnswerCount(l, s);
    CanonsOfMembers(l, s, pool);
    CanonsOfMembers(l, two, s);
    SubsetSize(Canons(l, two), Canons(l, s));
    SubsetSize(Canons(l, s), Canons(l, pool));
    if |two| < k {
      SubsetSize(Canons(l, pool), Canons(l, two));
    }
  }

  /** The selection has min(k, distinct pairs) distinct members of the pool, and as many
      distinct canonical answers as there can be: min(k, distinct answers in the pool). */
  lemma SelectionLaws(l: Labels, pool: seq<Pair>, k: int)
    ensures var s := Selection(l, pool, k);
            && Distinct(s) && From(s, pool)
            && |s| == Min(Quota(k), |set p | p in pool|)
            && |Canons(l, s)| == Min(Quota(k), |Canons(l, pool)|)
  {
    var s := Selection(l, pool, k);
    SelectionParts(l, pool, k);
    SelectionAnswers(l, pool, k);
    DistinctSize(s);
    SubsetSize(set p | p in s, set p | p in pool);
    if |s| < k {
      SubsetSize(set p | p in pool, set p | p in s);
    }
  }

  /** No other choice of at most k pairs of the pool covers more canonical answers. */
  lemma NoChoiceHasMoreAnswers(l: Labels, pool: seq<Pair>, k: int, other: seq<Pair>)
    requires |other| <= k && From(other, pool)
    ensures |Canons(l, other)| <= |Canons(l, Selection(l, pool, k))|
  {
    SelectionLaws(l, pool, k);
    AnswerCount(l, other);
    CanonsOfMembers(l, other, pool);
    SubsetSize(Canons(l, other), Canons(l, pool));
  }
}
