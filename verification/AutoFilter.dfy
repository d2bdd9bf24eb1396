/** src/autofilter.py:205-236: filtering command output while keeping prose verbatim. A text is
    the list of its lines; the filter is an arbitrary function on texts, and which lines are
    prose is an arbitrary predicate. */
module AutoFilter {
  import opened Sequences
  import opened Text

  type Line = string
  type Lines = seq<Line>

  datatype Run = Run(prose: bool, lines: Lines)

  /** All whitespace: what stripping the joined lines would leave empty. */
  predicate BlankText(t: Lines) {
    forall i :: 0 <= i < |t| ==> Blank(t[i])
  }

  // ---------------------------------------------------------------------------------------
  // Splitting into runs.

  function AddLine(runs: seq<Run>, prose: bool, line: Line): seq<Run> {
    var last := |runs| - 1;
    if runs != [] && runs[last].prose == prose then runs[last := Run(prose, runs[last].lines + [line])]
    else runs + [Run(prose, [line])]
  }

  function Runs(isProse: Line -> bool, text: Lines): seq<Run> {
    if text == [] then []
    else AddLine(Runs(isProse, text[..|text| - 1]), isProse(text[|text| - 1]), text[|text| - 1])
  }

  method SplitRuns(isProse: Line -> bool, text: Lines) returns (runs: seq<Run>)
    ensures runs == Runs(isProse, text)
  {
    runs := [];
    for n := 0 to |text|
      invariant runs == Runs(isProse, text[..n])
    {
      assert text[..n + 1][..n] == text[..n];
      var prose := isProse(text[n]);
      var last := |runs| - 1;
      if runs != [] && runs[last].prose == prose {
        runs := runs[last := Run(prose, runs[last].lines + [text[n]])];
      } else {
        runs := runs + [Run(prose, [text[n]])];
      }
    }
    assert text[..|text|] == text;
  }

  function Flatten(runs: seq<Run>): Lines {
    if runs == [] then [] else Flatten(runs[..|runs| - 1]) + runs[|runs| - 1].lines
  }

  /** Non-empty runs of one kind of line each, with no two neighbours of the same kind: the
      runs are maximal. */
  ghost predicate WellSplit(isProse: Line -> bool, runs: seq<Run>) {
    && (forall i :: 0 <= i < |runs| ==> OneKind(isProse, runs[i]))
    && (forall i :: 0 < i < |runs| ==> runs[i - 1].prose != runs[i].prose)
  }

  ghost predicate OneKind(isProse: Line -> bool, run: Run) {
    run.lines != [] && forall j :: 0 <= j < |run.lines| ==> isProse(run.lines[j]) == run.prose
  }

  lemma AddLineSplit(isProse: Line -> bool, runs: seq<Run>, line: Line)
    requires WellSplit(isProse, runs)
    ensures WellSplit(isProse, AddLine(runs, isProse(line), line))
  {
    if runs != [] {
      var last := |runs| - 1;
      assert OneKind(isProse, runs[last]);
      assert OneKind(isProse, Run(isProse(line), [line]));
      if runs[last].prose == isProse(line) {
        assert OneKind(isProse, Run(isProse(line), runs[last].lines + [line]));
      }
    }
  }

  lemma AddLineFlatten(runs: seq<Run>, prose: bool, line: Line)
    ensures Flatten(AddLine(runs, prose, line)) == Flatten(runs) + [line]
  {
    var after := AddLine(runs, prose, line);
    if |after| == |runs| {
      assert after[..|after| - 1] == runs[..|runs| - 1];
    } else {
      assert after[..|after| - 1] == runs;
    }
  }

  /** The runs alternate in kind and flatten back to the text. */
  lemma {:induction false} RunsLaws(isProse: Line -> bool, text: Lines)
    ensures WellSplit(isProse, Runs(isProse, text)) && Flatten(Runs(isProse, text)) == text
  {
    if text != [] {
      var init, last := text[..|text| - 1], text[|text| - 1];
      var runs := Runs(isProse, init);
      RunsLaws(isProse, init);
      AddLineSplit(isProse, runs, last);
      AddLineFlatten(runs, isProse(last), last);
      assert Runs(isProse, text) == AddLine(runs, isProse(last), last);
      assert text == init + [last];
    }
  }

  lemma LineKinds(isProse: Line -> bool, before: Lines, run: Run)
    requires OneKind(isProse, run)
    ensures forall k :: |before| <= k < |before + run.lines| ==> isProse((before + run.lines)[k]) == run.prose
  {
    forall k | |before| <= k < |before + run.lines| ensures isProse((before + run.lines)[k]) == run.prose {
      assert (before + run.lines)[k] == run.lines[k - |before|];
    }
  }

  /** A trailing stretch of one kind fits inside the last run. */
  lemma LastRunIsMaximal(isProse: Line -> bool, a: seq<Run>, y: Run, q: Lines)
    requires a != [] && WellSplit(isProse, a) && OneKind(isProse, y) && Flatten(a) == q + y.lines
    ensures a[|a| - 1].prose == y.prose && |Flatten(a[..|a| - 1])| <= |q|
  {
    var m := |a| - 1;
    var p := Flatten(a[..m]);
    assert OneKind(isProse, a[m]);
    LineKinds(isProse, p, a[m]);
    LineKinds(isProse, q, y);
    var t := Flatten(a);
    assert isProse(t[|t| - 1]) == a[m].prose && isProse(t[|t| - 1]) == y.prose;
    if m > 0 {
      var z := a[m - 1];
      assert OneKind(isProse, z) && a[..m][m - 1] == z && z.prose != a[m].prose;
      LineKinds(isProse, Flatten(a[..m][..m - 1]), z);
      assert isProse(p[|p| - 1]) == z.prose && t[|p| - 1] == p[|p| - 1];
    }
  }

  /** There is only one way to split a text into maximal runs. */
  lemma {:induction false} SplitUnique(isProse: Line -> bool, a: seq<Run>, b: seq<Run>)
    requires WellSplit(isProse, a) && WellSplit(isProse, b) && Flatten(a) == Flatten(b)
    ensures a == b
    decreases |a|
  {
    if a == [] {
      NonEmptyRuns(isProse, b);
    } else if b == [] {
      NonEmptyRuns(isProse, a);
    } else {
      var m, n := |a| - 1, |b| - 1;
      var p, q := Flatten(a[..m]), Flatten(b[..n]);
      assert OneKind(isProse, a[m]) && OneKind(isProse, b[n]);
      LastRunIsMaximal(isProse, a, b[n], q);
      LastRunIsMaximal(isProse, b, a[m], p);
      assert p == Flatten(a)[..|p|] && q == Flatten(b)[..|q|];
      assert a[m].lines == Flatten(a)[|p|..] && b[n].lines == Flatten(b)[|q|..];
      assert WellSplit(isProse, a[..m]) && WellSplit(isProse, b[..n]);
      SplitUnique(isProse, a[..m], b[..n]);
    }
  }

  lemma NonEmptyRuns(isProse: Line -> bool, a: seq<Run>)
    requires WellSplit(isProse, a)
    ensures Flatten(a) == [] ==> a == []
  {
    if a != [] {
      assert OneKind(isProse, a[|a| - 1]);
    }
  }

  // ---------------------------------------------------------------------------------------
  // Filtering.

  /** What one run contributes: prose and blank runs as they are, others filtered unless the
      filter would blank them. */
  function Kept(apply: Lines -> Lines, run: Run): Lines {
    if run.prose || BlankText(run.lines) then run.lines
    else
      var filtered := apply(run.lines);
      if BlankText(filtered) then run.lines else filtered
  }

  function KeptAll(apply: Lines -> Lines, runs: seq<Run>): Lines {
    if runs == [] then [] else KeptAll(apply, runs[..|runs| - 1]) + Kept(apply, runs[|runs| - 1])
  }

  predicate AnyProse(runs: seq<Run>) {
    exists i :: 0 <= i < |runs| && runs[i].prose
  }

  function Filtered(isProse: Line -> bool, apply: Lines -> Lines, text: Lines): Lines {
    var runs := Runs(isProse, text);
    if !AnyProse(runs) then (if BlankText(apply(text)) then text else apply(text))
    else KeptAll(apply, runs)
  }

  method FilterPreservingProse(isProse: Line -> bool, apply: Lines -> Lines, text: Lines) returns (result: Lines)
    ensures result == Filtered(isProse, apply, text)
  {
    var runs := SplitRuns(isProse, text);
    if !AnyProse(runs) {
      var filtered := apply(text);
      return if !BlankText(filtered) then filtered else text;
    }
    result := FilterRuns(apply, runs);
  }

  method FilterRuns(apply: Lines -> Lines, runs: seq<Run>) returns (result: Lines)
    ensures result == KeptAll(apply, runs)
  {
    result := [];
    for n := 0 to |runs|
      invariant result == KeptAll(apply, runs[..n])
    {
      assert runs[..n + 1][..n] == runs[..n];
      var part := FilterRun(apply, runs[n]);
      result := result + part;
    }
    assert runs[..|runs|] == runs;
  }

  method FilterRun(apply: Lines -> Lines, run: Run) returns (part: Lines)
    ensures part == Kept(apply, run)
  {
    if run.prose || BlankText(run.lines) {
      return run.lines;
    }
    var filtered := apply(run.lines);
    return if !BlankText(filtered) then filtered else run.lines;
  }

  /** The prose lines of a text, in order. */
  function ProseOf(isProse: Line -> bool, text: Lines): Lines {
    Reject(text, NotProse(isProse))
  }

  function NotProse(isProse: Line -> bool): Line -> bool { (l: Line) => !isProse(l) }

  lemma {:induction false} ProseKept(isProse: Line -> bool, apply: Lines -> Lines, runs: seq<Run>)
    requires WellSplit(isProse, runs)
    ensures Subseq(ProseOf(isProse, Flatten(runs)), KeptAll(apply, runs))
  {
    if runs != [] {
      var init, run := runs[..|runs| - 1], runs[|runs| - 1];
      ProseKept(isProse, apply, init);
      RejectAppend(Flatten(init), run.lines, NotProse(isProse));
      assert OneKind(isProse, run);
      assert forall l :: l in run.lines ==> isProse(l) == run.prose;
      if run.prose {
        RejectNothing(run.lines, NotProse(isProse));
        SubseqOf(run.lines);
      } else {
        RejectAll(run.lines, NotProse(isProse));
      }
      SubseqAppend(ProseOf(isProse, Flatten(init)), KeptAll(apply, init),
                   ProseOf(isProse, run.lines), Kept(apply, run));
    }
  }

  /** Whatever the filter does, every prose line of the text is in the result, verbatim and in
      order. */
  lemma ProseSurvives(isProse: Line -> bool, apply: Lines -> Lines, text: Lines)
    ensures Subseq(ProseOf(isProse, text), Filtered(isProse, apply, text))
  {
    var runs := Runs(isProse, text);
    RunsLaws(isProse, text);
    if AnyProse(runs) {
      ProseKept(isProse, apply, runs);
    } else {
      NoProse(isProse, runs);
      assert Filtered(isProse, apply, text) == [] + Filtered(isProse, apply, text);
    }
  }

  lemma {:induction false} NoProse(isProse: Line -> bool, runs: seq<Run>)
    requires WellSplit(isProse, runs) && !AnyProse(runs)
    ensures ProseOf(isProse, Flatten(runs)) == []
  {
    if runs != [] {
      var init, run := runs[..|runs| - 1], runs[|runs| - 1];
      assert forall i :: 0 <= i < |init| ==> init[i] == runs[i];
      NoProse(isProse, init);
      assert OneKind(isProse, run);
      RejectAll(run.lines, NotProse(isProse));
      RejectAppend(Flatten(init), run.lines, NotProse(isProse));
    }
  }

  lemma BlankAppend(a: Lines, b: Lines)
    ensures BlankText(a + b) <==> BlankText(a) && BlankText(b)
  {
    if BlankText(a + b) {
      assert forall i :: 0 <= i < |a| ==> a[i] == (a + b)[i];
      assert forall i :: 0 <= i < |b| ==> b[i] == (a + b)[|a| + i];
    }
  }

  lemma {:induction false} KeptBlank(apply: Lines -> Lines, runs: seq<Run>)
    ensures BlankText(KeptAll(apply, runs)) <==> BlankText(Flatten(runs))
  {
    if runs != [] {
      var init, run := runs[..|runs| - 1], runs[|runs| - 1];
      KeptBlank(apply, init);
      BlankAppend(Flatten(init), run.lines);
      BlankAppend(KeptAll(apply, init), Kept(apply, run));
    }
  }

  /** Text that says something never becomes blank. */
  lemma NeverBlanked(isProse: Line -> bool, apply: Lines -> Lines, text: Lines)
    requires !BlankText(text)
    ensures !BlankText(Filtered(isProse, apply, text))
  {
    var runs := Runs(isProse, text);
    RunsLaws(isProse, text);
    KeptSays(apply, runs, text);
  }

  lemma KeptSays(apply: Lines -> Lines, runs: seq<Run>, text: Lines)
    requires Flatten(runs) == text && !BlankText(text)
    ensures !BlankText(KeptAll(apply, runs))
  {
    KeptBlank(apply, runs);
  }

  lemma {:induction false} KeptIdentity(apply: Lines -> Lines, runs: seq<Run>)
    requires forall t :: apply(t) == t
    ensures KeptAll(apply, runs) == Flatten(runs)
  {
    if runs != [] {
      KeptIdentity(apply, runs[..|runs| - 1]);
    }
  }

  /** With the identity filter the lines are unchanged. */
  lemma IdentityFilter(isProse: Line -> bool, apply: Lines -> Lines, text: Lines)
    requires forall t :: apply(t) == t
    ensures Filtered(isProse, apply, text) == text
  {
    RunsLaws(isProse, text);
    KeptIdentity(apply, Runs(isProse, text));
  }

  // ---------------------------------------------------------------------------------------
  // What the filter gets and what becomes of it, told from the text alone.

  /** No line has a character other than whitespace. */
  ghost predicate SaysNothing(t: Lines) {
    forall line, c :: line in t && c in line ==> IsSpace(c)
  }

  lemma BlankSaysNothing(t: Lines)
    ensures BlankText(t) <==> SaysNothing(t)
  {
    forall i | 0 <= i < |t| ensures Blank(t[i]) <==> forall c :: c in t[i] ==> IsSpace(c) {
      BlankMeansSpaces(t[i]);
    }
    if BlankText(t) {
      forall line, c | line in t && c in line ensures IsSpace(c) {
        var i :| 0 <= i < |t| && t[i] == line;
      }
    }
  }

  function Concat(parts: seq<Lines>): Lines {
    if parts == [] then [] else parts[0] + Concat(parts[1..])
  }

  /** The part of the result that stems from one run. */
  ghost predicate PartOf(apply: Lines -> Lines, run: Run, part: Lines) {
    if run.prose || SaysNothing(run.lines) then part == run.lines
    else if SaysNothing(apply(run.lines)) then part == run.lines
    else part == apply(run.lines)
  }

  lemma {:induction false} ConcatExtend(parts: seq<Lines>, part: Lines)
    ensures Concat(parts + [part]) == Concat(parts) + part
  {
    if parts == [] {
      assert [] + [part] == [part] && [part][1..] == [];
    } else {
      ConcatExtend(parts[1..], part);
      assert (parts + [part])[1..] == parts[1..] + [part];
    }
  }

  lemma {:induction false} KeptParts(apply: Lines -> Lines, runs: seq<Run>) returns (parts: seq<Lines>)
    ensures KeptAll(apply, runs) == Concat(parts) && |parts| == |runs|
    ensures forall i :: 0 <= i < |runs| ==> PartOf(apply, runs[i], parts[i])
  {
    parts := [];
    if runs != [] {
      var run := runs[|runs| - 1];
      var before := KeptParts(apply, runs[..|runs| - 1]);
      BlankSaysNothing(run.lines);
      BlankSaysNothing(apply(run.lines));
      ConcatExtend(before, Kept(apply, run));
      parts := before + [Kept(apply, run)];
    }
  }

  /** However a text with prose is split into maximal runs, the result is made of one part per
      run: prose and blank runs as they are, the others as the filter returns them, unless that
      is blank. */
  lemma FilteredByRuns(isProse: Line -> bool, apply: Lines -> Lines, text: Lines, runs: seq<Run>)
    returns (parts: seq<Lines>)
    requires WellSplit(isProse, runs) && Flatten(runs) == text && exists line :: line in text && isProse(line)
    ensures Filtered(isProse, apply, text) == Concat(parts) && |parts| == |runs|
    ensures forall i :: 0 <= i < |runs| ==> PartOf(apply, runs[i], parts[i])
  {
    RunsLaws(isProse, text);
    SplitUnique(isProse, runs, Runs(isProse, text));
    if !AnyProse(runs) {
      NoProse(isProse, runs);
      RejectMembers(text, NotProse(isProse));
    }
    parts := KeptParts(apply, runs);
  }

  /** Text without prose goes to the filter whole. */
  lemma FilteredWhole(isProse: Line -> bool, apply: Lines -> Lines, text: Lines)
    requires forall line :: line in text ==> !isProse(line)
    ensures Filtered(isProse, apply, text) == if SaysNothing(apply(text)) then text else apply(text)
  {
    RunsLaws(isProse, text);
    BlankSaysNothing(apply(text));
    var runs := Runs(isProse, text);
    forall i | 0 <= i < |runs| ensures !runs[i].prose {
      assert OneKind(isProse, runs[i]);
      RunInText(runs, i);
      var line := runs[i].lines[0];
      assert line in runs[i].lines;
    }
  }

  lemma {:induction false} RunInText(runs: seq<Run>, i: nat)
    requires i < |runs|
    ensures forall line :: line in runs[i].lines ==> line in Flatten(runs)
  {
    if i < |runs| - 1 {
      RunInText(runs[..|runs| - 1], i);
    }
  }

  /** Output between prose is what the filter makes of it, and the prose around it stays. */
  lemma OutputBetweenProse(isProse: Line -> bool, apply: Lines -> Lines, p: Lines, q: Lines, r: Lines)
    requires (forall line :: line in p + r ==> isProse(line)) && (forall line :: line in q ==> !isProse(line))
    requires p + r != [] && !SaysNothing(q) && !SaysNothing(apply(q))
    ensures Filtered(isProse, apply, p + q + r) == p + apply(q) + r
  {
    var runs := (if p == [] then [] else [Run(true, p)]) + [Run(false, q)] + (if r == [] then [] else [Run(true, r)]);
    ThreeRuns(p, q, r);
    forall i | 0 <= i < |runs| ensures OneKind(isProse, runs[i]) {
      assert forall line :: line in runs[i].lines ==> line in p + r || line in q;
    }
    assert (p + r)[0] in p + q + r;
    var parts := FilteredByRuns(isProse, apply, p + q + r, runs);
    PartsOfThree(apply, p, q, r, runs, parts);
    ThreeParts(parts, p, apply(q), r);
  }

  lemma PartsOfThree(apply: Lines -> Lines, p: Lines, q: Lines, r: Lines, runs: seq<Run>, parts: seq<Lines>)
    requires runs == (if p == [] then [] else [Run(true, p)]) + [Run(false, q)] + (if r == [] then [] else [Run(true, r)])
    requires !SaysNothing(q) && !SaysNothing(apply(q)) && |parts| == |runs|
    requires forall i :: 0 <= i < |runs| ==> PartOf(apply, runs[i], parts[i])
    ensures parts == (if p == [] then [] else [p]) + [apply(q)] + (if r == [] then [] else [r])
  {
    assert PartOf(apply, Run(false, q), parts[if p == [] then 0 else 1]);
    if p != [] {
      assert PartOf(apply, Run(true, p), parts[0]);
    }
    if r != [] {
      assert PartOf(apply, Run(true, r), parts[|runs| - 1]);
    }
  }

  lemma ThreeRuns(p: Lines, q: Lines, r: Lines)
    ensures Flatten((if p == [] then [] else [Run(true, p)]) + [Run(false, q)] + (if r == [] then [] else [Run(true, r)]))
            == p + q + r
  {
    var a := if p == [] then [] else [Run(true, p)];
    var b := a + [Run(false, q)];
    assert Flatten(a) == p by {
      if p != [] {
        assert a[..0] == [];
      }
    }
    assert b[..|a|] == a;
    if r != [] {
      assert (b + [Run(true, r)])[..|b|] == b;
    } else {
      assert b + [] == b && p + q + r == p + q;
    }
  }

  lemma ThreeParts(parts: seq<Lines>, p: Lines, q: Lines, r: Lines)
    requires parts == (if p == [] then [] else [p]) + [q] + (if r == [] then [] else [r])
    ensures Concat(parts) == p + q + r
  {
    ConcatExtend([], p);
    ConcatExtend(if p == [] then [] else [p], q);
    ConcatExtend((if p == [] then [] else [p]) + [q], r);
    assert [] + [p] == [p];
  }
}
