/** src/canonical_tags.py: resolving a free-form tag to a canonical one, and normalising lists
    of tags. */
module TagResolver {
  import opened Arithmetic
  import opened Sequences
  import opened EditDistance
  import opened Text
  import opened CanonicalTags

  // ---------------------------------------------------------------------------------------
  // The best-match search over all forms.

  /** The similarity of a form to the tag: with the early reject, or with the distance always
      computed. */
  function Score(rejecting: bool, tag: string, form: string): real
    requires tag != ""
  {
    if rejecting then Ratio(tag, form) else FullRatio(tag, form)
  }

  /** Form `i` is the first one of the highest positive score. */
  ghost predicate IsBest(rejecting: bool, tag: string, forms: seq<string>, i: int)
    requires tag != ""
  {
    && 0 <= i < |forms| && Score(rejecting, tag, forms[i]) > 0.0
    && (forall j :: 0 <= j < i ==> Score(rejecting, tag, forms[j]) < Score(rejecting, tag, forms[i]))
    && (forall j :: i < j < |forms| ==> Score(rejecting, tag, forms[j]) <= Score(rejecting, tag, forms[i]))
  }

  /** The index of the best form, or -1, after a left-to-right scan. */
  function BestIndex(rejecting: bool, tag: string, forms: seq<string>): int
    requires tag != ""
  {
    if forms == [] then -1
    else
      var last := |forms| - 1;
      var best := BestIndex(rejecting, tag, forms[..last]);
      var score := if 0 <= best < last then Score(rejecting, tag, forms[best]) else 0.0;
      if Score(rejecting, tag, forms[last]) > score then last else best
  }

  lemma {:induction false} BestIndexMeaning(rejecting: bool, tag: string, forms: seq<string>)
    requires tag != ""
    ensures var i := BestIndex(rejecting, tag, forms);
            if i < 0 then i == -1 && forall j :: 0 <= j < |forms| ==> Score(rejecting, tag, forms[j]) <= 0.0
            else IsBest(rejecting, tag, forms, i)
  {
    if forms != [] {
      BestIndexMeaning(rejecting, tag, forms[..|forms| - 1]);
    }
  }

  /** The canonical of the best form when its score reaches the threshold. */
  function Match(rejecting: bool, tag: string, v: Vocabulary, threshold: real): Option<string> {
    if tag == "" then None
    else
      var i := BestIndex(rejecting, tag, v.forms);
      if 0 <= i < |v.forms| && Score(rejecting, tag, v.forms[i]) >= threshold && v.forms[i] in v.byForm
      then Some(v.byForm[v.forms[i]]) else None
  }

  method LevenshteinMatch(tag: string, v: Vocabulary, threshold: real) returns (result: Option<string>)
    requires forall f :: f in v.forms ==> f in v.byForm
    ensures result == Match(true, tag, v, threshold)
  {
    if tag == "" {
      return None;
    }
    var bestForm := None;
    var bestRatio := 0.0;
    ghost var best := -1;
    for n := 0 to |v.forms|
      invariant best == BestIndex(true, tag, v.forms[..n])
      invariant -1 <= best < n
      invariant if best < 0 then bestForm == None && bestRatio == 0.0
                else bestForm == Some(v.forms[best]) && bestRatio == Score(true, tag, v.forms[best])
    {
      assert v.forms[..n + 1][..n] == v.forms[..n];
      var ratio := LevenshteinRatio(tag, v.forms[n]);
      if ratio > bestRatio {
        bestRatio, bestForm := ratio, Some(v.forms[n]);
        best := n;
      }
    }
    assert v.forms[..|v.forms|] == v.forms;
    if bestForm.Some? && bestRatio >= threshold {
      return Some(v.byForm[bestForm.value]);
    }
    return None;
  }

  /** Skipping the distance for pairs of very different lengths never changes the outcome of
      the search when the threshold is at least one half. */
  lemma {:induction false} EarlyRejectHarmless(tag: string, v: Vocabulary, threshold: real)
    requires threshold >= 0.5
    ensures Match(true, tag, v, threshold) == Match(false, tag, v, threshold)
  {
    if tag != "" {
      forall j | 0 <= j < |v.forms|
        ensures Score(true, tag, v.forms[j]) == Score(false, tag, v.forms[j])
             || (Score(true, tag, v.forms[j]) == 0.0 && 0.0 <= Score(false, tag, v.forms[j]) < 0.5)
      {
        EarlyReject(tag, v.forms[j]);
      }
      BestIndexMeaning(true, tag, v.forms);
      BestIndexMeaning(false, tag, v.forms);
      var i, k := BestIndex(true, tag, v.forms), BestIndex(false, tag, v.forms);
      if k >= 0 && Score(false, tag, v.forms[k]) >= 0.5 {
        assert IsBest(true, tag, v.forms, k);
        BestUnique(true, tag, v.forms, i, k);
      }
    }
  }

  lemma {:induction false} BestUnique(rejecting: bool, tag: string, forms: seq<string>, i: int, k: int)
    requires tag != "" && IsBest(rejecting, tag, forms, k)
    requires if i < 0 then forall j :: 0 <= j < |forms| ==> Score(rejecting, tag, forms[j]) <= 0.0
             else IsBest(rejecting, tag, forms, i)
    ensures i == k
  {
  }

  function Repeat(n: nat): string { seq(n, _ => 'a') }

  /** Below one half some tag and some one-topic vocabulary are told apart by the reject. */
  lemma {:induction false} EarlyRejectVisible(threshold: real) returns (tag: string, v: Vocabulary)
    requires threshold < 0.5
    ensures Match(true, tag, v, threshold) != Match(false, tag, v, threshold)
  {
    var slack := 1.0 - 2.0 * threshold;
    var n: nat := (1.0 / slack).Floor + 1;
    tag := Repeat(n);
    var form := Repeat(2 * n + 1);
    v := Vocabulary([Topic(form, [])], [form], map[form := form], {form});

    RepeatDistance(n, n + 1);
    HalfRatio(n, threshold);
    OneForm(true, tag, form);
    OneForm(false, tag, form);
  }

  lemma OneForm(rejecting: bool, tag: string, form: string)
    requires tag != ""
    ensures BestIndex(rejecting, tag, [form]) == if Score(rejecting, tag, form) > 0.0 then 0 else -1
  {
    assert [form][..0] == [];
  }

  lemma RepeatDistance(n: nat, extra: nat)
    ensures Distance(Repeat(n), Repeat(n + extra)) == extra
  {
    assert Repeat(n + extra) == Repeat(extra) + Repeat(n);
    CommonSuffix("", Repeat(extra), Repeat(n));
    assert "" + Repeat(n) == Repeat(n);
    DistanceBounds(Repeat(n), Repeat(n + extra));
  }

  lemma HalfRatio(n: nat, threshold: real)
    requires threshold < 0.5 && n > 0 && n as real >= 1.0 / (1.0 - 2.0 * threshold)
    ensures var r := 1.0 - (n + 1) as real / (2 * n + 1) as real;
            r > 0.0 && r >= threshold && (n + 1) as real / (2 * n + 1) as real > 0.5
  {
    var x, m, slack := n as real, (2 * n + 1) as real, 1.0 - 2.0 * threshold;
    var q := (n + 1) as real / m;
    assert m == 2.0 * x + 1.0;
    assert q * m == x + 1.0;
    assert (1.0 - q) * m == x;
    if 1.0 - q <= 0.0 {
      NotPositive(1.0 - q, m);
    }
    if q <= 0.5 {
      NotPositive(q - 0.5, m);
    }
    var y := 1.0 / slack;
    assert y * slack == 1.0;
    MulOrder(y, x, slack);
    var u, w := threshold * m, threshold * x;
    assert u == 2.0 * w + threshold;
    assert x * slack == x - 2.0 * w;
    var r := 1.0 - q;
    assert r * m > u;
    if r - threshold < 0.0 {
      MulOrder(r, threshold, m);
    }
  }

  /** The reject is harmless for every tag and vocabulary exactly from one half upwards. */
  lemma EarlyRejectExactly(threshold: real)
    ensures (forall tag, v :: Match(true, tag, v, threshold) == Match(false, tag, v, threshold)) <==> threshold >= 0.5
  {
    if threshold >= 0.5 {
      forall tag, v ensures Match(true, tag, v, threshold) == Match(false, tag, v, threshold) {
        EarlyRejectHarmless(tag, v, threshold);
      }
    } else {
      var tag, v := EarlyRejectVisible(threshold);
    }
  }

  // ---------------------------------------------------------------------------------------
  // The cascade.

  /** `similar` is the embedding match, already thresholded: some canonical, or nothing, which it
      always is when no model is available. */
  datatype Resolver = Resolver(lower: string -> string, vocab: Vocabulary, similar: string -> Option<string>,
                               threshold: real)

  function SubstringMatch(tag: string, forms: seq<string>, byForm: map<string, string>): Option<string> {
    if |tag| < 3 || forms == [] then None
    else if |forms[0]| >= 3 && (Contains(tag, forms[0]) || Contains(forms[0], tag)) && forms[0] in byForm
    then Some(byForm[forms[0]])
    else SubstringMatch(tag, forms[1..], byForm)
  }

  /** A match counts only if it is not the empty string. */
  function Either(first: Option<string>, second: Option<string>): Option<string> {
    if first.Some? && first.value != "" then first else second
  }

  /** The two rules that look for the tag's text in the forms. */
  function TextMatch(norm: string, v: Vocabulary): Option<string> {
    var exact := if norm in v.byForm then Some(v.byForm[norm]) else None;
    Either(exact, Either(SubstringMatch(norm, v.forms, v.byForm), None))
  }

  function Resolve(r: Resolver, tag: string): Option<string> {
    var norm := Normalise(r.lower, tag);
    if tag == "" || r.vocab.topics == [] || norm == "" then None
    else Either(TextMatch(norm, r.vocab), Either(r.similar(norm), Either(Match(true, norm, r.vocab, r.threshold), None)))
  }

  function Add(r: Resolver, result: seq<string>, value: string): seq<string> {
    var v := Normalise(r.lower, value);
    if v == "" || v in result then result else result + [v]
  }

  /** One element of the input; None stands for an element that is not a string. */
  function AddTag(r: Resolver, result: seq<string>, raw: Option<string>): seq<string> {
    if raw.None? then result
    else
      var original := Normalise(r.lower, raw.value);
      if original == "" then result else AddBoth(r, result, original, Resolve(r, original))
  }

  /** A tag and, before it, its canonical if it has one. */
  function AddBoth(r: Resolver, result: seq<string>, original: string, canonical: Option<string>): seq<string> {
    match canonical
    case None => Add(r, result, original)
    case Some(c) =>
      var with := Add(r, result, c);
      if c != original then Add(r, with, original) else with
  }

  function Normalised(r: Resolver, tags: seq<Option<string>>): seq<string> {
    if tags == [] then [] else AddTag(r, Normalised(r, tags[..|tags| - 1]), tags[|tags| - 1])
  }

  method NormaliseTags(r: Resolver, tags: seq<Option<string>>) returns (result: seq<string>)
    ensures result == Normalised(r, tags)
  {
    result := [];
    var seen: set<string> := {};
    for n := 0 to |tags|
      invariant result == Normalised(r, tags[..n])
      invariant seen == set v | v in result
    {
      assert tags[..n + 1][..n] == tags[..n];
      if tags[n].None? {
        continue;
      }
      var original := Normalise(r.lower, tags[n].value);
      if original == "" {
        continue;
      }
      match Resolve(r, original) {
        case Some(canonical) =>
          result, seen := AddOnce(r, result, seen, canonical);
          if canonical != original {
            result, seen := AddOnce(r, result, seen, original);
          }
        case None =>
          result, seen := AddOnce(r, result, seen, original);
      }
    }
    assert tags[..|tags|] == tags;
  }

  method AddOnce(r: Resolver, before: seq<string>, known: set<string>, value: string)
    returns (result: seq<string>, seen: set<string>)
    requires known == set v | v in before
    ensures result == Add(r, before, value) && seen == set v | v in result
  {
    result, seen := before, known;
    var v := Normalise(r.lower, value);
    if v == "" || v in seen {
      return;
    }
    seen := seen + {v};
    result := result + [v];
  }

  ghost predicate Sensible(r: Resolver) {
    && Folding(r.lower) && WellFormed(r.lower, r.vocab)
    && forall x :: r.similar(x).Some? ==> r.similar(x).value in r.vocab.canonicals
  }

  lemma {:induction false} SubstringValue(tag: string, forms: seq<string>, byForm: map<string, string>)
    ensures SubstringMatch(tag, forms, byForm).Some? ==> SubstringMatch(tag, forms, byForm).value in byForm.Values
  {
    if |tag| >= 3 && forms != [] {
      SubstringValue(tag, forms[1..], byForm);
    }
  }

  /** Whichever rule resolves a tag, the result is a declared canonical. */
  lemma ResolvesToCanonical(r: Resolver, tag: string)
    requires Sensible(r)
    ensures Resolve(r, tag).Some? ==> Resolve(r, tag).value in r.vocab.canonicals && Clean(r.lower, Resolve(r, tag).value)
  {
    var norm := Normalise(r.lower, tag);
    SubstringValue(norm, r.vocab.forms, r.vocab.byForm);
  }

  /** The result is duplicate-free and holds exactly the non-empty normalised inputs and their
      canonicals. */
  lemma {:induction false} NormalisedContents(r: Resolver, tags: seq<Option<string>>)
    requires Sensible(r)
    ensures var result := Normalised(r, tags);
            && Distinct(result)
            && (forall v :: v in result ==> Stems(r, tags, v))
            && (forall v :: Stems(r, tags, v) ==> v in result)
  {
    if tags != [] {
      var before, raw := tags[..|tags| - 1], tags[|tags| - 1];
      NormalisedContents(r, before);
      assert tags == before + [raw];
      AddTagMembers(r, Normalised(r, before), raw);
    }
  }

  lemma {:induction false} AddTagMembers(r: Resolver, before: seq<string>, raw: Option<string>)
    requires Sensible(r) && Distinct(before)
    ensures var result := AddTag(r, before, raw);
            && Distinct(result)
            && (forall v :: v in result ==> v in before || StemsFrom(r, raw, v))
            && (forall v :: v in before || StemsFrom(r, raw, v) ==> v in result)
  {
    if raw.Some? {
      var original := Normalise(r.lower, raw.value);
      ResolvesToCanonical(r, original);
      AddBothMembers(r, before, original, Resolve(r, original));
    }
  }

  lemma AddBothMembers(r: Resolver, before: seq<string>, original: string, canonical: Option<string>)
    requires Distinct(before) && Normalise(r.lower, original) == original
    requires canonical.Some? ==> Clean(r.lower, canonical.value)
    ensures var result := AddBoth(r, before, original, canonical);
            && Distinct(result)
            && (forall v :: v in result ==> v in before || v == original || canonical == Some(v))
            && (forall v :: v in before || (original != "" && (v == original || canonical == Some(v))) ==> v in result)
  {
  }

  /** The tag and the form are long enough, and one occurs in the other. */
  ghost predicate Overlaps(tag: string, form: string) {
    |tag| >= 3 && |form| >= 3 && (Factor(form, tag) || Factor(tag, form))
  }

  /** Form `i` is the first one that overlaps with the tag. */
  ghost predicate FirstOverlap(tag: string, forms: seq<string>, i: int) {
    0 <= i < |forms| && Overlaps(tag, forms[i]) && forall j :: 0 <= j < i ==> !Overlaps(tag, forms[j])
  }

  lemma {:induction false} SubstringMeaning(tag: string, forms: seq<string>, byForm: map<string, string>)
    requires forall f :: f in forms ==> f in byForm
    ensures match SubstringMatch(tag, forms, byForm)
            case Some(c) => exists i :: FirstOverlap(tag, forms, i) && c == byForm[forms[i]]
            case None => forall j :: 0 <= j < |forms| ==> !Overlaps(tag, forms[j])
  {
    if |tag| >= 3 && forms != [] {
      var first, rest := forms[0], forms[1..];
      ContainsMeaning(tag, first);
      ContainsMeaning(first, tag);
      SubstringMeaning(tag, rest, byForm);
      if Overlaps(tag, first) {
        assert FirstOverlap(tag, forms, 0);
      } else if i :| FirstOverlap(tag, rest, i) && SubstringMatch(tag, rest, byForm) == Some(byForm[rest[i]]) {
        assert FirstOverlap(tag, forms, i + 1);
      }
    }
  }

  /** No form overlaps with the tag. */
  ghost predicate NoOverlap(tag: string, forms: seq<string>) {
    forall j :: 0 <= j < |forms| ==> !Overlaps(tag, forms[j])
  }

  /** What a clean tag resolves to, rule by rule: a form to its canonical; otherwise to that of the
      first form that overlaps with the tag; otherwise to what the embedding match picks; otherwise
      to the canonical of the first form of the highest ratio, if that reaches the threshold. */
  ghost predicate ResolvesAs(r: Resolver, tag: string, result: Option<string>) {
    var forms, byForm := r.vocab.forms, r.vocab.byForm;
    if tag in byForm then result == Some(byForm[tag])
    else if !NoOverlap(tag, forms) then
      exists i :: FirstOverlap(tag, forms, i) && forms[i] in byForm && result == Some(byForm[forms[i]])
    else if r.similar(tag).Some? then result == r.similar(tag)
    else if exists i :: tag != "" && IsBest(true, tag, forms, i) && Ratio(tag, forms[i]) >= r.threshold then
      exists i :: IsBest(true, tag, forms, i) && forms[i] in byForm && result == Some(byForm[forms[i]])
    else result == None
  }

  lemma MatchMeaning(tag: string, v: Vocabulary, threshold: real)
    requires tag != "" && forall f :: f in v.forms ==> f in v.byForm
    ensures match Match(true, tag, v, threshold)
            case Some(c) => exists i :: IsBest(true, tag, v.forms, i) && Ratio(tag, v.forms[i]) >= threshold
                                        && c == v.byForm[v.forms[i]]
            case None => forall i :: IsBest(true, tag, v.forms, i) ==> Ratio(tag, v.forms[i]) < threshold
  {
    BestIndexMeaning(true, tag, v.forms);
    forall k | IsBest(true, tag, v.forms, k) ensures k == BestIndex(true, tag, v.forms) {
      BestUnique(true, tag, v.forms, BestIndex(true, tag, v.forms), k);
    }
  }

  /** Every rule of the cascade, in order, told from the forms and the ratios, for any tag: it is
      first stripped and folded, and an empty one resolves to nothing. */
  lemma CascadeMeaning(r: Resolver, tag: string)
    requires Sensible(r)
    ensures var norm := Normalise(r.lower, tag);
            if tag == "" || norm == "" then Resolve(r, tag) == None else ResolvesAs(r, norm, Resolve(r, tag))
  {
    var norm := Normalise(r.lower, tag);
    if tag != "" && norm != "" {
      CleanCascade(r, norm);
    }
  }

  lemma CleanCascade(r: Resolver, tag: string)
    requires Sensible(r) && Clean(r.lower, tag)
    ensures ResolvesAs(r, tag, Resolve(r, tag))
  {
    var v := r.vocab;
    assert forall f :: f in v.forms ==> f in v.byForm;
    SubstringMeaning(tag, v.forms, v.byForm);
    MatchMeaning(tag, v, r.threshold);
    NonEmptyValues(r);
    if v.topics != [] && tag !in v.byForm {
      CascadeLate(r, tag);
    }
  }

  lemma NonEmptyValues(r: Resolver)
    requires Sensible(r)
    ensures "" !in r.vocab.canonicals && (forall f :: f in r.vocab.byForm ==> r.vocab.byForm[f] != "")
    ensures r.vocab.topics == [] ==> r.vocab.forms == [] && forall x :: r.similar(x).None?
  {
    if r.vocab.forms != [] {
      assert r.vocab.forms[0] in r.vocab.byForm;
    }
  }

  /** The rules after the exact one. */
  lemma CascadeLate(r: Resolver, tag: string)
    requires Sensible(r) && Clean(r.lower, tag) && r.vocab.topics != [] && tag !in r.vocab.byForm
    ensures var s := SubstringMatch(tag, r.vocab.forms, r.vocab.byForm);
            Resolve(r, tag) == if s.Some? then s
                               else if r.similar(tag).Some? then r.similar(tag)
                               else Match(true, tag, r.vocab, r.threshold)
  {
    NonEmptyValues(r);
    SubstringValue(tag, r.vocab.forms, r.vocab.byForm);
  }

  ghost predicate StemsFrom(r: Resolver, raw: Option<string>, v: string) {
    raw.Some? &&
    var original := Normalise(r.lower, raw.value);
    original != "" && (v == original || Resolve(r, original) == Some(v))
  }

  /** `v` is a non-empty normalised input, or the canonical of one. */
  ghost predicate Stems(r: Resolver, tags: seq<Option<string>>, v: string) {
    exists raw :: raw in tags && StemsFrom(r, raw, v)
  }

  /** What each input contributes, in order: its canonical, then itself. */
  function Contributed(r: Resolver, tags: seq<Option<string>>): seq<string> {
    if tags == [] then []
    else
      var raw := tags[|tags| - 1];
      Contributed(r, tags[..|tags| - 1]) +
      (if raw.None? || Normalise(r.lower, raw.value) == "" then []
       else
         var original := Normalise(r.lower, raw.value);
         (if Resolve(r, original).Some? then [Resolve(r, original).value] else []) + [original])
  }

  lemma ContributionAdded(r: Resolver, s: seq<string>, original: string, canonical: Option<string>)
    requires Clean(r.lower, original) && (canonical.Some? ==> Clean(r.lower, canonical.value))
    ensures AddBoth(r, Deduped(s), original, canonical) ==
            Deduped(s + ((if canonical.Some? then [canonical.value] else []) + [original]))
  {
    if canonical.Some? {
      var c := canonical.value;
      DedupedExtend(s, c);
      DedupedExtend(s + [c], original);
      assert s + ([c] + [original]) == s + [c] + [original];
    } else {
      DedupedExtend(s, original);
      assert s + ([] + [original]) == s + [original];
    }
  }

  /** The result is the contributions of the inputs in order, each kept where it first occurs. */
  lemma {:induction false} NormalisedInOrder(r: Resolver, tags: seq<Option<string>>)
    requires Sensible(r)
    ensures Normalised(r, tags) == Deduped(Contributed(r, tags))
  {
    if tags != [] {
      var before, raw := tags[..|tags| - 1], tags[|tags| - 1];
      NormalisedInOrder(r, before);
      assert Contributed(r, before) + [] == Contributed(r, before);
      if raw.Some? && Normalise(r.lower, raw.value) != "" {
        var original := Normalise(r.lower, raw.value);
        ResolvesToCanonical(r, original);
        ContributionAdded(r, Contributed(r, before), original, Resolve(r, original));
      }
    }
  }

  /** Every tag of the list is clean and is preceded by its canonical, if it has another one. */
  ghost predicate Closed(r: Resolver, s: seq<string>) {
    && (forall i :: 0 <= i < |s| ==> Clean(r.lower, s[i]))
    && Distinct(s)
    && (forall i :: 0 <= i < |s| && Resolve(r, s[i]).Some? ==> Resolve(r, s[i]).value == s[i] || Resolve(r, s[i]).value in s[..i])
  }

  function AsInput(s: seq<string>): seq<Option<string>> {
    seq(|s|, i requires 0 <= i < |s| => Some(s[i]))
  }

  lemma {:induction false} ClosedIsFixed(r: Resolver, s: seq<string>)
    requires Sensible(r) && Closed(r, s)
    ensures Normalised(r, AsInput(s)) == s
  {
    if s != [] {
      var before := s[..|s| - 1];
      ClosedPrefix(r, s);
      ClosedIsFixed(r, before);
      assert AsInput(s)[..|s| - 1] == AsInput(before);
      AddTagFixed(r, before, s[|s| - 1]);
      assert s == before + [s[|s| - 1]];
    }
  }

  lemma ClosedPrefix(r: Resolver, s: seq<string>)
    requires Closed(r, s) && s != []
    ensures var before, last := s[..|s| - 1], s[|s| - 1];
            && Closed(r, before) && Clean(r.lower, last) && last !in before
            && (Resolve(r, last).Some? ==> Resolve(r, last).value == last || Resolve(r, last).value in before)
  {
    var before := s[..|s| - 1];
    assert forall i :: 0 <= i < |before| ==> s[..i] == before[..i];
  }

  lemma AddTagFixed(r: Resolver, before: seq<string>, tag: string)
    requires Sensible(r) && Clean(r.lower, tag) && tag !in before
    requires Resolve(r, tag).Some? ==> Resolve(r, tag).value == tag || Resolve(r, tag).value in before
    ensures AddTag(r, before, Some(tag)) == before + [tag]
  {
    ResolvesToCanonical(r, tag);
  }

  // ---------------------------------------------------------------------------------------
  // Idempotence.

  /** The canonical is its own canonical. */
  predicate Own(v: Vocabulary, c: string) { c in v.byForm ==> v.byForm[c] == c }

  /** Every form maps to a canonical that maps to itself. */
  ghost predicate Settled(v: Vocabulary) {
    forall f :: f in v.byForm ==> Own(v, v.byForm[f])
  }

  /** The tag gets past the text rules to the embedding match. */
  ghost predicate GetsPast(r: Resolver, tag: string) {
    Clean(r.lower, tag) && r.vocab.topics != [] && TextMatch(tag, r.vocab).None?
  }

  /** So does every canonical that the embedding match picks. */
  ghost predicate PicksOwn(r: Resolver) {
    forall x :: GetsPast(r, x) && r.similar(x).Some? ==> Own(r.vocab, r.similar(x).value)
  }

  lemma {:induction false} TextMatchValue(norm: string, v: Vocabulary)
    ensures TextMatch(norm, v).Some? ==> TextMatch(norm, v).value in v.byForm.Values
  {
    SubstringValue(norm, v.forms, v.byForm);
  }

  lemma {:induction false} ResolvesToOwn(r: Resolver, tag: string)
    requires Sensible(r) && Settled(r.vocab) && PicksOwn(r) && Clean(r.lower, tag) && Resolve(r, tag).Some?
    ensures Own(r.vocab, Resolve(r, tag).value)
  {
    TextMatchValue(tag, r.vocab);
    if TextMatch(tag, r.vocab).None? && r.similar(tag).Some? {
      assert GetsPast(r, tag);
    }
  }

  /** A canonical resolves to what it maps to. */
  lemma ResolveCanonical(r: Resolver, c: string)
    requires Sensible(r) && c in r.vocab.canonicals
    ensures Resolve(r, c) == Some(r.vocab.byForm[c])
  {
  }

  lemma {:induction false} ClosedAdd(r: Resolver, s: seq<string>, v: string)
    requires Sensible(r) && Closed(r, s) && Clean(r.lower, v)
    requires Resolve(r, v).Some? ==> Resolve(r, v).value == v || Resolve(r, v).value in s
    ensures Closed(r, Add(r, s, v)) && v in Add(r, s, v)
  {
    var t := Add(r, s, v);
    assert forall i :: 0 <= i < |s| ==> t[..i] == s[..i];
    if v !in s {
      assert t[..|s|] == s;
    }
  }

  lemma {:induction false} NormalisedClosed(r: Resolver, tags: seq<Option<string>>)
    requires Sensible(r) && Settled(r.vocab) && PicksOwn(r)
    ensures Closed(r, Normalised(r, tags))
  {
    if tags != [] {
      var before, raw := Normalised(r, tags[..|tags| - 1]), tags[|tags| - 1];
      NormalisedClosed(r, tags[..|tags| - 1]);
      if raw.Some? && Normalise(r.lower, raw.value) != "" {
        var original := Normalise(r.lower, raw.value);
        match Resolve(r, original)
        case None => ClosedAdd(r, before, original);
        case Some(c) =>
          ResolvesToCanonical(r, original);
          ResolvesToOwn(r, original);
          ResolveCanonical(r, c);
          ClosedAdd(r, before, c);
          if c != original {
            ClosedAdd(r, Add(r, before, c), original);
          }
      }
    }
  }

  lemma IdempotentWhenOwn(r: Resolver, tags: seq<Option<string>>)
    requires Sensible(r) && Settled(r.vocab) && PicksOwn(r)
    ensures Normalised(r, AsInput(Normalised(r, tags))) == Normalised(r, tags)
  {
    NormalisedClosed(r, tags);
    ClosedIsFixed(r, Normalised(r, tags));
  }

  /** Normalising twice gives the same list, for every input. */
  ghost predicate Idempotent(r: Resolver) {
    forall tags :: Normalised(r, AsInput(Normalised(r, tags))) == Normalised(r, tags)
  }

  /** A tag that resolves to a canonical with another canonical is a witness against it. */
  lemma {:induction false} StrayTag(r: Resolver, tag: string)
    requires Sensible(r) && Clean(r.lower, tag) && Resolve(r, tag).Some?
    requires !Own(r.vocab, Resolve(r, tag).value)
    ensures Normalised(r, AsInput(Normalised(r, [Some(tag)]))) != Normalised(r, [Some(tag)])
  {
    var c := Resolve(r, tag).value;
    ResolvesToCanonical(r, tag);
    ResolveCanonical(r, c);
    SingleTag(r, tag);
    SingleTag(r, c);
    StaleFirst(r, c, tag, r.vocab.byForm[c]);
  }

  lemma StaleFirst(r: Resolver, c: string, tag: string, d: string)
    requires d != c && Normalised(r, [Some(c)]) == [d, c]
    ensures Normalised(r, AsInput([c, tag])) != [c, tag]
  {
    var once := [c, tag];
    FirstStays(r, AsInput(once));
    assert AsInput(once)[..1] == [Some(c)];
  }

  lemma SingleTag(r: Resolver, tag: string)
    requires Sensible(r) && Clean(r.lower, tag) && Resolve(r, tag).Some?
    ensures var c := Resolve(r, tag).value;
            Normalised(r, [Some(tag)]) == if c != tag then [c, tag] else [c]
  {
    var tags := [Some(tag)];
    assert tags[..0] == [] && Normalised(r, tags) == AddTag(r, [], Some(tag));
    ResolvesToCanonical(r, tag);
    BothFromEmpty(r, tag, Resolve(r, tag).value);
  }

  lemma BothFromEmpty(r: Resolver, tag: string, c: string)
    requires Clean(r.lower, tag) && Clean(r.lower, c)
    ensures AddBoth(r, [], tag, Some(c)) == if c != tag then [c, tag] else [c]
  {
  }

  /** What the first input contributes stays at the front. */
  lemma {:induction false} FirstStays(r: Resolver, tags: seq<Option<string>>)
    requires tags != []
    ensures Normalised(r, tags[..1]) <= Normalised(r, tags)
  {
    if |tags| == 1 {
      assert tags[..1] == tags;
    } else {
      FirstStays(r, tags[..|tags| - 1]);
      assert tags[..|tags| - 1][..1] == tags[..1];
    }
  }

  /** A form resolves to its canonical, and a tag that gets past the text rules to the one the
      embedding match picks. */
  lemma ResolveWitness(r: Resolver, tag: string)
    requires Sensible(r)
    ensures tag in r.vocab.byForm ==> Clean(r.lower, tag) && Resolve(r, tag) == Some(r.vocab.byForm[tag])
    ensures GetsPast(r, tag) && r.similar(tag).Some? ==> Resolve(r, tag) == r.similar(tag)
  {
    if tag in r.vocab.byForm {
      assert r.vocab.byForm[tag] in r.vocab.canonicals;
    }
  }

  /** Exactly when the normaliser is idempotent: every canonical that a form maps to, and every
      canonical that the embedding match picks for a tag that gets to it, maps to itself. */
  lemma IdempotentExactly(r: Resolver)
    requires Sensible(r)
    ensures Idempotent(r) <==> Settled(r.vocab) && PicksOwn(r)
  {
    if Settled(r.vocab) && PicksOwn(r) {
      forall tags ensures Normalised(r, AsInput(Normalised(r, tags))) == Normalised(r, tags) {
        IdempotentWhenOwn(r, tags);
      }
    } else if Settled(r.vocab) {
      var x :| GetsPast(r, x) && r.similar(x).Some? && !Own(r.vocab, r.similar(x).value);
      ResolveWitness(r, x);
      StrayTag(r, x);
    } else {
      var f :| f in r.vocab.byForm && !Own(r.vocab, r.vocab.byForm[f]);
      ResolveWitness(r, f);
      StrayTag(r, f);
    }
  }

  /** Without an embedding model the condition is that every form's canonical maps to itself. */
  lemma IdempotentExactlyWhenSettled(r: Resolver)
    requires Sensible(r) && forall x :: r.similar(x).None?
    ensures Idempotent(r) <==> Settled(r.vocab)
  {
    IdempotentExactly(r);
  }

  /** The resolver with another embedding match. */
  ghost predicate Picks(r: Resolver, similar: string -> Option<string>) {
    forall x :: similar(x).Some? ==> similar(x).value in r.vocab.canonicals
  }

  ghost predicate AlwaysIdempotent(r: Resolver) {
    forall similar :: Picks(r, similar) ==> Idempotent(r.(similar := similar))
  }

  /** For every embedding match whatever, the condition is that each canonical maps to itself, or
      that each one a form maps to does and no tag at all gets past the text rules. */
  lemma AlwaysIdempotentExactly(r: Resolver)
    requires Sensible(r)
    ensures AlwaysIdempotent(r) <==>
            SelfMapping(r.vocab) || (Settled(r.vocab) && forall x :: !GetsPast(r, x))
  {
    if SelfMapping(r.vocab) || (Settled(r.vocab) && forall x :: !GetsPast(r, x)) {
      forall similar | Picks(r, similar) ensures Idempotent(r.(similar := similar)) {
        AnyPickIsOwn(r, similar);
        IdempotentExactly(r.(similar := similar));
      }
    } else if AlwaysIdempotent(r) {
      IdempotentExactly(r);
      assert Picks(r, r.similar) && r.(similar := r.similar) == r;
      var c :| c in r.vocab.canonicals && !Own(r.vocab, c);
      var x :| GetsPast(r, x);
      StrayPick(r, c, x);
    }
  }

  function AlwaysPick(c: string): string -> Option<string> { (s: string) => Some(c) }

  lemma StrayPick(r: Resolver, c: string, x: string)
    requires Sensible(r) && c in r.vocab.canonicals && !Own(r.vocab, c) && GetsPast(r, x)
    ensures Picks(r, AlwaysPick(c)) && !Idempotent(r.(similar := AlwaysPick(c)))
  {
    var stray := r.(similar := AlwaysPick(c));
    assert GetsPast(stray, x) && stray.similar(x) == Some(c);
    IdempotentExactly(stray);
  }

  lemma AnyPickIsOwn(r: Resolver, similar: string -> Option<string>)
    requires Sensible(r) && Picks(r, similar)
    requires SelfMapping(r.vocab) || (Settled(r.vocab) && forall x :: !GetsPast(r, x))
    ensures var other := r.(similar := similar);
            Sensible(other) && Settled(other.vocab) && PicksOwn(other)
  {
    var other := r.(similar := similar);
    forall x | GetsPast(other, x) && other.similar(x).Some? ensures Own(other.vocab, other.similar(x).value) {
      assert GetsPast(r, x);
    }
  }

  /** For a vocabulary straight from the loader, tag lists are idempotent for every embedding match
      exactly when no canonical is listed by an earlier topic: a lone comma, at least, always gets to
      the embedding match. */
  lemma AlwaysIdempotentAfterLoad(r: Resolver, lines: seq<string>)
    requires Folding(r.lower) && KeepsCommas(r.lower)
    requires LoadRows(Rows(r.lower, lines)) == Some(r.vocab) && Picks(r, r.similar)
    ensures AlwaysIdempotent(r) <==> !Shadowed(Rows(r.lower, lines))
  {
    LoaderWellFormed(r.lower, lines);
    LoaderSelfMaps(Rows(r.lower, lines));
    AlwaysIdempotentExactly(r);
    CommaIsFree(r.lower, lines);
    if r.vocab.topics != [] {
      assert GetsPast(r, ",");
    }
  }

  /** For any case folding it is still sufficient. */
  lemma IdempotentAfterLoad(r: Resolver, lines: seq<string>, tags: seq<Option<string>>)
    requires Folding(r.lower) && LoadRows(Rows(r.lower, lines)) == Some(r.vocab) && Picks(r, r.similar)
    requires !Shadowed(Rows(r.lower, lines))
    ensures Normalised(r, AsInput(Normalised(r, tags))) == Normalised(r, tags)
  {
    LoaderWellFormed(r.lower, lines);
    LoaderSelfMaps(Rows(r.lower, lines));
    AnyPickIsOwn(r, r.similar);
    IdempotentWhenOwn(r, tags);
  }
}
