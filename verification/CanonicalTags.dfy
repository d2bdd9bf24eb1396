/** src/canonical_tags.py: the controlled vocabulary and the mapping of free-form tags to it. */
module CanonicalTags {
  import opened Sequences
  import opened EditDistance
  import opened Text

  datatype Topic = Topic(canonical: string, aliases: seq<string>)

  /** `forms` lists the keys of `byForm` in insertion order. */
  datatype Vocabulary = Vocabulary(topics: seq<Topic>, forms: seq<string>, byForm: map<string, string>,
                                   canonicals: set<string>)

  const NO_VOCABULARY := Vocabulary([], [], map[], {})

  function Normalise(lower: string -> string, tag: string): string { lower(Strip(tag)) }

  /** What is assumed of case folding: folding a stripped tag again changes nothing, and no
      non-empty text folds to the empty one. */
  ghost predicate Folding(lower: string -> string) {
    && (forall s :: Normalise(lower, Normalise(lower, s)) == Normalise(lower, s))
    && (forall s :: s != "" ==> lower(s) != "")
  }

  // ---------------------------------------------------------------------------------------
  // The loader.

  function PartsOf(lower: string -> string, pieces: seq<string>): seq<string> {
    if pieces == [] then []
    else (if Strip(pieces[0]) != "" then [Normalise(lower, pieces[0])] else []) + PartsOf(lower, pieces[1..])
  }

  /** The normalised parts of one line; none for blank lines and comments. */
  function Parts(lower: string -> string, raw: string): seq<string> {
    var line := Strip(raw);
    if line == "" || line[0] == '#' then [] else PartsOf(lower, Split(line, ','))
  }

  function Rows(lower: string -> string, lines: seq<string>): seq<seq<string>> {
    if lines == [] then []
    else
      var row := Parts(lower, lines[|lines| - 1]);
      Rows(lower, lines[..|lines| - 1]) + (if row == [] then [] else [row])
  }

  /** The first definition of a form wins. */
  function AddForm(v: Vocabulary, form: string, canonical: string): Vocabulary {
    if form in v.byForm then v
    else v.(forms := v.forms + [form], byForm := v.byForm[form := canonical])
  }

  function AddForms(v: Vocabulary, forms: seq<string>, canonical: string): Vocabulary {
    if forms == [] then v
    else AddForm(AddForms(v, forms[..|forms| - 1], canonical), forms[|forms| - 1], canonical)
  }

  function LoadRow(v: Vocabulary, row: seq<string>): Vocabulary
    requires row != []
  {
    AddForms(v.(topics := v.topics + [Topic(row[0], row[1..])], canonicals := v.canonicals + {row[0]}), row, row[0])
  }

  /** None is the duplicate-canonical error. */
  function LoadRows(rows: seq<seq<string>>): Option<Vocabulary> {
    if rows == [] then Some(NO_VOCABULARY)
    else
      var row := rows[|rows| - 1];
      match LoadRows(rows[..|rows| - 1])
      case None => None
      case Some(v) => if row == [] || row[0] in v.canonicals then None else Some(LoadRow(v, row))
  }

  method LoadVocabulary(file: Option<seq<string>>, lower: string -> string) returns (result: Option<Vocabulary>)
    ensures file.None? ==> result == Some(NO_VOCABULARY)
    ensures file.Some? ==> result == LoadRows(Rows(lower, file.value))
  {
    if file.None? {
      return Some(NO_VOCABULARY);
    }
    var lines := file.value;
    var v := NO_VOCABULARY;
    ghost var rows: seq<seq<string>> := [];
    for n := 0 to |lines|
      invariant rows == Rows(lower, lines[..n]) && LoadRows(rows) == Some(v)
    {
      RowsExtend(lower, lines, n);
      var parts := Parts(lower, lines[n]);
      if parts == [] {
        continue;
      }
      rows := rows + [parts];
      if parts[0] in v.canonicals {
        LoadRowsPrefix(Rows(lower, lines), rows);
        return None;
      }
      v := AddTopic(v, parts);
    }
    assert lines[..|lines|] == lines;
    return Some(v);
  }

  method AddTopic(before: Vocabulary, parts: seq<string>) returns (v: Vocabulary)
    requires parts != []
    ensures v == LoadRow(before, parts)
  {
    var canonical := parts[0];
    v := before.(topics := before.topics + [Topic(canonical, parts[1..])],
                 canonicals := before.canonicals + {canonical});
    ghost var declared := v;
    for f := 0 to |parts|
      invariant v == AddForms(declared, parts[..f], canonical)
    {
      assert parts[..f + 1][..f] == parts[..f];
      if parts[f] in v.byForm {
        continue;
      }
      v := v.(forms := v.forms + [parts[f]], byForm := v.byForm[parts[f] := canonical]);
    }
    assert parts[..|parts|] == parts;
  }

  lemma {:induction false} RowsExtend(lower: string -> string, lines: seq<string>, n: nat)
    requires n < |lines|
    ensures var row := Parts(lower, lines[n]);
            Rows(lower, lines[..n + 1]) == Rows(lower, lines[..n]) + (if row == [] then [] else [row])
    ensures Rows(lower, lines[..n + 1]) <= Rows(lower, lines)
  {
    assert lines[..n + 1][..n] == lines[..n];
    RowsPrefix(lower, lines, n + 1);
  }

  /** The pieces, stripped and folded. */
  function Folded(lower: string -> string, pieces: seq<string>): seq<string> {
    seq(|pieces|, i requires 0 <= i < |pieces| => lower(Strip(pieces[i])))
  }

  function IsBlank(): string -> bool { (piece: string) => Strip(piece) == "" }

  lemma {:induction false} PartsOfMeaning(lower: string -> string, pieces: seq<string>)
    ensures PartsOf(lower, pieces) == Folded(lower, Reject(pieces, IsBlank()))
  {
    if pieces != [] {
      var rest := Reject(pieces[1..], IsBlank());
      PartsOfMeaning(lower, pieces[1..]);
      assert Folded(lower, [pieces[0]] + rest) == [Normalise(lower, pieces[0])] + Folded(lower, rest);
    }
  }

  /** The parts of a line, told from its text: a blank line or a comment has none; otherwise they
      are its comma-separated pieces, stripped and folded, without the blank ones. */
  lemma PartsMeaning(lower: string -> string, raw: string, pieces: seq<string>)
    requires pieces != [] && (forall i :: 0 <= i < |pieces| ==> ',' !in pieces[i]) && Join(pieces, ',') == Strip(raw)
    ensures Parts(lower, raw) == if Strip(raw) == "" || Strip(raw)[0] == '#' then []
                                 else Folded(lower, Reject(pieces, IsBlank()))
  {
    SplitJoin(pieces, ',');
    PartsOfMeaning(lower, pieces);
  }

  /** The rows of a file are those of its lines, one after the other. */
  lemma {:induction false} RowsAppend(lower: string -> string, a: seq<string>, b: seq<string>)
    ensures Rows(lower, a + b) == Rows(lower, a) + Rows(lower, b)
    decreases |b|
  {
    if |b| == 0 {
      NothingAdded(a, b);
      NothingAdded(Rows(lower, a), Rows(lower, b));
    } else {
      var init, last := b[..|b| - 1], b[|b| - 1];
      assert b == init + [last];
      RowsAppend(lower, a, init);
      RowsAppendOne(lower, a, init, last);
    }
  }

  lemma NothingAdded<T>(a: seq<T>, b: seq<T>)
    requires b == []
    ensures a + b == a
  {
  }

  lemma RowsAppendOne(lower: string -> string, a: seq<string>, b: seq<string>, line: string)
    requires Rows(lower, a + b) == Rows(lower, a) + Rows(lower, b)
    ensures Rows(lower, a + (b + [line])) == Rows(lower, a) + Rows(lower, b + [line])
  {
    Nest(a, b, [line]);
    RowsSnoc(lower, a + b, line);
    RowsSnoc(lower, b, line);
    Nest(Rows(lower, a), Rows(lower, b), Rows(lower, [line]));
  }

  lemma RowsSnoc(lower: string -> string, lines: seq<string>, line: string)
    ensures Rows(lower, lines + [line]) == Rows(lower, lines) + Rows(lower, [line])
  {
    RowsOfLine(lower, line);
    assert (lines + [line])[..|lines|] == lines;
  }

  lemma RowsOfLine(lower: string -> string, line: string)
    ensures Rows(lower, [line]) == if Parts(lower, line) == [] then [] else [Parts(lower, line)]
  {
    assert [line][..0] == [];
  }

  lemma {:induction false} RowsPrefix(lower: string -> string, lines: seq<string>, n: nat)
    requires n <= |lines|
    ensures Rows(lower, lines[..n]) <= Rows(lower, lines)
    decreases |lines|
  {
    if n < |lines| {
      var init := lines[..|lines| - 1];
      assert init[..n] == lines[..n];
      RowsPrefix(lower, init, n);
    } else {
      assert lines[..n] == lines;
    }
  }

  /** Once a duplicate canonical is met the load fails, whatever follows. */
  lemma {:induction false} LoadRowsPrefix(rows: seq<seq<string>>, before: seq<seq<string>>)
    requires before <= rows && LoadRows(before).None?
    ensures LoadRows(rows).None?
    decreases |rows|
  {
    if |before| < |rows| {
      LoadRowsPrefix(rows[..|rows| - 1], before);
    } else {
      assert before == rows;
    }
  }

  /** Row `i` is the first one that lists `form`. */
  ghost predicate FirstRowWith(rows: seq<seq<string>>, form: string, i: int) {
    0 <= i < |rows| && form in rows[i] && forall j :: 0 <= j < i ==> form !in rows[j]
  }

  /** The first row that lists `form` is headed by `canonical`. */
  ghost predicate DefinedAs(rows: seq<seq<string>>, form: string, canonical: string) {
    exists i :: FirstRowWith(rows, form, i) && rows[i][0] == canonical
  }

  lemma {:induction false} AddFormsEffect(v: Vocabulary, forms: seq<string>, canonical: string)
    ensures var w := AddForms(v, forms, canonical);
            && w.topics == v.topics && w.canonicals == v.canonicals
            && w.byForm.Keys == v.byForm.Keys + (set f | f in forms)
            && (forall f :: f in w.byForm ==> w.byForm[f] == if f in v.byForm then v.byForm[f] else canonical)
            && ((set f | f in v.forms) == v.byForm.Keys ==> (set f | f in w.forms) == w.byForm.Keys)
  {
    if forms != [] {
      var last := forms[|forms| - 1];
      assert forms == forms[..|forms| - 1] + [last];
      AddFormsEffect(v, forms[..|forms| - 1], canonical);
    }
  }

  ghost predicate TopicsOf(rows: seq<seq<string>>, v: Vocabulary) {
    && |v.topics| == |rows|
    && (forall i :: 0 <= i < |rows| ==> rows[i] != [] && v.topics[i] == Topic(rows[i][0], rows[i][1..]))
    && v.canonicals == (set i | 0 <= i < |rows| :: rows[i][0])
    && (forall i, j :: 0 <= i < j < |rows| ==> rows[i][0] != rows[j][0])
  }

  ghost predicate FormsOf(rows: seq<seq<string>>, v: Vocabulary) {
    && (set f | f in v.forms) == v.byForm.Keys
    && (forall f :: f in v.byForm ==> DefinedAs(rows, f, v.byForm[f]))
    && (forall row, f :: row in rows && f in row ==> f in v.byForm)
  }

  ghost predicate Loaded(rows: seq<seq<string>>, v: Vocabulary) {
    TopicsOf(rows, v) && FormsOf(rows, v)
  }

  lemma FormsStep(rows: seq<seq<string>>, u: Vocabulary, row: seq<string>)
    requires row != [] && (forall r :: r in rows ==> r != []) && FormsOf(rows, u)
    ensures FormsOf(rows + [row], AddForms(u, row, row[0]))
  {
    var v := AddForms(u, row, row[0]);
    AddFormsEffect(u, row, row[0]);
    forall f | f in v.byForm ensures DefinedAs(rows + [row], f, v.byForm[f]) {
      if f in u.byForm {
        var i :| FirstRowWith(rows, f, i) && rows[i][0] == u.byForm[f];
        assert FirstRowWith(rows + [row], f, i);
      } else {
        assert forall j :: 0 <= j < |rows| ==> f !in rows[j];
        assert FirstRowWith(rows + [row], f, |rows|);
      }
    }
  }

  lemma TopicsStep(rows: seq<seq<string>>, u: Vocabulary, row: seq<string>)
    requires row != [] && row[0] !in u.canonicals && TopicsOf(rows, u)
    ensures TopicsOf(rows + [row], u.(topics := u.topics + [Topic(row[0], row[1..])], canonicals := u.canonicals + {row[0]}))
  {
    var all := rows + [row];
    assert all[|rows|] == row && forall i :: 0 <= i < |rows| ==> all[i] == rows[i];
    forall c | c in u.canonicals + {row[0]} ensures exists i :: 0 <= i < |all| && all[i][0] == c {
      if c == row[0] {
        assert all[|rows|][0] == c;
      } else {
        var i :| 0 <= i < |rows| && rows[i][0] == c;
        assert all[i][0] == c;
      }
    }
  }

  /** Exactly what a load produces: the topics in order, the canonicals distinct, and each
      form mapped to the canonical of the first row that lists it. */
  lemma {:induction false} LoadMeaning(rows: seq<seq<string>>)
    requires LoadRows(rows).Some?
    ensures Loaded(rows, LoadRows(rows).value)
  {
    if rows != [] {
      var before, row := rows[..|rows| - 1], rows[|rows| - 1];
      LoadMeaning(before);
      var u := LoadRows(before).value;
      var declared := u.(topics := u.topics + [Topic(row[0], row[1..])], canonicals := u.canonicals + {row[0]});
      TopicsStep(before, u, row);
      FormsStep(before, declared, row);
      AddFormsEffect(declared, row, row[0]);
      assert rows == before + [row];
    }
  }

  /** A load succeeds exactly when no two rows have the same canonical. */
  lemma {:induction false} LoadsExactly(rows: seq<seq<string>>)
    requires forall i :: 0 <= i < |rows| ==> rows[i] != []
    ensures LoadRows(rows).Some? <==> forall i, j :: 0 <= i < j < |rows| ==> rows[i][0] != rows[j][0]
  {
    if rows != [] {
      var before, row := rows[..|rows| - 1], rows[|rows| - 1];
      LoadsExactly(before);
      if LoadRows(before).Some? {
        LoadMeaning(before);
        HeadsSoFar(before, LoadRows(before).value, row[0]);
      }
    }
  }

  lemma HeadsSoFar(rows: seq<seq<string>>, v: Vocabulary, c: string)
    requires TopicsOf(rows, v)
    ensures c in v.canonicals <==> exists i :: 0 <= i < |rows| && rows[i][0] == c
  {
  }

  /** The forms of all rows, one after the other. */
  function FormsIn(rows: seq<seq<string>>): seq<string> {
    if rows == [] then [] else FormsIn(rows[..|rows| - 1]) + rows[|rows| - 1]
  }

  lemma {:induction false} FormsAdded(v: Vocabulary, before: seq<string>, forms: seq<string>, canonical: string)
    requires v.forms == Deduped(before) && (set f | f in v.forms) == v.byForm.Keys
    ensures var w := AddForms(v, forms, canonical);
            w.forms == Deduped(before + forms) && (set f | f in w.forms) == w.byForm.Keys
  {
    if forms == [] {
      assert before + forms == before;
    } else {
      var init, last := forms[..|forms| - 1], forms[|forms| - 1];
      FormsAdded(v, before, init, canonical);
      DedupedExtend(before + init, last);
      assert before + forms == before + init + [last];
    }
  }

  /** The forms are listed in the order in which they first occur. */
  lemma {:induction false} FormsInOrder(rows: seq<seq<string>>)
    requires LoadRows(rows).Some?
    ensures LoadRows(rows).value.forms == Deduped(FormsIn(rows))
  {
    if rows != [] {
      var before, row := rows[..|rows| - 1], rows[|rows| - 1];
      FormsInOrder(before);
      LoadMeaning(before);
      var u := LoadRows(before).value;
      FormsAdded(u.(topics := u.topics + [Topic(row[0], row[1..])], canonicals := u.canonicals + {row[0]}),
                 FormsIn(before), row, row[0]);
    }
  }

  /** Every canonical maps to itself. */
  ghost predicate SelfMapping(v: Vocabulary) {
    forall c :: c in v.canonicals ==> c in v.byForm && v.byForm[c] == c
  }

  /** Some canonical is already an alias of an earlier topic. */
  ghost predicate Shadowed(rows: seq<seq<string>>) {
    exists i, j :: 0 <= j < i < |rows| && rows[i] != [] && rows[i][0] in rows[j]
  }

  /** Whatever is loaded maps forms only to declared canonicals, and maps every canonical to
      itself exactly when no canonical is listed by an earlier topic. */
  lemma LoaderSelfMaps(rows: seq<seq<string>>)
    requires LoadRows(rows).Some?
    ensures var v := LoadRows(rows).value;
            && (forall f :: f in v.byForm ==> v.byForm[f] in v.canonicals)
            && (SelfMapping(v) <==> !Shadowed(rows))
  {
    LoadMeaning(rows);
    var v := LoadRows(rows).value;
    forall f | f in v.byForm ensures v.byForm[f] in v.canonicals {
      var i :| FirstRowWith(rows, f, i) && rows[i][0] == v.byForm[f];
    }
    if Shadowed(rows) {
      var i, j :| 0 <= j < i < |rows| && rows[i] != [] && rows[i][0] in rows[j];
    } else {
      forall c | c in v.canonicals ensures c in v.byForm && v.byForm[c] == c {
        var i :| 0 <= i < |rows| && rows[i][0] == c;
        assert c in rows[i];
        var k :| FirstRowWith(rows, c, k) && rows[k][0] == v.byForm[c];
        assert k == i;
      }
    }
  }

  ghost predicate Clean(lower: string -> string, s: string) {
    s != "" && Normalise(lower, s) == s
  }

  /** Forms and canonicals are normalised and non-empty, forms map to canonicals, canonicals are
      forms, and there are topics whenever there are forms. */
  ghost predicate WellFormed(lower: string -> string, v: Vocabulary) {
    && (set f | f in v.forms) == v.byForm.Keys
    && (forall f :: f in v.byForm ==> Clean(lower, f) && v.byForm[f] in v.canonicals)
    && (forall c :: c in v.canonicals ==> c in v.byForm)
    && (v.topics == [] ==> v.byForm == map[])
  }

  lemma {:induction false} RowsAreClean(lower: string -> string, lines: seq<string>)
    requires Folding(lower)
    ensures forall row, f :: row in Rows(lower, lines) && f in row ==> Clean(lower, f)
  {
    if lines != [] {
      RowsAreClean(lower, lines[..|lines| - 1]);
      var line := Strip(lines[|lines| - 1]);
      PartsAreClean(lower, Split(line, ','));
    }
  }

  lemma {:induction false} PartsAreClean(lower: string -> string, pieces: seq<string>)
    requires Folding(lower)
    ensures forall f :: f in PartsOf(lower, pieces) ==> Clean(lower, f)
  {
    if pieces != [] {
      PartsAreClean(lower, pieces[1..]);
    }
  }

  /** Case folding leaves commas alone and makes none. */
  ghost predicate KeepsCommas(lower: string -> string) {
    lower(",") == "," && forall s :: ',' !in s ==> ',' !in lower(s)
  }

  lemma {:induction false} PartsHaveNoComma(lower: string -> string, pieces: seq<string>)
    requires KeepsCommas(lower) && forall i :: 0 <= i < |pieces| ==> ',' !in pieces[i]
    ensures forall f :: f in PartsOf(lower, pieces) ==> ',' !in f
  {
    if pieces != [] {
      PartsHaveNoComma(lower, pieces[1..]);
      StripFrom(pieces[0], ',');
    }
  }

  lemma {:induction false} RowsHaveNoComma(lower: string -> string, lines: seq<string>)
    requires KeepsCommas(lower)
    ensures forall row, f :: row in Rows(lower, lines) && f in row ==> ',' !in f
  {
    if lines != [] {
      RowsHaveNoComma(lower, lines[..|lines| - 1]);
      var line := Strip(lines[|lines| - 1]);
      SplitParts(line, ',');
      PartsHaveNoComma(lower, Split(line, ','));
    }
  }

  /** The comma is a clean tag that no loaded vocabulary has as a form. */
  lemma CommaIsFree(lower: string -> string, lines: seq<string>)
    requires KeepsCommas(lower) && LoadRows(Rows(lower, lines)).Some?
    ensures Clean(lower, ",") && "," !in LoadRows(Rows(lower, lines)).value.byForm
  {
    var rows := Rows(lower, lines);
    RowsHaveNoComma(lower, lines);
    LoadMeaning(rows);
    var v := LoadRows(rows).value;
    forall f | f in v.byForm ensures ',' !in f {
      var i :| FirstRowWith(rows, f, i) && rows[i][0] == v.byForm[f];
      assert rows[i] in rows;
    }
  }

  lemma {:induction false} LoaderWellFormed(lower: string -> string, lines: seq<string>)
    requires Folding(lower) && LoadRows(Rows(lower, lines)).Some?
    ensures WellFormed(lower, LoadRows(Rows(lower, lines)).value)
  {
    var rows := Rows(lower, lines);
    RowsAreClean(lower, lines);
    LoadMeaning(rows);
    var v := LoadRows(rows).value;
    forall f | f in v.byForm ensures Clean(lower, f) && v.byForm[f] in v.canonicals {
      var i :| FirstRowWith(rows, f, i) && rows[i][0] == v.byForm[f];
      assert rows[i] in rows && rows[i][0] in rows[i];
    }
    forall c | c in v.canonicals ensures c in v.byForm {
      var i :| 0 <= i < |rows| && rows[i][0] == c;
      assert rows[i] in rows && c in rows[i];
    }
    assert v.topics == [] ==> rows == [];
  }
}
