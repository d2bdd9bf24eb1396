/** src/active_context.py: the context file printer and its line-driven reader. */
module ActiveContext {
  import opened Sequences
  import opened Text

  type Line = string
  type Lines = seq<Line>

  const NO_ITEMS := "_(none)_"
  const UPDATED := "**Updated:**"
  const SESSION := "**Session:**"

  // ---------------------------------------------------------------------------------------
  // Texts and their lines.

  function LinesOf(text: string): (lines: Lines)
    ensures lines != []
  {
    Split(text, '\n')
  }

  /** The lines of a file: no empty one after the last line break. */
  function FileLines(text: string): Lines {
    var lines := LinesOf(text);
    if lines[|lines| - 1] == "" then lines[..|lines| - 1] else lines
  }

  /** The pieces, each with a line break after it. */
  function Terminated(pieces: seq<string>): string {
    if pieces == [] then "" else pieces[0] + "\n" + Terminated(pieces[1..])
  }

  lemma {:induction false} TerminatedAppend(a: seq<string>, b: seq<string>)
    ensures Terminated(a + b) == Terminated(a) + Terminated(b)
  {
    if a == [] {
      assert a + b == b;
    } else {
      TerminatedAppend(a[1..], b);
      assert (a + b)[1..] == a[1..] + b;
    }
  }

  lemma TerminatedExtend(a: seq<string>, x: string)
    ensures Terminated(a + [x]) == Terminated(a) + x + "\n"
  {
    TerminatedAppend(a, [x]);
    assert [x][1..] == [];
  }

  lemma {:induction false} JoinTerminated(pieces: seq<string>)
    requires pieces != []
    ensures Join(pieces, '\n') + "\n" == Terminated(pieces)
  {
    if |pieces| == 1 {
      assert pieces[1..] == [];
    } else {
      JoinTerminated(pieces[1..]);
    }
  }

  // ---------------------------------------------------------------------------------------
  // The printer. A printed file is a list of pieces, which may contain line breaks of their own.

  function Clean(items: seq<Option<string>>): seq<string> {
    if items == [] then []
    else
      var last := items[|items| - 1];
      Clean(items[..|items| - 1]) + (if last.Some? && !Blank(last.value) then [last.value] else [])
  }

  function Bullets(items: seq<string>): seq<string> {
    seq(|items|, i requires 0 <= i < |items| => "- " + items[i])
  }

  /** What is printed for a list of items. */
  function PrintedItems(items: seq<Option<string>>): seq<string> {
    if Clean(items) == [] then [NO_ITEMS] else Clean(items)
  }

  function Heading(title: string): string { "## " + title }

  function Section(title: string, items: seq<Option<string>>): seq<string> {
    [Heading(title)] + Bullets(PrintedItems(items))
  }

  function Body(summary: string): string {
    if RStrip(summary) == "" then NO_ITEMS else RStrip(summary)
  }

  function Header(project: string, updated: string, session: string): seq<string> {
    ["# " + project + " \U{2014} Active Context", "", UPDATED + " " + updated, SESSION + " " + session, "", Heading("Summary")]
  }

  function SessionShown(session: Option<string>): string {
    if session.None? || session.value == "" then "n/a" else session.value
  }

  /** All that is given to the writer, and the time it writes. */
  datatype Input = Input(project: string, summary: string, nextSteps: seq<Option<string>>,
                         pitfalls: seq<Option<string>>, updated: string, session: Option<string>)

  function Pieces(x: Input): seq<string> {
    Header(x.project, x.updated, SessionShown(x.session)) + [Body(x.summary)] + [""]
    + Section("Next Steps", x.nextSteps) + [""] + Section("Pitfalls", x.pitfalls)
  }

  function Printed(x: Input): string { Terminated(Pieces(x)) }

  /** One more piece at the end of a text. */
  method PrintLine(ghost pieces: seq<string>, text: string, x: string) returns (more: string)
    requires text == Terminated(pieces)
    ensures more == text + x + "\n" && more == Terminated(pieces + [x])
  {
    TerminatedExtend(pieces, x);
    more := text + x + "\n";
  }

  method RenderSection(title: string, items: seq<Option<string>>) returns (text: string)
    ensures text == Terminated(Section(title, items))
  {
    var clean := [];
    for n := 0 to |items|
      invariant clean == Clean(items[..n])
    {
      assert items[..n + 1][..n] == items[..n];
      if items[n].Some? && !Blank(items[n].value) {
        clean := clean + [items[n].value];
      }
    }
    assert items[..|items|] == items;
    if clean == [] {
      text := PrintLine([], "", Heading(title));
      text := PrintLine([Heading(title)], text, "- " + NO_ITEMS);
      assert Section(title, items) == [Heading(title)] + ["- " + NO_ITEMS];
      return;
    }
    var lines := [Heading(title)];
    for n := 0 to |clean|
      invariant lines == [Heading(title)] + Bullets(clean[..n])
    {
      lines := lines + ["- " + clean[n]];
    }
    assert clean[..|clean|] == clean;
    JoinTerminated(lines);
    return Join(lines, '\n') + "\n";
  }

  /** None is the missing-project error. */
  method WriteActiveContext(x: Input) returns (doc: Option<string>)
    ensures doc == if x.project == "" then None else Some(Printed(x))
  {
    if x.project == "" {
      return None;
    }
    var body := RStrip(x.summary);
    if body == "" {
      body := NO_ITEMS;
    }
    var steps := RenderSection("Next Steps", x.nextSteps);
    var falls := RenderSection("Pitfalls", x.pitfalls);
    ghost var pieces := Header(x.project, x.updated, SessionShown(x.session));
    var text := HeaderText(x.project, x.updated, SessionShown(x.session));
    text := PrintLine(pieces, text, body);
    text := PrintLine(pieces + [body], text, "");
    pieces := pieces + [body] + [""];
    TerminatedAppend(pieces, Section("Next Steps", x.nextSteps));
    pieces, text := pieces + Section("Next Steps", x.nextSteps), text + steps;
    text := PrintLine(pieces, text, "");
    pieces := pieces + [""];
    TerminatedAppend(pieces, Section("Pitfalls", x.pitfalls));
    return Some(text + falls);
  }

  method HeaderText(project: string, updated: string, session: string) returns (text: string)
    ensures text == Terminated(Header(project, updated, session))
  {
    var title := "# " + project + " \U{2014} Active Context";
    var date, run := UPDATED + " " + updated, SESSION + " " + session;
    text := PrintLine([], "", title);
    text := PrintLine([title], text, "");
    text := PrintLine([title] + [""], text, date);
    text := PrintLine([title] + [""] + [date], text, run);
    text := PrintLine([title] + [""] + [date] + [run], text, "");
    text := PrintLine([title] + [""] + [date] + [run] + [""], text, Heading("Summary"));
    assert [] + [title] == [title];
    assert [title] + [""] + [date] + [run] + [""] + [Heading("Summary")] == Header(project, updated, session);
  }

  // ---------------------------------------------------------------------------------------
  // The line patterns.

  predicate IsField(name: string, line: Line) { name <= line && |line| > |name| }

  predicate IsSection(line: Line) {
    |line| >= 4 && line[0] == '#' && line[1] == '#' && IsSpace(line[2])
  }

  function Title(lower: string -> string, line: Line): string
    requires IsSection(line)
  {
    lower(Strip(line[2..]))
  }

  predicate IsBullet(line: Line) {
    |line| >= 2 && line[0] == '-' && IsSpace(line[1])
  }

  // ---------------------------------------------------------------------------------------
  // The reader.

  datatype Reader = Reader(updated: Option<string>, session: Option<string>, sections: map<string, Lines>,
                           current: Option<string>, buf: Lines)

  const START := Reader(None, None, map[], None, [])

  function Flush(r: Reader): Reader {
    if r.current.Some? then r.(sections := r.sections[r.current.value := r.buf]) else r
  }

  function ReadLine(lower: string -> string, r: Reader, line: Line): Reader {
    if IsField(UPDATED, line) && r.updated.None? then r.(updated := Some(Strip(line[|UPDATED|..])))
    else if IsField(SESSION, line) && r.session.None? then r.(session := Some(Strip(line[|SESSION|..])))
    else if IsSection(line) then Flush(r).(current := Some(Title(lower, line)), buf := [])
    else if r.current.Some? then r.(buf := r.buf + [line])
    else r
  }

  function ReadLines(lower: string -> string, r: Reader, lines: Lines): Reader {
    if lines == [] then r
    else ReadLine(lower, ReadLines(lower, r, lines[..|lines| - 1]), lines[|lines| - 1])
  }

  predicate Placeholder(item: string) {
    item == NO_ITEMS || item == "*(none)*" || item == "(none)"
  }

  function ParseBullets(lines: Lines): seq<string> {
    if lines == [] then []
    else
      var line := lines[|lines| - 1];
      ParseBullets(lines[..|lines| - 1]) +
      (if IsBullet(line) && Strip(line[1..]) != "" && !Placeholder(Strip(line[1..])) then [Strip(line[1..])] else [])
  }

  function Lookup(sections: map<string, Lines>, title: string): Lines {
    if title in sections then sections[title] else []
  }

  /** A summary that is just a placeholder reads as empty. */
  function Shown(text: string): string {
    if text == NO_ITEMS || text == "*(none)*" then "" else text
  }

  datatype Context = Context(summary: string, nextSteps: seq<string>, pitfalls: seq<string>,
                             updated: Option<string>, session: Option<string>)

  function Parsed(lower: string -> string, text: string): Context {
    var r := Flush(ReadLines(lower, START, FileLines(text)));
    Context(Shown(Strip(Join(Lookup(r.sections, "summary"), '\n'))),
            ParseBullets(Lookup(r.sections, "next steps")),
            ParseBullets(Lookup(r.sections, "pitfalls")),
            r.updated,
            if r.session == Some("") || r.session == Some("n/a") then None else r.session)
  }

  method BulletsIn(lines: Lines) returns (items: seq<string>)
    ensures items == ParseBullets(lines)
  {
    items := [];
    for n := 0 to |lines|
      invariant items == ParseBullets(lines[..n])
    {
      assert lines[..n + 1][..n] == lines[..n];
      if !IsBullet(lines[n]) {
        continue;
      }
      var item := Strip(lines[n][1..]);
      if item == "" || Placeholder(item) {
        continue;
      }
      items := items + [item];
    }
    assert lines[..|lines|] == lines;
  }

  /** Trim blank lines at both ends, then strip what is left. */
  method SummaryText(section: Lines) returns (text: string)
    ensures text == Shown(Strip(Join(section, '\n')))
  {
    var t := section;
    while t != [] && Blank(t[0])
      invariant Strip(Join(t, '\n')) == Strip(Join(section, '\n'))
    {
      StripWithoutFirst(t);
      t := t[1..];
    }
    while t != [] && Blank(t[|t| - 1])
      invariant Strip(Join(t, '\n')) == Strip(Join(section, '\n'))
    {
      StripWithoutLast(t);
      t := t[..|t| - 1];
    }
    text := Strip(Join(t, '\n'));
    if text == NO_ITEMS || text == "*(none)*" {
      text := "";
    }
  }

  lemma StripWithoutFirst(t: Lines)
    requires t != [] && Blank(t[0])
    ensures Strip(Join(t, '\n')) == Strip(Join(t[1..], '\n'))
  {
    if |t| > 1 {
      BlankMeansSpaces(t[0]);
      StripLeading(t[0] + ['\n'], Join(t[1..], '\n'));
    }
  }

  lemma {:induction false} JoinExtend(t: Lines, x: Line)
    requires t != []
    ensures Join(t + [x], '\n') == Join(t, '\n') + ['\n'] + x
  {
    assert (t + [x])[1..] == t[1..] + [x];
    if |t| > 1 {
      JoinExtend(t[1..], x);
    } else {
      assert t[1..] + [x] == [x];
    }
  }

  lemma StripAfterBreak(text: string, last: Line)
    requires forall c :: c in last ==> IsSpace(c)
    ensures Strip(text + ['\n'] + last) == Strip(text)
  {
    StripTrailing(text, ['\n'] + last);
    assert text + ['\n'] + last == text + (['\n'] + last);
  }

  lemma StripWithoutLast(t: Lines)
    requires t != [] && Blank(t[|t| - 1])
    ensures Strip(Join(t, '\n')) == Strip(Join(t[..|t| - 1], '\n'))
  {
    var init, last := t[..|t| - 1], t[|t| - 1];
    assert t == init + [last];
    if init == [] {
      assert t == [last];
    } else {
      BlankMeansSpaces(last);
      JoinExtend(init, last);
      StripAfterBreak(Join(init, '\n'), last);
    }
  }

  method ReadActiveContext(lower: string -> string, file: Option<string>) returns (result: Option<Context>)
    ensures result == if file.None? || Blank(file.value) then None else Some(Parsed(lower, file.value))
  {
    if file.None? || Blank(file.value) {
      return None;
    }
    var lines := FileLines(file.value);
    var r := START;
    for n := 0 to |lines|
      invariant r == ReadLines(lower, START, lines[..n])
    {
      assert lines[..n + 1][..n] == lines[..n];
      var raw := lines[n];
      if IsField(UPDATED, raw) && r.updated.None? {
        r := r.(updated := Some(Strip(raw[|UPDATED|..])));
        continue;
      }
      if IsField(SESSION, raw) && r.session.None? {
        r := r.(session := Some(Strip(raw[|SESSION|..])));
        continue;
      }
      if IsSection(raw) {
        r := Flush(r);
        r := r.(current := Some(lower(Strip(raw[2..]))), buf := []);
        continue;
      }
      if r.current.Some? {
        r := r.(buf := r.buf + [raw]);
      }
    }
    assert lines[..|lines|] == lines;
    r := Flush(r);
    var summary := SummaryText(Lookup(r.sections, "summary"));
    var steps := BulletsIn(Lookup(r.sections, "next steps"));
    var falls := BulletsIn(Lookup(r.sections, "pitfalls"));
    var session := if r.session == Some("") || r.session == Some("n/a") then None else r.session;
    return Some(Context(summary, steps, falls, r.updated, session));
  }
}
