/** src/active_context.py: what reading back a printed context file returns, for any strings:
    project, session, summary and items may contain line breaks and headings of their own. */
module ContextRoundTrip {
  import opened Sequences
  import opened Text
  import opened ActiveContext

  /** What is assumed of case folding: it lowers the three section titles. */
  predicate LowersTitles(lower: string -> string) {
    lower("Summary") == "summary" && lower("Next Steps") == "next steps" && lower("Pitfalls") == "pitfalls"
  }

  // ---------------------------------------------------------------------------------------
  // The lines of a printed file.

  /** The lines of all pieces. */
  function Unlined(pieces: seq<string>): Lines {
    if pieces == [] then [] else LinesOf(pieces[0]) + Unlined(pieces[1..])
  }

  lemma {:induction false} UnlinedAppend(a: seq<string>, b: seq<string>)
    ensures Unlined(a + b) == Unlined(a) + Unlined(b)
  {
    if a == [] {
      assert a + b == b;
    } else {
      UnlinedAppend(a[1..], b);
      assert (a + b)[1..] == a[1..] + b && (a + b)[0] == a[0];
      Nest(LinesOf(a[0]), Unlined(a[1..]), Unlined(b));
    }
  }

  lemma UnlinedSix(a: seq<string>, b: seq<string>, c: seq<string>, d: seq<string>, e: seq<string>, f: seq<string>)
    ensures Unlined(a + b + c + d + e + f) == Unlined(a) + Unlined(b) + Unlined(c) + Unlined(d) + Unlined(e) + Unlined(f)
  {
    UnlinedAppend(a + b + c + d + e, f);
    UnlinedAppend(a + b + c + d, e);
    UnlinedAppend(a + b + c, d);
    UnlinedAppend(a + b, c);
    UnlinedAppend(a, b);
  }

  lemma UnlinedOne(x: string)
    ensures Unlined([x]) == LinesOf(x)
  {
    assert [x][1..] == [];
  }

  lemma {:induction false} SplitTerminated(pieces: seq<string>)
    ensures LinesOf(Terminated(pieces)) == Unlined(pieces) + [""]
  {
    if pieces != [] {
      SplitTerminated(pieces[1..]);
      SplitAppend(pieces[0], Terminated(pieces[1..]), '\n');
    }
  }

  lemma FileLinesPrinted(pieces: seq<string>)
    ensures FileLines(Terminated(pieces)) == Unlined(pieces)
  {
    SplitTerminated(pieces);
  }

  lemma SingleLine(x: string)
    requires '\n' !in x
    ensures LinesOf(x) == [x]
  {
    SplitPrefix(x, "", '\n');
    assert x + "" == x;
  }

  /** A prefix without a line break stays in front of the first line. */
  lemma Labelled(tag: string, x: string)
    requires '\n' !in tag
    ensures LinesOf(tag + x) == [tag + LinesOf(x)[0]] + LinesOf(x)[1..]
  {
    SplitPrefix(tag, x, '\n');
  }

  function ItemLines(items: seq<string>): Lines { Unlined(Bullets(items)) }

  function ItemLinesOf(item: string): Lines { LinesOf("- " + item) }

  lemma ItemLinesExtend(items: seq<string>, item: string)
    ensures ItemLines(items + [item]) == ItemLines(items) + ItemLinesOf(item)
  {
    UnlinedAppend(Bullets(items), ["- " + item]);
    UnlinedOne("- " + item);
    assert Bullets(items + [item]) == Bullets(items) + ["- " + item];
  }

  lemma ItemFirst(item: string)
    ensures ItemLinesOf(item) == ["- " + LinesOf(item)[0]] + LinesOf(item)[1..]
  {
    Labelled("- ", item);
  }

  /** The body and everything after it. */
  function AfterHeader(x: Input): Lines {
    (LinesOf(Body(x.summary)) + [""]) + [Heading("Next Steps")] + AfterSteps(x)
  }

  /** The next steps and everything after them. */
  function AfterSteps(x: Input): Lines {
    (ItemLines(PrintedItems(x.nextSteps)) + [""]) + [Heading("Pitfalls")] + ItemLines(PrintedItems(x.pitfalls))
  }

  lemma PrintedParts(header: seq<string>, body: string, steps: seq<string>, falls: seq<string>)
    ensures Unlined(header + [body] + [""] + steps + [""] + falls) ==
            Unlined(header) + LinesOf(body) + [""] + Unlined(steps) + [""] + Unlined(falls)
  {
    UnlinedSix(header, [body], [""], steps, [""], falls);
    UnlinedOne(body);
    UnlinedOne("");
    SingleLine("");
  }

  lemma PrintedLines(x: Input)
    ensures FileLines(Printed(x)) == Unlined(Header(x.project, x.updated, SessionShown(x.session))) + AfterHeader(x)
  {
    var header := Header(x.project, x.updated, SessionShown(x.session));
    var steps, falls := Section("Next Steps", x.nextSteps), Section("Pitfalls", x.pitfalls);
    FileLinesPrinted(Pieces(x));
    PrintedParts(header, Body(x.summary), steps, falls);
    SectionLines("Next Steps", x.nextSteps);
    SectionLines("Pitfalls", x.pitfalls);
    Regroup(Unlined(header), LinesOf(Body(x.summary)), ItemLines(PrintedItems(x.nextSteps)), ItemLines(PrintedItems(x.pitfalls)));
  }

  lemma Regroup(header: Lines, body: Lines, steps: Lines, falls: Lines)
    ensures header + body + [""] + ([Heading("Next Steps")] + steps) + [""] + ([Heading("Pitfalls")] + falls) ==
            header + ((body + [""]) + [Heading("Next Steps")] + ((steps + [""]) + [Heading("Pitfalls")] + falls))
  {
  }

  lemma SectionLines(title: string, items: seq<Option<string>>)
    requires '\n' !in title
    ensures Unlined(Section(title, items)) == [Heading(title)] + ItemLines(PrintedItems(items))
  {
    UnlinedAppend([Heading(title)], Bullets(PrintedItems(items)));
    UnlinedOne(Heading(title));
    SingleLine(Heading(title));
  }

  // ---------------------------------------------------------------------------------------
  // Reading lines.

  lemma {:induction false} ReadAppend(lower: string -> string, r: Reader, a: Lines, b: Lines)
    ensures ReadLines(lower, r, a + b) == ReadLines(lower, ReadLines(lower, r, a), b)
  {
    if b == [] {
      assert a + b == a;
    } else {
      ReadAppend(lower, r, a, b[..|b| - 1]);
      assert (a + b)[..|a + b| - 1] == a + b[..|b| - 1];
    }
  }

  /** A field once met is never overwritten. */
  lemma {:induction false} FieldsStay(lower: string -> string, r: Reader, lines: Lines)
    ensures var e := ReadLines(lower, r, lines);
            && (r.updated.Some? ==> e.updated == r.updated)
            && (r.session.Some? ==> e.session == r.session)
            && (r.current.Some? ==> e.current.Some?)
  {
    if lines != [] {
      FieldsStay(lower, r, lines[..|lines| - 1]);
    }
  }

  /** Both header fields have been met and a section is open. From then on a line either opens a
      section or is added to the open one. */
  predicate InSections(r: Reader) { r.updated.Some? && r.session.Some? && r.current.Some? }

  predicate HasHeading(t: Lines) {
    exists i :: 0 <= i < |t| && IsSection(t[i])
  }

  lemma HeadingIn(a: Lines, b: Lines)
    ensures HasHeading(a + b) <==> HasHeading(a) || HasHeading(b)
  {
    var t := a + b;
    if i :| 0 <= i < |a| && IsSection(a[i]) {
      assert IsSection(t[i]);
    }
    if i :| 0 <= i < |b| && IsSection(b[i]) {
      assert IsSection(t[|a| + i]);
    }
  }

  lemma {:induction false} PlainLines(lower: string -> string, r: Reader, lines: Lines)
    requires InSections(r) && !HasHeading(lines)
    ensures ReadLines(lower, r, lines) == r.(buf := r.buf + lines)
  {
    if lines != [] {
      PlainLines(lower, r, lines[..|lines| - 1]);
      assert lines == lines[..|lines| - 1] + [lines[|lines| - 1]];
    } else {
      assert r.buf + lines == r.buf;
    }
  }

  lemma TitleLine(lower: string -> string, title: string)
    requires title != ""
    ensures IsSection(Heading(title)) && Title(lower, Heading(title)) == lower(Strip(title))
  {
    assert (Heading(title))[2..] == " " + title;
    StripLeading(" ", title);
  }

  lemma StripTitles()
    ensures Strip("Summary") == "Summary" && Strip("Next Steps") == "Next Steps" && Strip("Pitfalls") == "Pitfalls"
  {
    PlainStrip("Summary");
    PlainStrip("Next Steps");
    PlainStrip("Pitfalls");
  }

  /** The three real headings. */
  lemma ReadTitle(lower: string -> string, r: Reader)
    requires LowersTitles(lower)
    ensures ReadLine(lower, r, Heading("Summary")) == Flush(r).(current := Some("summary"), buf := [])
    ensures ReadLine(lower, r, Heading("Next Steps")) == Flush(r).(current := Some("next steps"), buf := [])
    ensures ReadLine(lower, r, Heading("Pitfalls")) == Flush(r).(current := Some("pitfalls"), buf := [])
  {
    StripTitles();
    TitleLine(lower, "Summary");
    TitleLine(lower, "Next Steps");
    TitleLine(lower, "Pitfalls");
    NotField(Heading("Summary"));
    NotField(Heading("Next Steps"));
    NotField(Heading("Pitfalls"));
  }

  lemma NotField(line: Line)
    requires line == "" || line[0] == '#'
    ensures !IsField(UPDATED, line) && !IsField(SESSION, line)
  {
    assert UPDATED[0] == '*' && SESSION[0] == '*';
  }

  // ---------------------------------------------------------------------------------------
  // The last heading wins.

  /** The title of the last heading. */
  function Open(lower: string -> string, lines: Lines): Option<string> {
    if lines == [] then None
    else
      var last := lines[|lines| - 1];
      if IsSection(last) then Some(Title(lower, last)) else Open(lower, lines[..|lines| - 1])
  }

  /** The lines between the last heading with this title and the next heading, if there is one. */
  function Under(lower: string -> string, lines: Lines, title: string): Option<Lines> {
    if lines == [] then None
    else
      var init, last := lines[..|lines| - 1], lines[|lines| - 1];
      if IsSection(last) then (if Title(lower, last) == title then Some([]) else Under(lower, init, title))
      else
        match Under(lower, init, title)
        case Some(t) => if Open(lower, init) == Some(title) then Some(t + [last]) else Some(t)
        case None => None
  }

  lemma {:induction false} OpenIsUnder(lower: string -> string, lines: Lines, title: string)
    ensures Open(lower, lines) == Some(title) ==> Under(lower, lines, title).Some?
    ensures Under(lower, lines, title).Some? ==> Open(lower, lines).Some?
  {
    if lines != [] && !IsSection(lines[|lines| - 1]) {
      OpenIsUnder(lower, lines[..|lines| - 1], title);
    }
  }

  /** What the reader keeps under a title: the lines under the last such heading; without one, what
      it had before, unless that section was still open. */
  lemma {:induction false} LastHeadingWins(lower: string -> string, r: Reader, lines: Lines, title: string)
    requires InSections(r)
    ensures var e := ReadLines(lower, r, lines);
            && e.current == (if Open(lower, lines).Some? then Open(lower, lines) else r.current)
            && match Under(lower, lines, title)
               case Some(t) => Lookup(Flush(e).sections, title) == t
               case None => r.current != Some(title) ==> Lookup(Flush(e).sections, title) == Lookup(r.sections, title)
  {
    FieldsStay(lower, r, lines);
    if lines != [] {
      var init := lines[..|lines| - 1];
      LastHeadingWins(lower, r, init, title);
      FieldsStay(lower, r, init);
      OpenIsUnder(lower, init, title);
    }
  }

  lemma {:induction false} NoHeadingNothingUnder(lower: string -> string, lines: Lines, title: string)
    requires !HasHeading(lines)
    ensures Under(lower, lines, title).None? && Open(lower, lines).None?
  {
    if lines != [] {
      NoHeadingNothingUnder(lower, lines[..|lines| - 1], title);
    }
  }

  // ---------------------------------------------------------------------------------------
  // Nothing is gained on the way: a weight of what was read bounds that of what is kept.

  function Total(w: Line -> nat, lines: Lines): nat {
    if lines == [] then 0 else Total(w, lines[..|lines| - 1]) + w(lines[|lines| - 1])
  }

  function OfHeadings(w: Line -> nat): Line -> nat { (line: Line) => if IsSection(line) then w(line) else 0 }

  lemma {:induction false} TotalAppend(w: Line -> nat, a: Lines, b: Lines)
    ensures Total(w, a + b) == Total(w, a) + Total(w, b)
  {
    if b == [] {
      assert a + b == a;
    } else {
      TotalAppend(w, a, b[..|b| - 1]);
      assert (a + b)[..|a + b| - 1] == a + b[..|b| - 1];
    }
  }

  /** The lines read since the section was opened weigh `read`, the headings among them `headings`. */
  ghost predicate Bounded(w: Line -> nat, r: Reader, title: string, read: nat, headings: nat) {
    && InSections(r) && Total(w, r.buf) + headings <= read
    && (r.current == Some(title) || (title in r.sections && Total(w, r.sections[title]) + headings <= read))
  }

  lemma {:induction false} KeptBounded(lower: string -> string, w: Line -> nat, r: Reader, title: string, lines: Lines)
    requires InSections(r) && r.current == Some(title) && r.buf == []
    ensures Bounded(w, ReadLines(lower, r, lines), title, Total(w, lines), Total(OfHeadings(w), lines))
  {
    if lines != [] {
      var init := lines[..|lines| - 1];
      KeptBounded(lower, w, r, title, init);
    }
  }

  /** What is kept under the section's title weighs no more than what was read, less its headings. */
  lemma SectionBounded(lower: string -> string, w: Line -> nat, r: Reader, title: string, lines: Lines)
    requires InSections(r) && r.current == Some(title) && r.buf == []
    ensures var kept := Lookup(Flush(ReadLines(lower, r, lines)).sections, title);
            Total(w, kept) + Total(OfHeadings(w), lines) <= Total(w, lines)
  {
    KeptBounded(lower, w, r, title, lines);
  }

  // ---------------------------------------------------------------------------------------
  // The ink of lines and items.

  lemma {:induction false} InkJoin(lines: Lines)
    ensures Ink(Join(lines, '\n')) == Total(Ink, lines)
  {
    if lines != [] {
      var init, last := lines[..|lines| - 1], lines[|lines| - 1];
      InkJoin(init);
      assert lines == init + [last];
      if init != [] {
        JoinExtend(init, last);
        InkAppend(Join(init, '\n') + ['\n'], last);
        InkAppend(Join(init, '\n'), ['\n']);
        assert Ink(['\n']) == 0 by { InkZero(['\n']); }
      }
    }
  }

  lemma InkLines(text: string)
    ensures Total(Ink, LinesOf(text)) == Ink(text)
  {
    InkJoin(LinesOf(text));
    JoinSplit(text, '\n');
  }

  /** The ink of the item that a line yields, if any. */
  function Yield(line: Line): nat {
    if IsBullet(line) && !Placeholder(Strip(line[1..])) then Ink(line[1..]) else 0
  }

  lemma {:induction false} InkParsed(lines: Lines)
    ensures Total(Ink, ParseBullets(lines)) == Total(Yield, lines)
  {
    if lines != [] {
      var init, line := lines[..|lines| - 1], lines[|lines| - 1];
      InkParsed(init);
      if IsBullet(line) {
        var item := Strip(line[1..]);
        InkStrip(line[1..]);
        assert ParseBullets(init) + [] == ParseBullets(init);
      }
    }
  }

  lemma {:induction false} YieldsLess(lines: Lines)
    ensures Total(Yield, lines) <= Total(Ink, lines)
    ensures Total(Yield, lines) == Total(Ink, lines) <==> Total(Ink, lines) == 0
  {
    if lines != [] {
      YieldsLess(lines[..|lines| - 1]);
    }
  }

  /** A bullet with nothing but this is not read as an item. */
  predicate LooksEmpty(item: string) {
    item == "" || item == "_(none)_" || item == "*(none)*" || item == "(none)"
  }

  function FirstLine(text: string): Line { LinesOf(text)[0] }

  /** The item is all on its first line, and does not look like the placeholder. */
  predicate Simple(item: string) {
    Strip(FirstLine(item)) == Strip(item) && (Strip(item) == "" || !LooksEmpty(Strip(item)))
  }

  lemma {:induction false} FirstLinePrefix(text: string)
    ensures FirstLine(text) <= text
  {
    if text != "" && text[0] != '\n' {
      FirstLinePrefix(text[1..]);
    }
  }

  lemma InkOfFirst(text: string)
    ensures Ink(text) == Ink(FirstLine(text)) + Total(Ink, LinesOf(text)[1..])
  {
    var lines := LinesOf(text);
    InkLines(text);
    TotalAppend(Ink, [lines[0]], lines[1..]);
    assert lines == [lines[0]] + lines[1..];
    assert [] + [lines[0]] == [lines[0]];
  }

  /** The item is all on its first line exactly when the other lines have no ink. */
  lemma AllOnFirst(item: string)
    ensures Strip(FirstLine(item)) == Strip(item) <==> Total(Ink, LinesOf(item)[1..]) == 0
  {
    FirstLinePrefix(item);
    var first, rest := FirstLine(item), item[|FirstLine(item)|..];
    InkOfFirst(item);
    InkStrip(first);
    InkStrip(item);
    assert item == first + rest;
    InkAppend(first, rest);
    InkZero(rest);
    if Ink(rest) == 0 {
      StripTrailing(first, rest);
    }
  }

  lemma PlaceholderInk(s: string)
    requires Placeholder(Strip(s))
    ensures Ink(s) > 0
  {
    InkStrip(s);
    var p := Strip(s);
    assert !IsSpace(p[0]);
    InkZero(p);
    assert p[0] in p;
  }

  /** The lines of an item yield no more than its ink, and all of it exactly when it is simple. */
  lemma ItemYield(item: string)
    ensures Total(Yield, ItemLinesOf(item)) <= Ink(item)
    ensures Total(Yield, ItemLinesOf(item)) == Ink(item) <==> Simple(item)
  {
    var first, more := FirstLine(item), LinesOf(item)[1..];
    ItemFirst(item);
    TotalAppend(Yield, ["- " + first], more);
    assert [] + ["- " + first] == ["- " + first];
    YieldsLess(more);
    InkOfFirst(item);
    AllOnFirst(item);
    if Placeholder(Strip(first)) {
      PlaceholderInk(first);
    }
  }

  predicate AllSimple(items: seq<string>) {
    forall i :: 0 <= i < |items| ==> Simple(items[i])
  }

  lemma {:induction false} ItemsYield(items: seq<string>)
    ensures Total(Yield, ItemLines(items)) <= Total(Ink, items)
    ensures Total(Yield, ItemLines(items)) == Total(Ink, items) <==> AllSimple(items)
  {
    if items != [] {
      var init, last := items[..|items| - 1], items[|items| - 1];
      ItemsYield(init);
      ItemYield(last);
      assert items == init + [last];
      ItemLinesExtend(init, last);
      TotalAppend(Yield, ItemLines(init), ItemLinesOf(last));
      assert AllSimple(items) <==> AllSimple(init) && Simple(last);
    }
  }

  function Stripped(items: seq<string>): seq<string> {
    seq(|items|, i requires 0 <= i < |items| => Strip(items[i]))
  }

  lemma {:induction false} InkStripped(items: seq<string>)
    ensures Total(Ink, Stripped(items)) == Total(Ink, items)
  {
    if items != [] {
      var init, last := items[..|items| - 1], items[|items| - 1];
      InkStripped(init);
      InkStrip(last);
      assert Stripped(items)[..|items| - 1] == Stripped(init);
    }
  }

  // ---------------------------------------------------------------------------------------
  // Items whose other lines are neither bullets nor headings.

  predicate Inert(line: Line) { !IsBullet(line) && !IsSection(line) }

  predicate InertLines(lines: Lines) { forall i :: 0 <= i < |lines| ==> Inert(lines[i]) }

  predicate AllInert(items: seq<string>) {
    forall i :: 0 <= i < |items| ==> InertLines(LinesOf(items[i])[1..])
  }

  /** Such items are cut to their first lines, of which blank ones and placeholders are dropped. */
  function FirstsOf(items: seq<string>): seq<string> {
    if items == [] then []
    else
      var item := Strip(FirstLine(items[|items| - 1]));
      FirstsOf(items[..|items| - 1]) + (if LooksEmpty(item) then [] else [item])
  }

  lemma {:induction false} ParseAppend(a: Lines, b: Lines)
    ensures ParseBullets(a + b) == ParseBullets(a) + ParseBullets(b)
  {
    if b == [] {
      assert a + b == a;
    } else {
      ParseAppend(a, b[..|b| - 1]);
      assert (a + b)[..|a + b| - 1] == a + b[..|b| - 1];
    }
  }

  lemma {:induction false} ParseInert(lines: Lines)
    requires InertLines(lines)
    ensures ParseBullets(lines) == [] && !HasHeading(lines)
  {
    if lines != [] {
      ParseInert(lines[..|lines| - 1]);
    }
  }

  lemma {:induction false} ParseItems(items: seq<string>)
    requires AllInert(items)
    ensures ParseBullets(ItemLines(items)) == FirstsOf(items) && !HasHeading(ItemLines(items))
  {
    if items != [] {
      var init, last := items[..|items| - 1], items[|items| - 1];
      ParseItems(init);
      ParseOneMore(init, last);
      assert items == init + [last];
    }
  }

  lemma ParseOneMore(items: seq<string>, item: string)
    requires ParseBullets(ItemLines(items)) == FirstsOf(items) && !HasHeading(ItemLines(items))
    requires InertLines(LinesOf(item)[1..])
    ensures ParseBullets(ItemLines(items + [item])) == FirstsOf(items + [item])
    ensures !HasHeading(ItemLines(items + [item]))
  {
    ParseItem(item);
    ItemLinesExtend(items, item);
    ParseAppend(ItemLines(items), ItemLinesOf(item));
    HeadingIn(ItemLines(items), ItemLinesOf(item));
    assert (items + [item])[..|items|] == items;
  }

  lemma ParseItem(item: string)
    requires InertLines(LinesOf(item)[1..])
    ensures var first := Strip(FirstLine(item));
            ParseBullets(ItemLinesOf(item)) == if LooksEmpty(first) then [] else [first]
    ensures !HasHeading(ItemLinesOf(item))
  {
    ItemFirst(item);
    ParseAppend(["- " + FirstLine(item)], LinesOf(item)[1..]);
    HeadingIn(["- " + FirstLine(item)], LinesOf(item)[1..]);
    ParseInert(LinesOf(item)[1..]);
  }

  lemma {:induction false} NoInkIsInert(lines: Lines)
    requires Total(Ink, lines) == 0
    ensures InertLines(lines)
  {
    if lines != [] {
      NoInkIsInert(lines[..|lines| - 1]);
      var line := lines[|lines| - 1];
      InkZero(line);
      assert Inert(line);
      assert forall i :: 0 <= i < |lines| - 1 ==> lines[i] == lines[..|lines| - 1][i];
    }
  }

  lemma SimpleIsInert(items: seq<string>)
    requires AllSimple(items)
    ensures AllInert(items)
  {
    forall i | 0 <= i < |items| ensures InertLines(LinesOf(items[i])[1..]) {
      AllOnFirst(items[i]);
      NoInkIsInert(LinesOf(items[i])[1..]);
    }
  }

  predicate NoneBlank(items: seq<string>) { forall i :: 0 <= i < |items| ==> !Blank(items[i]) }

  lemma {:induction false} FirstsOfSimple(items: seq<string>)
    requires AllSimple(items) && NoneBlank(items)
    ensures FirstsOf(items) == Stripped(items)
  {
    if items != [] {
      var init, last := items[..|items| - 1], items[|items| - 1];
      FirstsOfSimple(init);
      assert Simple(items[|items| - 1]) && !Blank(items[|items| - 1]);
      assert Stripped(items) == Stripped(init) + [Strip(last)];
    }
  }

  // ---------------------------------------------------------------------------------------
  // One section of items.

  /** What is kept under a section's title after its items were read. */
  function KeptItems(lower: string -> string, r: Reader, title: string, items: seq<string>, end: Lines): seq<string> {
    ParseBullets(Lookup(Flush(ReadLines(lower, r, ItemLines(items) + end)).sections, title))
  }

  lemma KeptWhenInert(lower: string -> string, r: Reader, title: string, items: seq<string>, end: Lines)
    requires InSections(r) && r.current == Some(title) && r.buf == [] && (end == [] || end == [""])
    requires AllInert(items)
    ensures KeptItems(lower, r, title, items, end) == FirstsOf(items)
  {
    var lines := ItemLines(items) + end;
    ParseItems(items);
    assert InertLines(end);
    ParseInert(end);
    HeadingIn(ItemLines(items), end);
    PlainLines(lower, r, lines);
    assert [] + lines == lines;
    ParseAppend(ItemLines(items), end);
    assert FirstsOf(items) + [] == FirstsOf(items);
  }

  lemma KeptAtMost(lower: string -> string, r: Reader, title: string, items: seq<string>, end: Lines)
    requires InSections(r) && r.current == Some(title) && r.buf == [] && (end == [] || end == [""])
    requires KeptItems(lower, r, title, items, end) == Stripped(items)
    ensures AllSimple(items)
  {
    var lines := ItemLines(items) + end;
    var kept := Lookup(Flush(ReadLines(lower, r, lines)).sections, title);
    SectionBounded(lower, Yield, r, title, lines);
    InkParsed(kept);
    InkStripped(items);
    TotalAppend(Yield, ItemLines(items), end);
    ItemsYield(items);
  }

  /** The items come back whole exactly when each is simple. */
  lemma KeptExactly(lower: string -> string, r: Reader, title: string, items: seq<string>, end: Lines)
    requires InSections(r) && r.current == Some(title) && r.buf == [] && (end == [] || end == [""])
    requires NoneBlank(items)
    ensures KeptItems(lower, r, title, items, end) == Stripped(items) <==> AllSimple(items)
  {
    if AllSimple(items) {
      SimpleIsInert(items);
      KeptWhenInert(lower, r, title, items, end);
      FirstsOfSimple(items);
    } else if KeptItems(lower, r, title, items, end) == Stripped(items) {
      KeptAtMost(lower, r, title, items, end);
    }
  }

  lemma {:induction false} CleanNotBlank(items: seq<Option<string>>)
    ensures NoneBlank(Clean(items))
  {
    if items != [] {
      CleanNotBlank(items[..|items| - 1]);
    }
  }

  lemma PlainStrip(s: string)
    requires s != "" && !IsSpace(s[0]) && !IsSpace(s[|s| - 1])
    ensures Strip(s) == s
  {
  }

  lemma NoItemsLine()
    ensures LinesOf(NO_ITEMS) == [NO_ITEMS] && !HasHeading([NO_ITEMS]) && Strip(NO_ITEMS) == NO_ITEMS
  {
    SingleLine(NO_ITEMS);
    PlainStrip(NO_ITEMS);
    assert [NO_ITEMS][0][0] == '_';
  }

  /** The placeholder that is printed for no items reads as none. */
  lemma {:induction false} PlaceholderReadsEmpty()
    ensures AllInert([NO_ITEMS]) && FirstsOf([NO_ITEMS]) == []
  {
    NoItemsLine();
    assert [NO_ITEMS][..0] == [];
  }

  /** The same for the items as printed, the placeholder included. */
  lemma PrintedKept(lower: string -> string, r: Reader, title: string, items: seq<Option<string>>, end: Lines)
    requires InSections(r) && r.current == Some(title) && r.buf == [] && (end == [] || end == [""])
    ensures var kept, clean := KeptItems(lower, r, title, PrintedItems(items), end), Clean(items);
            && (kept == Stripped(clean) <==> AllSimple(clean))
            && (AllInert(clean) ==> kept == FirstsOf(clean))
  {
    CleanNotBlank(items);
    if Clean(items) == [] {
      PlaceholderReadsEmpty();
      KeptWhenInert(lower, r, title, [NO_ITEMS], end);
    } else {
      KeptExactly(lower, r, title, Clean(items), end);
      if AllInert(Clean(items)) {
        KeptWhenInert(lower, r, title, Clean(items), end);
      }
    }
  }

  lemma InertHasNoHeading(items: seq<Option<string>>)
    requires AllInert(Clean(items))
    ensures !HasHeading(ItemLines(PrintedItems(items)))
  {
    PlaceholderReadsEmpty();
    ParseItems(PrintedItems(items));
  }

  // ---------------------------------------------------------------------------------------
  // The header.

  /** A labelled value, of which only the first line carries the tag. */
  lemma ReadLabelled(lower: string -> string, r: Reader, tag: string, value: string)
    requires tag == UPDATED || (tag == SESSION && r.updated.Some?)
    ensures var first := ReadLine(lower, r, tag + " " + FirstLine(value));
            ReadLines(lower, r, LinesOf(tag + " " + value)) == ReadLines(lower, first, LinesOf(value)[1..])
  {
    Labelled(tag + " ", value);
    ReadAppend(lower, r, [tag + " " + FirstLine(value)], LinesOf(value)[1..]);
  }

  /** The reader when the body starts. */
  ghost predicate AtBody(r: Reader) { InSections(r) && r.current == Some("summary") && r.buf == [] }

  function AfterTitle(lower: string -> string, project: string): Reader {
    ReadLines(lower, START, LinesOf("# " + project + " \U{2014} Active Context") + [""])
  }

  function AfterDate(lower: string -> string, project: string, updated: string): Reader {
    ReadLines(lower, AfterTitle(lower, project), LinesOf(UPDATED + " " + updated))
  }

  function AfterRun(lower: string -> string, project: string, updated: string, session: string): Reader {
    ReadLines(lower, AfterDate(lower, project, updated), LinesOf(SESSION + " " + session) + [""])
  }

  lemma UnlinedSixOnes(a: string, b: string, c: string, d: string, e: string, f: string)
    ensures Unlined([a] + [b] + [c] + [d] + [e] + [f]) ==
            LinesOf(a) + LinesOf(b) + LinesOf(c) + LinesOf(d) + LinesOf(e) + LinesOf(f)
  {
    UnlinedSix([a], [b], [c], [d], [e], [f]);
    UnlinedOne(a);
    UnlinedOne(b);
    UnlinedOne(c);
    UnlinedOne(d);
    UnlinedOne(e);
    UnlinedOne(f);
  }

  lemma HeaderUnlined(project: string, updated: string, session: string)
    ensures Unlined(Header(project, updated, session)) ==
            (LinesOf("# " + project + " \U{2014} Active Context") + [""]) + LinesOf(UPDATED + " " + updated)
            + (LinesOf(SESSION + " " + session) + [""]) + [Heading("Summary")]
  {
    SixPieces("# " + project + " \U{2014} Active Context", UPDATED + " " + updated, SESSION + " " + session, Heading("Summary"));
  }

  lemma SixPieces(title: string, date: string, run: string, heading: string)
    requires '\n' !in heading
    ensures Unlined([title, "", date, run, "", heading]) ==
            (LinesOf(title) + [""]) + LinesOf(date) + (LinesOf(run) + [""]) + [heading]
  {
    assert [title, "", date, run, "", heading] == [title] + [""] + [date] + [run] + [""] + [heading];
    UnlinedSixOnes(title, "", date, run, "", heading);
    SingleLine("");
    SingleLine(heading);
    Nest(LinesOf(title) + [""] + LinesOf(date), LinesOf(run), [""]);
  }

  lemma HeaderLines(lower: string -> string, project: string, updated: string, session: string)
    ensures ReadLines(lower, START, Unlined(Header(project, updated, session))) ==
            ReadLine(lower, AfterRun(lower, project, updated, session), Heading("Summary"))
  {
    HeaderUnlined(project, updated, session);
    ReadFour(lower, START, LinesOf("# " + project + " \U{2014} Active Context") + [""],
             LinesOf(UPDATED + " " + updated), LinesOf(SESSION + " " + session) + [""], Heading("Summary"));
  }

  lemma ReadFour(lower: string -> string, r: Reader, a: Lines, b: Lines, c: Lines, line: Line)
    ensures ReadLines(lower, r, a + b + c + [line]) ==
            ReadLine(lower, ReadLines(lower, ReadLines(lower, ReadLines(lower, r, a), b), c), line)
  {
    ReadAppend(lower, r, a + b + c, [line]);
    ReadAppend(lower, r, a + b, c);
    ReadAppend(lower, r, a, b);
  }

  /** Whatever the header contains, both fields are met and the summary is open when the body
      starts. */
  lemma HeaderOpens(lower: string -> string, project: string, updated: string, session: string)
    requires LowersTitles(lower)
    ensures AtBody(ReadLines(lower, START, Unlined(Header(project, updated, session))))
  {
    var r1, r2 := AfterTitle(lower, project), AfterDate(lower, project, updated);
    var r3 := AfterRun(lower, project, updated, session);
    ReadLabelled(lower, r1, UPDATED, updated);
    FieldsStay(lower, ReadLine(lower, r1, UPDATED + " " + FirstLine(updated)), LinesOf(updated)[1..]);
    assert r2.updated.Some?;
    RunMet(lower, r2, session);
    HeaderLines(lower, project, updated, session);
    ReadTitle(lower, r3);
  }

  /** The session line sets the session if nothing before it did; nothing after it does. */
  lemma RunMet(lower: string -> string, r: Reader, session: string)
    requires r.updated.Some?
    ensures var e := ReadLines(lower, r, LinesOf(SESSION + " " + session) + [""]);
            && e.updated == r.updated && e.session.Some?
            && (r.session.None? ==> e.session == Some(Strip(FirstLine(session))))
  {
    var first := ReadLine(lower, r, SESSION + " " + FirstLine(session));
    ReadLabelled(lower, r, SESSION, session);
    FieldsStay(lower, first, LinesOf(session)[1..]);
    ReadAppend(lower, r, LinesOf(SESSION + " " + session), [""]);
    FieldsStay(lower, ReadLines(lower, r, LinesOf(SESSION + " " + session)), [""]);
    FieldsStay(lower, r, LinesOf(SESSION + " " + session) + [""]);
  }

  /** With a project name and a time on one line, the time and the first line of the session are
      what is met. */
  lemma HeaderFields(lower: string -> string, project: string, updated: string, session: string)
    requires LowersTitles(lower) && '\n' !in project && '\n' !in updated
    ensures var r := ReadLines(lower, START, Unlined(Header(project, updated, session)));
            r.updated == Some(Strip(updated)) && r.session == Some(Strip(FirstLine(session)))
  {
    TitleIgnored(lower, project);
    SingleLine(updated);
    ReadLabelled(lower, START, UPDATED, updated);
    var r2 := AfterDate(lower, project, updated);
    assert r2 == START.(updated := Some(Strip(updated)));
    RunMet(lower, r2, session);
    HeaderLines(lower, project, updated, session);
    ReadTitle(lower, AfterRun(lower, project, updated, session));
  }

  lemma TitleIgnored(lower: string -> string, project: string)
    requires '\n' !in project
    ensures AfterTitle(lower, project) == START
  {
    var line := "# " + project + " \U{2014} Active Context";
    SingleLine(line);
    assert line[0] == '#' && line[1] == ' ';
    NotField(line);
    NotField("");
    ReadAppend(lower, START, [line], [""]);
  }

  // ---------------------------------------------------------------------------------------
  // The reader's states along a printed file.

  function BodyStart(lower: string -> string, x: Input): Reader {
    ReadLines(lower, START, Unlined(Header(x.project, x.updated, SessionShown(x.session))))
  }

  function StepsStart(lower: string -> string, x: Input): Reader {
    ReadLine(lower, ReadLines(lower, BodyStart(lower, x), LinesOf(Body(x.summary)) + [""]), Heading("Next Steps"))
  }

  function FallsStart(lower: string -> string, x: Input): Reader {
    ReadLine(lower, ReadLines(lower, StepsStart(lower, x), ItemLines(PrintedItems(x.nextSteps)) + [""]), Heading("Pitfalls"))
  }

  function FileEnd(lower: string -> string, x: Input): Reader {
    ReadLines(lower, FallsStart(lower, x), ItemLines(PrintedItems(x.pitfalls)))
  }

  lemma ReadPrinted(lower: string -> string, x: Input)
    ensures ReadLines(lower, StepsStart(lower, x), AfterSteps(x)) == FileEnd(lower, x)
    ensures ReadLines(lower, START, FileLines(Printed(x))) == FileEnd(lower, x)
  {
    var header := Unlined(Header(x.project, x.updated, SessionShown(x.session)));
    var body, steps := LinesOf(Body(x.summary)) + [""], ItemLines(PrintedItems(x.nextSteps)) + [""];
    var falls := ItemLines(PrintedItems(x.pitfalls));
    PrintedLines(x);
    ReadAppend(lower, START, header, AfterHeader(x));
    ReadThree(lower, BodyStart(lower, x), body, Heading("Next Steps"), AfterSteps(x));
    ReadThree(lower, StepsStart(lower, x), steps, Heading("Pitfalls"), falls);
  }

  lemma ReadThree(lower: string -> string, r: Reader, a: Lines, line: Line, b: Lines)
    ensures ReadLines(lower, r, a + [line] + b) == ReadLines(lower, ReadLine(lower, ReadLines(lower, r, a), line), b)
  {
    ReadAppend(lower, r, a + [line], b);
    ReadAppend(lower, r, a, [line]);
  }

  /** The open section at each of them, and the table it starts from. */
  lemma SectionStarts(lower: string -> string, x: Input)
    requires LowersTitles(lower)
    ensures AtBody(BodyStart(lower, x))
    ensures var r := StepsStart(lower, x);
            && InSections(r) && r.current == Some("next steps") && r.buf == []
            && r.sections == Flush(ReadLines(lower, BodyStart(lower, x), LinesOf(Body(x.summary)) + [""])).sections
    ensures var r := FallsStart(lower, x);
            && InSections(r) && r.current == Some("pitfalls") && r.buf == []
            && r.sections == Flush(ReadLines(lower, StepsStart(lower, x), ItemLines(PrintedItems(x.nextSteps)) + [""])).sections
  {
    HeaderOpens(lower, x.project, x.updated, SessionShown(x.session));
    FieldsStay(lower, BodyStart(lower, x), LinesOf(Body(x.summary)) + [""]);
    ReadTitle(lower, ReadLines(lower, BodyStart(lower, x), LinesOf(Body(x.summary)) + [""]));
    FieldsStay(lower, StepsStart(lower, x), ItemLines(PrintedItems(x.nextSteps)) + [""]);
    ReadTitle(lower, ReadLines(lower, StepsStart(lower, x), ItemLines(PrintedItems(x.nextSteps)) + [""]));
  }

  // ---------------------------------------------------------------------------------------
  // The round trip of the items.

  /** Whatever the summary, the project and the other items contain, the pitfalls come back
      stripped and in order exactly when each is all on its first line and no placeholder. */
  lemma PitfallsExactly(lower: string -> string, x: Input)
    requires LowersTitles(lower)
    ensures var falls := Clean(x.pitfalls);
            && (Parsed(lower, Printed(x)).pitfalls == Stripped(falls) <==> AllSimple(falls))
            && (AllInert(falls) ==> Parsed(lower, Printed(x)).pitfalls == FirstsOf(falls))
  {
    ReadPrinted(lower, x);
    SectionStarts(lower, x);
    PrintedKept(lower, FallsStart(lower, x), "pitfalls", x.pitfalls, []);
    assert ItemLines(PrintedItems(x.pitfalls)) + [] == ItemLines(PrintedItems(x.pitfalls));
  }

  /** The next steps that a heading inside the pitfalls fakes, if any. */
  function FakedSteps(lower: string -> string, x: Input): Option<Lines> {
    Under(lower, ItemLines(PrintedItems(x.pitfalls)), "next steps")
  }

  /** So do the next steps, unless a pitfall contains a heading of that name: then what is under
      the last one is read instead. */
  lemma NextStepsExactly(lower: string -> string, x: Input)
    requires LowersTitles(lower)
    ensures var steps, read := Clean(x.nextSteps), Parsed(lower, Printed(x)).nextSteps;
            match FakedSteps(lower, x)
            case Some(fake) => read == ParseBullets(fake)
            case None => (read == Stripped(steps) <==> AllSimple(steps)) && (AllInert(steps) ==> read == FirstsOf(steps))
  {
    ReadPrinted(lower, x);
    SectionStarts(lower, x);
    PrintedKept(lower, StepsStart(lower, x), "next steps", x.nextSteps, [""]);
    LastHeadingWins(lower, FallsStart(lower, x), ItemLines(PrintedItems(x.pitfalls)), "next steps");
  }

  predicate SingleLines(items: seq<string>) { forall i :: 0 <= i < |items| ==> '\n' !in items[i] }

  /** The items that were given at all. */
  function Given(items: seq<Option<string>>): seq<string> {
    if items == [] then []
    else Given(items[..|items| - 1]) + (if items[|items| - 1].Some? then [items[|items| - 1].value] else [])
  }

  /** The given items that do not look empty, stripped, in order. */
  function Expected(items: seq<string>): seq<string> {
    Reject(Stripped(items), (item: string) => LooksEmpty(item))
  }

  lemma ExpectedExtend(items: seq<string>, item: string)
    ensures Expected(items + [item]) == Expected(items) + (if LooksEmpty(Strip(item)) then [] else [Strip(item)])
  {
    assert Stripped(items + [item]) == Stripped(items) + [Strip(item)];
    RejectAppend(Stripped(items), [Strip(item)], (item: string) => LooksEmpty(item));
    assert [Strip(item)][1..] == [];
  }

  lemma {:induction false} CleanGiven(items: seq<Option<string>>)
    requires SingleLines(Given(items))
    ensures SingleLines(Clean(items)) && FirstsOf(Clean(items)) == Expected(Given(items))
  {
    if items != [] {
      var init, last := items[..|items| - 1], items[|items| - 1];
      GivenLast(items);
      CleanGiven(init);
      if last.Some? {
        ExpectedExtend(Given(init), last.value);
        FirstsExtend(Clean(init), last.value);
      }
      assert Clean(init) + [] == Clean(init) && Given(init) + [] == Given(init);
    }
  }

  lemma GivenLast(items: seq<Option<string>>)
    requires items != [] && SingleLines(Given(items))
    ensures SingleLines(Given(items[..|items| - 1]))
    ensures items[|items| - 1].Some? ==> '\n' !in items[|items| - 1].value
  {
    var init, last := Given(items[..|items| - 1]), items[|items| - 1];
    assert forall i :: 0 <= i < |init| ==> init[i] == Given(items)[i];
    if last.Some? {
      assert Given(items)[|init|] == last.value;
    }
  }

  lemma FirstsExtend(items: seq<string>, item: string)
    requires '\n' !in item
    ensures FirstsOf(items + [item]) == FirstsOf(items) + (if LooksEmpty(Strip(item)) then [] else [Strip(item)])
  {
    SingleLine(item);
    assert (items + [item])[..|items|] == items;
  }

  lemma SingleLinesInert(items: seq<string>)
    requires SingleLines(items)
    ensures AllInert(items)
  {
    forall i | 0 <= i < |items| ensures InertLines(LinesOf(items[i])[1..]) {
      SingleLine(items[i]);
    }
  }

  /** Items on one line each come back whatever the summary contains, fake headings included:
      stripped, in order, without those that look empty. */
  lemma ItemsRoundTrip(lower: string -> string, x: Input)
    requires LowersTitles(lower) && SingleLines(Given(x.nextSteps)) && SingleLines(Given(x.pitfalls))
    ensures Parsed(lower, Printed(x)).nextSteps == Expected(Given(x.nextSteps))
    ensures Parsed(lower, Printed(x)).pitfalls == Expected(Given(x.pitfalls))
  {
    CleanGiven(x.nextSteps);
    CleanGiven(x.pitfalls);
    SingleLinesInert(Clean(x.nextSteps));
    SingleLinesInert(Clean(x.pitfalls));
    InertHasNoHeading(x.pitfalls);
    NoHeadingNothingUnder(lower, ItemLines(PrintedItems(x.pitfalls)), "next steps");
    NextStepsExactly(lower, x);
    PitfallsExactly(lower, x);
  }

  /** So items of which none looks empty all come back. */
  lemma PlainItemsReturn(lower: string -> string, x: Input, items: seq<Option<string>>)
    requires LowersTitles(lower) && SingleLines(Given(x.nextSteps)) && SingleLines(Given(x.pitfalls))
    requires forall item :: item in Given(items) ==>
               Strip(item) != "" && Strip(item) != "_(none)_" && Strip(item) != "*(none)*" && Strip(item) != "(none)"
    ensures items == x.nextSteps ==> Parsed(lower, Printed(x)).nextSteps == Stripped(Given(items))
    ensures items == x.pitfalls ==> Parsed(lower, Printed(x)).pitfalls == Stripped(Given(items))
  {
    ItemsRoundTrip(lower, x);
    RejectNothing(Stripped(Given(items)), (item: string) => LooksEmpty(item));
  }

  /** With a project name and a time on one line, the time comes back, and the first line of the
      session, which reads as none if it is empty or stands for none. */
  lemma FieldsRoundTrip(lower: string -> string, x: Input)
    requires LowersTitles(lower) && '\n' !in x.project && '\n' !in x.updated
    ensures var context, shown := Parsed(lower, Printed(x)), Strip(FirstLine(if x.session.None? then "" else x.session.value));
            && context.updated == Some(Strip(x.updated))
            && context.session == if x.session.None? || shown == "" || shown == "n/a" then None else Some(shown)
  {
    PrintedLines(x);
    HeaderFields(lower, x.project, x.updated, SessionShown(x.session));
    ReadAppend(lower, START, Unlined(Header(x.project, x.updated, SessionShown(x.session))), AfterHeader(x));
    FieldsStay(lower, BodyStart(lower, x), AfterHeader(x));
    SingleLine("n/a");
    PlainStrip("n/a");
  }

  // ---------------------------------------------------------------------------------------
  // The round trip of the summary.

  lemma {:induction false} LStripKeeps(s: string, c: char)
    requires c in s && !IsSpace(c)
    ensures c in LStrip(s)
  {
    if IsSpace(s[0]) {
      assert s == [s[0]] + s[1..];
      LStripKeeps(s[1..], c);
    }
  }

  lemma RStripKeeps(s: string, c: char)
    requires c in s && !IsSpace(c)
    ensures c in RStrip(s)
  {
    RStripRest(s);
    assert s == RStrip(s) + s[|RStrip(s)|..];
  }

  lemma StripKeeps(s: string, c: char)
    requires c in s && !IsSpace(c)
    ensures c in Strip(s)
  {
    LStripKeeps(s, c);
    RStripKeeps(LStrip(s), c);
  }

  lemma {:induction false} InSomeLine(text: string, i: nat, c: char)
    requires i < |LinesOf(text)| && c in LinesOf(text)[i]
    ensures c in text
  {
    if text != "" {
      var rest := LinesOf(text[1..]);
      assert text == [text[0]] + text[1..];
      if text[0] == '\n' {
        InSomeLine(text[1..], i - 1, c);
      } else if i > 0 || c in rest[0] {
        InSomeLine(text[1..], i, c);
      }
    }
  }

  /** A text with a heading keeps a '#' when stripped, so it is not read as a placeholder. */
  lemma HeadingShown(text: string)
    requires HasHeading(LinesOf(text))
    ensures Shown(Strip(text)) == Strip(text) != ""
  {
    var i :| 0 <= i < |LinesOf(text)| && IsSection(LinesOf(text)[i]);
    assert LinesOf(text)[i][0] in LinesOf(text)[i];
    InSomeLine(text, i, '#');
    StripKeeps(text, '#');
    assert '#' !in NO_ITEMS && '#' !in "*(none)*";
  }

  lemma {:induction false} HeadingsHaveInk(lines: Lines)
    requires HasHeading(lines)
    ensures Total(OfHeadings(Ink), lines) > 0
  {
    var last := lines[|lines| - 1];
    if IsSection(last) {
      InkZero(last);
      assert last[0] in last;
    } else {
      HeadingsHaveInk(lines[..|lines| - 1]);
    }
  }

  lemma BodyText(summary: string)
    ensures Shown(Strip(Body(summary))) == Shown(Strip(summary))
    ensures HasHeading(LinesOf(Body(summary))) <==> HasHeading(LinesOf(RStrip(summary)))
  {
    StripRStrip(summary);
    NoItemsLine();
    SingleLine("");
    assert !IsSection("");
  }

  /** What a stripped summary means: two texts stand for none. */
  function Meant(text: string): string {
    if text == "_(none)_" || text == "*(none)*" then "" else text
  }

  function KeptSummary(lower: string -> string, r: Reader, body: string): Lines {
    Lookup(Flush(ReadLines(lower, r, LinesOf(body) + [""])).sections, "summary")
  }

  /** Without a heading in the body its text is kept; with one some of its ink is lost. */
  lemma SummaryKept(lower: string -> string, r: Reader, body: string)
    requires AtBody(r)
    ensures var kept := KeptSummary(lower, r, body);
            if HasHeading(LinesOf(body)) then Ink(Strip(Join(kept, '\n'))) < Ink(Strip(body))
            else Strip(Join(kept, '\n')) == Strip(body)
  {
    var lines := LinesOf(body);
    HeadingIn(lines, [""]);
    if HasHeading(lines) {
      var kept := KeptSummary(lower, r, body);
      SectionBounded(lower, Ink, r, "summary", lines + [""]);
      HeadingsHaveInk(lines + [""]);
      InkLines(body);
      InkJoin(kept);
      InkStrip(Join(kept, '\n'));
      InkStrip(body);
    } else {
      PlainLines(lower, r, lines + [""]);
      assert [] + (lines + [""]) == lines + [""];
      JoinExtend(lines, "");
      JoinSplit(body, '\n');
      StripAfterBreak(body, "");
    }
  }

  /** The summary that a heading inside the items fakes, if any. */
  function FakedSummary(lower: string -> string, x: Input): Option<Lines> { Under(lower, AfterSteps(x), "summary") }

  /** The summary comes back stripped, with a placeholder read as empty, exactly when no line of
      the printed body is a section heading; unless an item contains a heading of that name: then
      what is under the last one is read instead. */
  lemma SummaryRoundTripExactly(lower: string -> string, x: Input)
    requires LowersTitles(lower)
    ensures var read := Parsed(lower, Printed(x)).summary;
            match FakedSummary(lower, x)
            case Some(fake) => read == Meant(Strip(Join(fake, '\n')))
            case None => read == Meant(Strip(x.summary)) <==> !HasHeading(LinesOf(RStrip(x.summary)))
  {
    var body := Body(x.summary);
    ReadPrinted(lower, x);
    SectionStarts(lower, x);
    SummaryKept(lower, BodyStart(lower, x), body);
    LastHeadingWins(lower, StepsStart(lower, x), AfterSteps(x), "summary");
    BodyText(x.summary);
    if HasHeading(LinesOf(body)) {
      HeadingShown(body);
    }
  }

  /** Items whose other lines are neither bullets nor headings, so all items on one line, fake
      neither the summary nor the next steps. */
  lemma InertFakesNothing(lower: string -> string, x: Input)
    requires LowersTitles(lower) && AllInert(Clean(x.nextSteps)) && AllInert(Clean(x.pitfalls))
    ensures FakedSummary(lower, x).None? && FakedSteps(lower, x).None?
  {
    var steps, falls := ItemLines(PrintedItems(x.nextSteps)) + [""], ItemLines(PrintedItems(x.pitfalls));
    InertHasNoHeading(x.nextSteps);
    InertHasNoHeading(x.pitfalls);
    HeadingIn(ItemLines(PrintedItems(x.nextSteps)), [""]);
    NoHeadingNothingUnder(lower, steps, "summary");
    NoHeadingNothingUnder(lower, falls, "next steps");
    StripTitles();
    TitleLine(lower, "Pitfalls");
    assert (steps + [Heading("Pitfalls")])[..|steps|] == steps;
    UnderPlain(lower, steps + [Heading("Pitfalls")], falls, "summary");
  }

  lemma {:induction false} UnderPlain(lower: string -> string, a: Lines, b: Lines, title: string)
    requires !HasHeading(b) && Under(lower, a, title).None?
    ensures Under(lower, a + b, title).None?
  {
    if b == [] {
      assert a + b == a;
    } else {
      UnderPlain(lower, a, b[..|b| - 1], title);
      assert (a + b)[..|a + b| - 1] == a + b[..|b| - 1];
    }
  }

  /** So with items on one line each the condition on the body is the whole of it. */
  lemma SummaryRoundTrip(lower: string -> string, x: Input)
    requires LowersTitles(lower) && SingleLines(Given(x.nextSteps)) && SingleLines(Given(x.pitfalls))
    ensures Parsed(lower, Printed(x)).summary == Meant(Strip(x.summary)) <==> !HasHeading(LinesOf(RStrip(x.summary)))
  {
    CleanGiven(x.nextSteps);
    CleanGiven(x.pitfalls);
    SingleLinesInert(Clean(x.nextSteps));
    SingleLinesInert(Clean(x.pitfalls));
    InertFakesNothing(lower, x);
    SummaryRoundTripExactly(lower, x);
  }

  // ---------------------------------------------------------------------------------------
  // The line patterns and the printed text, told literally.

  ghost predicate Spaces(w: string) { forall c :: c in w ==> IsSpace(c) }

  /** The line is the mark, some spaces, and the rest. */
  ghost predicate Marked(line: Line, mark: string, w: string, rest: string) {
    w != "" && Spaces(w) && line == mark + w + rest
  }

  /** A section heading is two hashes, spaces, and a title; its title is folded and stripped. */
  lemma SectionPattern(lower: string -> string, line: Line)
    ensures IsSection(line) <==> exists w, rest :: Marked(line, "##", w, rest) && rest != ""
    ensures forall w, rest :: Marked(line, "##", w, rest) && rest != "" ==> Title(lower, line) == lower(Strip(rest))
  {
    if IsSection(line) {
      assert Marked(line, "##", line[2..3], line[3..]);
    }
    forall w, rest | Marked(line, "##", w, rest) && rest != ""
      ensures IsSection(line) && Title(lower, line) == lower(Strip(rest))
    {
      assert line[2] == w[0] && w[0] in w;
      assert line[2..] == w + rest;
      StripLeading(w, rest);
    }
  }

  /** A bullet is a dash, spaces, and an item, possibly none. */
  lemma BulletPattern(line: Line)
    ensures IsBullet(line) <==> exists w, rest :: Marked(line, "-", w, rest)
    ensures forall w, rest :: Marked(line, "-", w, rest) ==>
              ParseBullets([line]) == if LooksEmpty(Strip(rest)) then [] else [Strip(rest)]
  {
    if IsBullet(line) {
      assert Marked(line, "-", line[1..2], line[2..]);
    }
    forall w, rest | Marked(line, "-", w, rest)
      ensures IsBullet(line) && ParseBullets([line]) == if LooksEmpty(Strip(rest)) then [] else [Strip(rest)]
    {
      assert line[1] == w[0] && w[0] in w;
      assert line[1..] == w + rest && [line][..0] == [];
      StripLeading(w, rest);
    }
  }

  lemma {:induction false} ItemLinesPlain(items: seq<string>)
    requires SingleLines(items)
    ensures ItemLines(items) == Bullets(items)
  {
    if items != [] {
      var init, last := items[..|items| - 1], items[|items| - 1];
      ItemLinesPlain(init);
      ItemLinesExtend(init, last);
      SingleLine("- " + last);
      assert items == init + [last] && Bullets(items) == Bullets(init) + ["- " + last];
    }
  }

  /** What stands for a list of items in the file. */
  function ListLines(items: seq<string>): Lines {
    if items == [] then ["- _(none)_"] else seq(|items|, i requires 0 <= i < |items| => "- " + items[i])
  }

  lemma ListPrinted(items: seq<Option<string>>)
    requires SingleLines(Given(items))
    ensures ItemLines(PrintedItems(items)) == ListLines(Clean(items))
  {
    CleanGiven(items);
    ItemLinesPlain(PrintedItems(items));
    assert "- " + NO_ITEMS == "- _(none)_";
  }

  /** The printed file, line by line, when only the summary has line breaks. */
  lemma PrintedFile(x: Input)
    requires '\n' !in x.project && '\n' !in x.updated && (x.session.Some? ==> '\n' !in x.session.value)
    requires SingleLines(Given(x.nextSteps)) && SingleLines(Given(x.pitfalls))
    ensures FileLines(Printed(x)) ==
              ["# " + x.project + " \U{2014} Active Context", "", "**Updated:** " + x.updated,
               "**Session:** " + (if x.session.None? || x.session.value == "" then "n/a" else x.session.value),
               "", "## Summary"]
              + LinesOf(if RStrip(x.summary) == "" then "_(none)_" else RStrip(x.summary))
              + ["", "## Next Steps"] + ListLines(Clean(x.nextSteps)) + ["", "## Pitfalls"] + ListLines(Clean(x.pitfalls))
  {
    PrintedLines(x);
    ListPrinted(x.nextSteps);
    ListPrinted(x.pitfalls);
    HeaderPlain(x.project, x.updated, SessionShown(x.session));
    HeadingTexts();
    Grouped(Unlined(Header(x.project, x.updated, SessionShown(x.session))), LinesOf(Body(x.summary)), Heading("Next Steps"),
            ListLines(Clean(x.nextSteps)), Heading("Pitfalls"), ListLines(Clean(x.pitfalls)));
  }

  lemma Grouped(header: Lines, body: Lines, a: Line, steps: Lines, b: Line, falls: Lines)
    ensures header + ((body + [""]) + [a] + ((steps + [""]) + [b] + falls)) ==
            header + body + ["", a] + steps + ["", b] + falls
  {
  }

  lemma HeadingTexts()
    ensures Heading("Summary") == "## Summary" && Heading("Next Steps") == "## Next Steps" && Heading("Pitfalls") == "## Pitfalls"
  {
    Prefixed("## ", "Summary", "## Summary");
    Prefixed("## ", "Next Steps", "## Next Steps");
    Prefixed("## ", "Pitfalls", "## Pitfalls");
  }

  lemma Prefixed(a: string, b: string, whole: string)
    requires |whole| == |a| + |b| && whole[..|a|] == a && whole[|a|..] == b
    ensures a + b == whole
  {
  }

  lemma HeaderPlain(project: string, updated: string, session: string)
    requires '\n' !in project && '\n' !in updated && '\n' !in session
    ensures Unlined(Header(project, updated, session)) ==
            ["# " + project + " \U{2014} Active Context", "", "**Updated:** " + updated, "**Session:** " + session, "",
             Heading("Summary")]
  {
    HeaderUnlined(project, updated, session);
    SingleLine("# " + project + " \U{2014} Active Context");
    SingleLine(UPDATED + " " + updated);
    SingleLine(SESSION + " " + session);
    assert UPDATED + " " + updated == "**Updated:** " + updated;
    assert SESSION + " " + session == "**Session:** " + session;
  }

  /** A header field is its label and anything after it, which is read stripped, once. */
  lemma FieldPattern(lower: string -> string, r: Reader, rest: string)
    requires rest != ""
    ensures r.updated.None? ==> ReadLine(lower, r, "**Updated:**" + rest) == r.(updated := Some(Strip(rest)))
    ensures r.session.None? ==> ReadLine(lower, r, "**Session:**" + rest) == r.(session := Some(Strip(rest)))
  {
    var date, run := UPDATED + rest, SESSION + rest;
    assert date[|UPDATED|..] == rest && run[|SESSION|..] == rest;
    assert run[2] == SESSION[2] == 'S' && UPDATED[2] == 'U';
  }

  /** Any other line is taken as a heading, or is added to the open section. */
  lemma OtherLine(lower: string -> string, r: Reader, line: Line)
    requires |line| <= 12 || line[..12] != "**Updated:**"
    requires |line| <= 12 || line[..12] != "**Session:**"
    requires !IsSection(line)
    ensures ReadLine(lower, r, line) == if r.current.None? then r else r.(buf := r.buf + [line])
  {
    assert |UPDATED| == 12 && |SESSION| == 12;
  }

  /** A text's lines are its parts between line breaks; a break at its very end adds none. */
  lemma FileLinesMeaning(text: string)
    ensures text != "" && text[|text| - 1] != '\n' ==> FileLines(text) == LinesOf(text)
    ensures FileLines(text + "\n") == LinesOf(text)
    ensures Join(LinesOf(text), '\n') == text && forall i :: 0 <= i < |LinesOf(text)| ==> '\n' !in LinesOf(text)[i]
  {
    JoinSplit(text, '\n');
    SplitParts(text, '\n');
    SplitAppend(text, "", '\n');
    assert text + ['\n'] + "" == text + "\n";
    if LinesOf(text)[|LinesOf(text)| - 1] == "" && |LinesOf(text)| > 1 {
      JoinExtend(LinesOf(text)[..|LinesOf(text)| - 1], "");
      assert LinesOf(text) == LinesOf(text)[..|LinesOf(text)| - 1] + [""];
    }
  }
}
