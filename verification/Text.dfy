/** The string primitives the tag vocabulary and the context file share: stripping and
    splitting, on the six ASCII whitespace characters. */
module Text {

  predicate IsSpace(c: char) {
    c == ' ' || c == '\t' || c == '\n' || c == '\r' || c == '\U{0B}' || c == '\U{0C}'
  }

  function LStrip(s: string): string {
    if s == [] || !IsSpace(s[0]) then s else LStrip(s[1..])
  }

  function RStrip(s: string): string {
    if s == [] || !IsSpace(s[|s| - 1]) then s else RStrip(s[..|s| - 1])
  }

  function Strip(s: string): string { RStrip(LStrip(s)) }

  predicate Blank(s: string) { Strip(s) == [] }

  lemma {:induction false} RStripKeepsHead(s: string)
    ensures RStrip(s) <= s
    ensures RStrip(s) == [] || !IsSpace(RStrip(s)[|RStrip(s)| - 1])
    ensures s != [] && !IsSpace(s[0]) ==> RStrip(s) != []
  {
    if s != [] && IsSpace(s[|s| - 1]) {
      RStripKeepsHead(s[..|s| - 1]);
    }
  }

  lemma {:induction false} LStripHead(s: string)
    ensures LStrip(s) == [] || !IsSpace(LStrip(s)[0])
    ensures LStrip(s) == [] <==> forall c :: c in s ==> IsSpace(c)
  {
    if s != [] {
      assert s == [s[0]] + s[1..];
      if IsSpace(s[0]) {
        LStripHead(s[1..]);
      }
    }
  }

  lemma {:induction false} BlankMeansSpaces(s: string)
    ensures Blank(s) <==> forall c :: c in s ==> IsSpace(c)
  {
    LStripHead(s);
    RStripKeepsHead(LStrip(s));
  }

  /** The pieces of `s` between occurrences of `sep`; always at least one. */
  function Split(s: string, sep: char): (pieces: seq<string>)
    ensures pieces != []
  {
    if s == [] then [[]]
    else
      var rest := Split(s[1..], sep);
      if s[0] == sep then [[]] + rest
      else [[s[0]] + rest[0]] + rest[1..]
  }

  /** The pieces with `sep` between them. */
  function Join(pieces: seq<string>, sep: char): string {
    if pieces == [] then ""
    else if |pieces| == 1 then pieces[0]
    else pieces[0] + [sep] + Join(pieces[1..], sep)
  }

  /** A character put before a text that is split into `first` and `more`. */
  lemma SplitCons(x: char, s: string, sep: char)
    ensures var first, more := Split(s, sep)[0], Split(s, sep)[1..];
            Split([x] + s, sep) == if x == sep then [""] + Split(s, sep) else [[x] + first] + more
  {
    assert ([x] + s)[1..] == s;
  }

  lemma ConsAppend(x: char, a: seq<string>, b: seq<string>)
    requires a != []
    ensures (a + b)[0] == a[0] && [[x] + a[0]] + (a + b)[1..] == [[x] + a[0]] + a[1..] + b
    ensures [""] + (a + b) == [""] + a + b
  {
  }

  lemma {:induction false} SplitAppend(a: string, b: string, sep: char)
    ensures Split(a + [sep] + b, sep) == Split(a, sep) + Split(b, sep)
  {
    if a == "" {
      assert a + [sep] + b == [sep] + b;
      SplitCons(sep, b, sep);
    } else {
      var x, a' := a[0], a[1..];
      SplitAppend(a', b, sep);
      assert a + [sep] + b == [x] + (a' + [sep] + b) && a == [x] + a';
      SplitCons(x, a' + [sep] + b, sep);
      SplitCons(x, a', sep);
      ConsAppend(x, Split(a', sep), Split(b, sep));
    }
  }

  /** A prefix without the separator goes to the first piece. */
  lemma {:induction false} SplitPrefix(a: string, b: string, sep: char)
    requires sep !in a
    ensures Split(a + b, sep) == [a + Split(b, sep)[0]] + Split(b, sep)[1..]
  {
    var first, more := Split(b, sep)[0], Split(b, sep)[1..];
    if a == "" {
      assert a + b == b && a + first == first;
    } else {
      var x, a' := a[0], a[1..];
      assert a + b == [x] + (a' + b) && a == [x] + a' && [x] + (a' + first) == a + first;
      SplitPrefix(a', b, sep);
      SplitCons(x, a' + b, sep);
      assert ([a' + first] + more)[1..] == more;
    }
  }

  lemma {:induction false} JoinSplit(s: string, sep: char)
    ensures Join(Split(s, sep), sep) == s
  {
    if s != "" {
      var rest := Split(s[1..], sep);
      JoinSplit(s[1..], sep);
      assert s == [s[0]] + s[1..];
      if s[0] == sep {
        assert ([[]] + rest)[1..] == rest;
      } else {
        var whole := [[s[0]] + rest[0]] + rest[1..];
        assert whole[1..] == rest[1..];
      }
    }
  }

  /** Splitting is the inverse of joining pieces without the separator. */
  lemma {:induction false} SplitJoin(pieces: seq<string>, sep: char)
    requires pieces != [] && forall i :: 0 <= i < |pieces| ==> sep !in pieces[i]
    ensures Split(Join(pieces, sep), sep) == pieces
  {
    var first := pieces[0];
    SplitPrefix(first, "", sep);
    assert first + "" == first;
    if |pieces| > 1 {
      SplitJoin(pieces[1..], sep);
      SplitAppend(first, Join(pieces[1..], sep), sep);
    }
  }

  lemma {:induction false} SplitParts(s: string, sep: char)
    ensures forall i :: 0 <= i < |Split(s, sep)| ==> sep !in Split(s, sep)[i]
  {
    if s != "" {
      SplitParts(s[1..], sep);
    }
  }

  /** Leading spaces do not matter to stripping, nor do trailing ones. */
  lemma {:induction false} StripLeading(w: string, s: string)
    requires forall c :: c in w ==> IsSpace(c)
    ensures Strip(w + s) == Strip(s)
  {
    if w == "" {
      assert w + s == s;
    } else {
      StripLeading(w[1..], s);
      assert (w + s)[1..] == w[1..] + s;
    }
  }

  lemma {:induction false} RStripTrailing(s: string, w: string)
    requires forall c :: c in w ==> IsSpace(c)
    ensures RStrip(s + w) == RStrip(s)
  {
    if w == "" {
      assert s + w == s;
    } else {
      var w' := w[..|w| - 1];
      RStripTrailing(s, w');
      assert (s + w)[..|s + w| - 1] == s + w';
    }
  }

  lemma {:induction false} StripTrailing(s: string, w: string)
    requires forall c :: c in w ==> IsSpace(c)
    ensures Strip(s + w) == Strip(s)
  {
    if s == "" || !IsSpace(s[0]) {
      if s == "" {
        assert s + w == w + s;
        StripLeading(w, s);
      } else {
        RStripTrailing(s, w);
      }
    } else {
      StripTrailing(s[1..], w);
      assert (s + w)[1..] == s[1..] + w;
    }
  }

  /** What stripping the end takes away is spaces. */
  lemma {:induction false} RStripRest(s: string)
    ensures RStrip(s) <= s && forall c :: c in s[|RStrip(s)|..] ==> IsSpace(c)
  {
    if s != "" && IsSpace(s[|s| - 1]) {
      var init := s[..|s| - 1];
      RStripRest(init);
      assert s[|RStrip(s)|..] == init[|RStrip(s)|..] + [s[|s| - 1]];
    }
  }

  /** Stripping adds no characters. */
  lemma {:induction false} StripFrom(s: string, c: char)
    ensures c in Strip(s) ==> c in s
  {
    if s != "" && IsSpace(s[0]) {
      StripFrom(s[1..], c);
    } else {
      RStripRest(s);
    }
  }

  /** Stripping the end first changes nothing. */
  lemma StripRStrip(s: string)
    ensures Strip(RStrip(s)) == Strip(s)
  {
    RStripRest(s);
    StripTrailing(RStrip(s), s[|RStrip(s)|..]);
    assert s == RStrip(s) + s[|RStrip(s)|..];
  }

  // ---------------------------------------------------------------------------------------
  // Ink: the characters that stripping never removes.

  function Ink(s: string): nat {
    if s == "" then 0 else (if IsSpace(s[0]) then 0 else 1) + Ink(s[1..])
  }

  lemma {:induction false} InkAppend(a: string, b: string)
    ensures Ink(a + b) == Ink(a) + Ink(b)
  {
    if a == "" {
      assert a + b == b;
    } else {
      InkAppend(a[1..], b);
      assert (a + b)[1..] == a[1..] + b;
    }
  }

  lemma {:induction false} InkZero(s: string)
    ensures Ink(s) == 0 <==> forall c :: c in s ==> IsSpace(c)
  {
    if s != "" {
      InkZero(s[1..]);
      assert s == [s[0]] + s[1..];
    }
  }

  lemma {:induction false} InkLStrip(s: string)
    ensures Ink(LStrip(s)) == Ink(s)
  {
    if s != "" && IsSpace(s[0]) {
      InkLStrip(s[1..]);
    }
  }

  lemma InkStrip(s: string)
    ensures Ink(Strip(s)) == Ink(s)
  {
    var t := LStrip(s);
    InkLStrip(s);
    RStripRest(t);
    InkAppend(RStrip(t), t[|RStrip(t)|..]);
    InkZero(t[|RStrip(t)|..]);
    assert t == RStrip(t) + t[|RStrip(t)|..];
  }

  predicate Contains(text: string, part: string) {
    part <= text || (text != [] && Contains(text[1..], part))
  }

  ghost predicate FactorAt(part: string, text: string, i: int) {
    0 <= i <= |text| - |part| && text[i..i + |part|] == part
  }

  /** `part` occurs in `text`. */
  ghost predicate Factor(part: string, text: string) {
    exists i :: FactorAt(part, text, i)
  }

  lemma {:induction false} ContainsMeaning(text: string, part: string)
    ensures Contains(text, part) <==> Factor(part, text)
  {
    if part <= text {
      assert FactorAt(part, text, 0);
    } else if text != "" {
      ContainsMeaning(text[1..], part);
      if i :| FactorAt(part, text, i) {
        assert FactorAt(part, text[1..], i - 1);
      }
      if i :| FactorAt(part, text[1..], i) {
        assert FactorAt(part, text, i + 1);
      }
    }
  }
}
