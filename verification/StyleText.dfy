/** The Python text operations that utils/check-style-clang-format.py relies on: universal
    newlines, readlines and writelines, strip, rstrip and expandtabs. */
module StyleText {
  // str.isspace for one character.
  predicate IsSpace(c: char) {
    var n := c as int;
    9 <= n <= 13 || 28 <= n <= 32 || n == 0x85 || n == 0xa0 || n == 0x1680 || 0x2000 <= n <= 0x200a ||
    n == 0x2028 || n == 0x2029 || n == 0x202f || n == 0x205f || n == 0x3000
  }

  function RStrip(s: string): string {
    if s != [] && IsSpace(s[|s| - 1]) then RStrip(s[..|s| - 1]) else s
  }

  function LStrip(s: string): string {
    if s != [] && IsSpace(s[0]) then LStrip(s[1..]) else s
  }

  function Strip(s: string): string { LStrip(RStrip(s)) }

  function Spaces(n: nat): string { seq(n, i => ' ') }

  const TAB_SIZE: nat := 4

  // The column after c, when c stands at column col.
  function Next(c: char, col: nat): nat {
    if c == '\t' then col + TAB_SIZE - col % TAB_SIZE else if c == '\n' || c == '\r' then 0 else col + 1
  }

  // What expandtabs writes for c at column col.
  function Piece(c: char, col: nat): string {
    if c == '\t' then Spaces(TAB_SIZE - col % TAB_SIZE) else [c]
  }

  // expandtabs(4), with col columns before s on its line.
  function ExpandTabs(s: string, col: nat): string {
    if s == [] then [] else Piece(s[0], col) + ExpandTabs(s[1..], Next(s[0], col))
  }

  // Reading in text mode: \r\n and \r become \n.
  function Translate(s: string): string {
    if s == [] then []
    else if s[0] == '\r' then ['\n'] + Translate(if |s| > 1 && s[1] == '\n' then s[2..] else s[1..])
    else [s[0]] + Translate(s[1..])
  }

  // The length of the first line, its newline included.
  function LineEnd(s: string): (n: nat)
    requires s != []
    ensures 0 < n <= |s|
  {
    if s[0] == '\n' || |s| == 1 then 1 else 1 + LineEnd(s[1..])
  }

  function ReadLines(s: string): seq<string> {
    if s == [] then [] else [s[..LineEnd(s)]] + ReadLines(s[LineEnd(s)..])
  }

  function WriteLines(lines: seq<string>): string {
    if lines == [] then [] else lines[0] + WriteLines(lines[1..])
  }

  // ---- lines as readlines returns them ----

  ghost predicate IsLine(l: string) {
    |l| > 0 && (forall i :: 0 <= i < |l| - 1 ==> l[i] != '\n') && forall i :: 0 <= i < |l| ==> l[i] != '\r'
  }

  ghost predicate Ended(l: string) { |l| > 0 && l[|l| - 1] == '\n' }

  ghost predicate AreLines(lines: seq<string>) {
    (forall i :: 0 <= i < |lines| ==> IsLine(lines[i])) && forall i :: 0 <= i < |lines| - 1 ==> Ended(lines[i])
  }

  ghost predicate NoReturn(s: string) { forall i :: 0 <= i < |s| ==> s[i] != '\r' }

  lemma {:induction false} TranslateNoReturn(s: string)
    ensures NoReturn(Translate(s))
    ensures NoReturn(s) ==> Translate(s) == s
    decreases |s|
  {
    if s != [] {
      if s[0] == '\r' {
        TranslateNoReturn(if |s| > 1 && s[1] == '\n' then s[2..] else s[1..]);
      } else {
        TranslateNoReturn(s[1..]);
      }
    }
  }

  lemma {:induction false} LineEndFacts(s: string)
    requires s != []
    ensures forall i :: 0 <= i < LineEnd(s) - 1 ==> s[i] != '\n'
    ensures LineEnd(s) < |s| ==> s[LineEnd(s) - 1] == '\n'
  {
    if s[0] != '\n' && |s| > 1 {
      LineEndFacts(s[1..]);
      assert forall i :: 0 < i < |s| ==> s[i] == s[1..][i - 1];
    }
  }

  lemma {:induction false} ReadLinesOk(s: string)
    requires NoReturn(s)
    ensures AreLines(ReadLines(s))
  {
    if s != [] {
      LineEndFacts(s);
      ReadLinesOk(s[LineEnd(s)..]);
      var rest := ReadLines(s[LineEnd(s)..]);
      assert forall i :: 0 < i < |ReadLines(s)| ==> ReadLines(s)[i] == rest[i - 1];
    }
  }

  // The first line of l + t is l when l ends in a newline or nothing follows.
  lemma {:induction false} LineEndOf(l: string, t: string)
    requires IsLine(l) && (Ended(l) || t == [])
    ensures LineEnd(l + t) == |l|
  {
    if |l| > 1 {
      assert (l + t)[1..] == l[1..] + t;
      LineEndOf(l[1..], t);
    }
  }

  // Lines that are written and read again come back as they were.
  lemma {:induction false} WriteThenRead(lines: seq<string>)
    requires AreLines(lines)
    ensures ReadLines(WriteLines(lines)) == lines && NoReturn(WriteLines(lines))
  {
    if lines != [] {
      var l, t := lines[0], WriteLines(lines[1..]);
      WriteThenRead(lines[1..]);
      LineEndOf(l, t);
      assert (l + t)[..|l|] == l && (l + t)[|l|..] == t;
    }
  }

  // ---- lines as they stand in the file, before reading translates their terminators ----

  // The length of the first line, with its \n, \r\n or \r.
  function RawLineEnd(s: string): (n: nat)
    requires s != []
    ensures 0 < n <= |s|
  {
    if s[0] == '\r' && |s| > 1 && s[1] == '\n' then 2
    else if s[0] == '\n' || s[0] == '\r' || |s| == 1 then 1
    else 1 + RawLineEnd(s[1..])
  }

  function RawLines(s: string): seq<string> {
    if s == [] then [] else [s[..RawLineEnd(s)]] + RawLines(s[RawLineEnd(s)..])
  }

  // The raw lines together are the file.
  lemma {:induction false} RawLinesAll(s: string)
    ensures WriteLines(RawLines(s)) == s
  {
    if s != [] {
      RawLinesAll(s[RawLineEnd(s)..]);
      assert RawLines(s)[1..] == RawLines(s[RawLineEnd(s)..]);
    }
  }

  lemma LineCons(c: char, l: string)
    requires IsLine(l) && c != '\n' && c != '\r'
    ensures IsLine([c] + l) && (Ended([c] + l) <==> Ended(l))
  {
  }

  lemma TranslateOne(c: char)
    requires c != '\r'
    ensures Translate([c]) == [c]
  {
    assert [c][1..] == [];
  }

  lemma TranslateTerminators()
    ensures Translate("\r") == "\n" && Translate("\r\n") == "\n"
  {
    assert "\r"[1..] == [] && "\r\n"[2..] == [];
  }

  lemma LineOne(c: char)
    requires c != '\r'
    ensures IsLine([c]) && (Ended([c]) <==> c == '\n')
  {
  }

  // A first line that is only its terminator, or a single last character.
  lemma RawLineShort(s: string)
    requires s != [] && (s[0] == '\n' || s[0] == '\r' || |s| == 1)
    ensures var l, t := s[..RawLineEnd(s)], s[RawLineEnd(s)..];
            && Translate(s) == Translate(l) + Translate(t)
            && IsLine(Translate(l)) && (Ended(Translate(l)) || t == [])
  {
    hide IsLine, Ended, Translate;
    var n := RawLineEnd(s);
    if s[0] == '\r' {
      TranslateTerminators();
      LineOne('\n');
      TranslateReturn(s);
      assert s[..n] == if n == 2 then "\r\n" else "\r";
    } else {
      TranslateOne(s[0]);
      LineOne(s[0]);
      TranslateCons(s);
      assert s[..n] == [s[0]];
    }
  }

  lemma TranslateReturn(s: string)
    requires s != [] && s[0] == '\r'
    ensures Translate(s) == ['\n'] + Translate(if |s| > 1 && s[1] == '\n' then s[2..] else s[1..])
  {
  }

  lemma {:induction false} RawLineEndFacts(s: string)
    requires s != []
    ensures var l, t := s[..RawLineEnd(s)], s[RawLineEnd(s)..];
            && Translate(s) == Translate(l) + Translate(t)
            && IsLine(Translate(l)) && (Ended(Translate(l)) || t == [])
    decreases |s|
  {
    hide IsLine, Ended, Translate, RawLineEnd;
    if s[0] == '\n' || s[0] == '\r' || |s| == 1 {
      RawLineShort(s);
    } else {
      var u := s[1..];
      RawLineEndFacts(u);
      RawLineEndCons(s);
      var n, k := RawLineEnd(s), RawLineEnd(u);
      assert s[..n][1..] == u[..k] && s[n..] == u[k..];
      TranslateCons(s);
      TranslateCons(s[..n]);
      LineCons(s[0], Translate(u[..k]));
    }
  }

  lemma RawLineEndCons(s: string)
    requires |s| > 1 && s[0] != '\n' && s[0] != '\r'
    ensures RawLineEnd(s) == 1 + RawLineEnd(s[1..])
  {
  }

  lemma TranslateCons(s: string)
    requires s != [] && s[0] != '\r'
    ensures Translate(s) == [s[0]] + Translate(s[1..])
  {
  }

  lemma {:induction false} RawLineEndSame(s: string)
    requires s != [] && NoReturn(s)
    ensures RawLineEnd(s) == LineEnd(s)
  {
    if s[0] != '\n' && |s| > 1 {
      RawLineEndSame(s[1..]);
    }
  }

  // What readlines returns is the raw lines, each translated.
  lemma {:induction false} ReadLinesRaw(s: string)
    ensures |ReadLines(Translate(s))| == |RawLines(s)|
    ensures forall i :: 0 <= i < |RawLines(s)| ==> ReadLines(Translate(s))[i] == Translate(RawLines(s)[i])
    decreases |s|
  {
    hide Translate, IsLine, Ended, LineEnd, RawLineEnd;
    TranslateNil(s);
    if s != [] {
      var l, t := s[..RawLineEnd(s)], s[RawLineEnd(s)..];
      RawLineEndFacts(s);
      ReadLinesRaw(t);
      TranslateNil(t);
      FirstLine(Translate(l), Translate(t));
    }
  }

  lemma TranslateNil(s: string)
    ensures s == [] ==> Translate(s) == []
  {
  }

  lemma FirstLine(l: string, t: string)
    requires IsLine(l) && (Ended(l) || t == [])
    ensures ReadLines(l + t) == [l] + ReadLines(t)
  {
    hide Ended;
    LineEndOf(l, t);
    assert (l + t)[..|l|] == l && (l + t)[|l|..] == t;
  }

  lemma {:induction false} RawLinesSame(s: string)
    requires NoReturn(s)
    ensures RawLines(s) == ReadLines(s)
    decreases |s|
  {
    if s != [] {
      RawLineEndSame(s);
      RawLinesSame(s[LineEnd(s)..]);
    }
  }

  // A first line without carriage returns, of a file of several lines.
  lemma {:induction false} RawFirst(l: string, t: string)
    requires IsLine(l) && Ended(l)
    ensures RawLines(l + t) == [l] + RawLines(t)
  {
    RawEndOf(l, t);
    assert (l + t)[..|l|] == l && (l + t)[|l|..] == t;
  }

  lemma {:induction false} RawEndOf(l: string, t: string)
    requires IsLine(l) && Ended(l)
    ensures RawLineEnd(l + t) == |l|
  {
    if |l| > 1 {
      assert (l + t)[1..] == l[1..] + t;
      RawEndOf(l[1..], t);
    }
  }

  lemma TranslateSameIff(s: string)
    ensures Translate(s) == s <==> NoReturn(s)
  {
    TranslateNoReturn(s);
  }

  // ---- expandtabs ----

  function ColumnAfter(s: string, col: nat): nat {
    if s == [] then col else ColumnAfter(s[1..], Next(s[0], col))
  }

  lemma {:induction false} ExpandConcat(s: string, t: string, col: nat)
    ensures ExpandTabs(s + t, col) == ExpandTabs(s, col) + ExpandTabs(t, ColumnAfter(s, col))
    decreases |s|
  {
    hide Piece, Next;
    if s == [] {
      assert s + t == t;
    } else {
      assert (s + t)[1..] == s[1..] + t && (s + t)[0] == s[0];
      ExpandConcat(s[1..], t, Next(s[0], col));
    }
  }

  ghost predicate AllSpace(s: string) { forall i :: 0 <= i < |s| ==> IsSpace(s[i]) }

  ghost predicate NoTab(s: string) { forall i :: 0 <= i < |s| ==> s[i] != '\t' }

  // What expandtabs writes is spaces and the characters that are not tabs.
  lemma {:induction false} ExpandChars(s: string, col: nat)
    ensures forall c :: c in ExpandTabs(s, col) ==> c == ' ' || (c in s && c != '\t')
    ensures s != [] ==> ExpandTabs(s, col) != []
    decreases |s|
  {
    if s != [] {
      hide Next;
      ExpandChars(s[1..], Next(s[0], col));
      assert s == [s[0]] + s[1..];
    }
  }

  lemma {:induction false} ExpandSame(s: string, col: nat)
    requires NoTab(s)
    ensures ExpandTabs(s, col) == s
    decreases |s|
  {
    if s != [] {
      hide Next;
      ExpandSame(s[1..], Next(s[0], col));
      assert s == [s[0]] + s[1..];
    }
  }

  // No tab is left; other characters are kept, in particular where newlines stand.
  lemma ExpandFacts(s: string, col: nat)
    ensures NoTab(ExpandTabs(s, col))
    ensures NoTab(s) ==> ExpandTabs(s, col) == s
    ensures AllSpace(s) ==> AllSpace(ExpandTabs(s, col))
    ensures NoReturn(s) ==> NoReturn(ExpandTabs(s, col))
    ensures '\n' !in s ==> '\n' !in ExpandTabs(s, col)
    ensures s != [] ==> ExpandTabs(s, col) != []
  {
    hide ExpandTabs;
    var r := ExpandTabs(s, col);
    ExpandChars(s, col);
    forall i | 0 <= i < |r| ensures r[i] == ' ' || (r[i] in s && r[i] != '\t') {
      assert r[i] in r;
    }
    if NoTab(s) {
      ExpandSame(s, col);
    }
  }

  // ---- strip ----

  lemma {:induction false} RStripSplit(s: string)
    ensures |RStrip(s)| <= |s| && RStrip(s) == s[..|RStrip(s)|] && AllSpace(s[|RStrip(s)|..])
    ensures RStrip(s) != [] ==> !IsSpace(RStrip(s)[|RStrip(s)| - 1])
  {
    if s != [] && IsSpace(s[|s| - 1]) {
      RStripSplit(s[..|s| - 1]);
      var n := |RStrip(s)|;
      assert s[n..] == s[..|s| - 1][n..] + [s[|s| - 1]];
    }
  }

  lemma {:induction false} LStripSplit(s: string)
    ensures |LStrip(s)| <= |s| && LStrip(s) == s[|s| - |LStrip(s)|..] && AllSpace(s[..|s| - |LStrip(s)|])
    ensures LStrip(s) != [] ==> !IsSpace(LStrip(s)[0])
  {
    if s != [] && IsSpace(s[0]) {
      LStripSplit(s[1..]);
      var n := |s| - |LStrip(s)|;
      assert s[..n] == [s[0]] + s[1..][..n - 1];
    }
  }

  // g is what is left of s when white space at both ends is taken away.
  ghost predicate Surrounds(s: string, a: string, g: string, b: string) {
    s == a + g + b && AllSpace(a) && AllSpace(b)
  }

  ghost predicate Tight(g: string) { g != [] && !IsSpace(g[0]) && !IsSpace(g[|g| - 1]) }

  lemma StripSplit(s: string) returns (a: string, b: string)
    ensures Surrounds(s, a, Strip(s), b)
  {
    var r := RStrip(s);
    RStripSplit(s);
    LStripSplit(r);
    a, b := r[..|r| - |LStrip(r)|], s[|r|..];
  }

  lemma {:induction false} RStripOf(s: string, b: string)
    requires AllSpace(b) && (s == [] || !IsSpace(s[|s| - 1]))
    ensures RStrip(s + b) == s
  {
    if b == [] {
      assert s + b == s;
    } else {
      var k := |b| - 1;
      assert (s + b)[..|s + b| - 1] == s + b[..k] && (s + b)[|s + b| - 1] == b[k];
      RStripOf(s, b[..k]);
    }
  }

  lemma {:induction false} LStripOf(a: string, g: string)
    requires AllSpace(a) && (g == [] || !IsSpace(g[0]))
    ensures LStrip(a + g) == g
  {
    if a == [] {
      assert a + g == g;
    } else {
      assert (a + g)[1..] == a[1..] + g;
      LStripOf(a[1..], g);
    }
  }

  lemma StripOf(s: string, a: string, g: string, b: string)
    requires Surrounds(s, a, g, b) && Tight(g)
    ensures Strip(s) == g
  {
    assert (a + g)[|a + g| - 1] == g[|g| - 1];
    RStripOf(a + g, b);
    LStripOf(a, g);
  }

  // Expanding tabs does not change what strip returns when that holds no tab itself.
  lemma ExpandKeepsStrip(s: string, g: string)
    requires Strip(s) == g && Tight(g) && NoTab(g)
    ensures Strip(ExpandTabs(s, 0)) == g
  {
    var a, b := StripSplit(s);
    ExpandConcat(a + g, b, 0);
    ExpandConcat(a, g, 0);
    ExpandFacts(a, 0);
    ExpandFacts(g, ColumnAfter(a, 0));
    ExpandFacts(b, ColumnAfter(a + g, 0));
    StripOf(ExpandTabs(s, 0), ExpandTabs(a, 0), g, ExpandTabs(b, ColumnAfter(a + g, 0)));
  }

  // ---- what expandtabs means on the screen ----

  // A tab moves to the next multiple of four columns.
  lemma TabStop(col: nat)
    ensures Next('\t', col) % TAB_SIZE == 0 && col < Next('\t', col) <= col + TAB_SIZE
    ensures |Piece('\t', col)| == Next('\t', col) - col
  {
    var q, r := col / TAB_SIZE, col % TAB_SIZE;
    assert Next('\t', col) == TAB_SIZE * (q + 1);
  }

  ghost predicate OneLine(s: string) { forall i :: 0 <= i < |s| ==> s[i] != '\n' && s[i] != '\r' }

  lemma {:induction false} ExpandedLength(s: string, col: nat)
    requires OneLine(s)
    ensures col + |ExpandTabs(s, col)| == ColumnAfter(s, col)
    decreases |s|
  {
    if s != [] {
      TabStop(col);
      ExpandedLength(s[1..], Next(s[0], col));
    }
  }

  // Within a line every character that is not a tab stands, after expansion, in the column where
  // tab stops had put it before.
  lemma CharacterKeepsColumn(s: string, c: char, t: string)
    requires OneLine(s) && c != '\t'
    ensures ColumnAfter(s, 0) < |ExpandTabs(s + [c] + t, 0)|
    ensures ExpandTabs(s + [c] + t, 0)[ColumnAfter(s, 0)] == c
  {
    var k := ColumnAfter(s, 0);
    ExpandConcat(s + [c], t, 0);
    ExpandConcat(s, [c], 0);
    ExpandedLength(s, 0);
    assert [c][1..] == [];
    assert ExpandTabs([c], k) == [c] + [];
  }
}
