/** What the two fixes of StyleFixer leave of the text: of each line, and of each line of a file. */
module FixedText {
  import opened StyleText
  import opened StyleFixer

  // ---- white space ----

  // line is r and trailing white space b.
  ghost predicate Trailing(line: string, r: string, b: string) {
    line == r + b && AllSpace(b) && (r == [] || !IsSpace(r[|r| - 1]))
  }

  // The white-space fix keeps a line up to its last character that is not white space, and ends it
  // with one newline. No printable ASCII character is lost.
  lemma WhitespaceFix(line: string)
    ensures exists r, b :: Trailing(line, r, b) && FixLine(Whitespace, line) == r + "\n"
    ensures forall r, b :: Trailing(line, r, b) ==>
              && FixLine(Whitespace, line) == r + "\n"
              && forall k :: 0 <= k < |b| ==> !(33 <= b[k] as int <= 126)
  {
    RStripSplit(line);
    var n := |RStrip(line)|;
    assert Trailing(line, RStrip(line), line[n..]);
    forall r, b | Trailing(line, r, b) ensures RStrip(line) == r {
      RStripOf(r, b);
    }
  }

  // A line passes when it ends in a newline right behind a character that is not white space, or
  // is a newline alone.
  lemma WhitespacePassesIff(line: string)
    ensures LineCompliant(Whitespace, line) <==> exists r :: Trailing(line, r, "\n")
  {
    WhitespaceFix(line);
    if LineCompliant(Whitespace, line) {
      RStripSplit(line);
      assert Trailing(line, RStrip(line), "\n");
    }
  }

  // ---- tabs ----

  // The column of character k of a line whose tab stops are four columns apart.
  ghost function Column(s: string, k: nat): nat
    requires k <= |s|
  {
    if k == 0 then 0
    else if s[k - 1] == '\t' then (Column(s, k - 1) / 4 + 1) * 4
    else Column(s, k - 1) + 1
  }

  // r is s with each character in its column and blanks wherever a tab has been.
  ghost predicate Untabbed(s: string, r: string) {
    |r| == Column(s, |s|) && forall k: nat :: k < |s| ==> InPlace(s, r, k)
  }

  ghost predicate InPlace(s: string, r: string, k: nat)
    requires k < |s|
  {
    var i, j := Column(s, k), Column(s, k + 1);
    && i < j <= |r|
    && if s[k] == '\t' then forall c :: i <= c < j ==> r[c] == ' ' else r[i] == s[k]
  }

  lemma {:induction false} ColumnPrefix(s: string, n: nat, k: nat)
    requires k <= n <= |s|
    ensures Column(s[..n], k) == Column(s, k)
  {
    if k > 0 {
      ColumnPrefix(s, n, k - 1);
    }
  }

  lemma {:induction false} ColumnAgrees(s: string)
    requires OneLine(s)
    ensures ColumnAfter(s, 0) == Column(s, |s|)
    ensures |s| > 0 ==> Column(s, |s|) == Next(s[|s| - 1], Column(s, |s| - 1))
  {
    if s != [] {
      var k := |s| - 1;
      ColumnAgrees(s[..k]);
      ColumnPrefix(s, k, k);
      ColumnSnoc(s[..k], s[k], 0);
      assert s == s[..k] + [s[k]];
      NextStop(s[k], Column(s, k));
    }
  }

  lemma NextStop(c: char, col: nat)
    requires c != '\n' && c != '\r'
    ensures Next(c, col) == if c == '\t' then (col / 4 + 1) * 4 else col + 1
  {
    assert col == col / 4 * 4 + col % 4;
  }

  lemma {:induction false} ColumnSnoc(s: string, c: char, col: nat)
    ensures ColumnAfter(s + [c], col) == Next(c, ColumnAfter(s, col))
    decreases |s|
  {
    if s == [] {
      assert s + [c] == [c] && [c][1..] == [];
    } else {
      assert (s + [c])[1..] == s[1..] + [c];
      ColumnSnoc(s[1..], c, Next(s[0], col));
    }
  }

  lemma {:induction false} ExpandUntabs(s: string)
    requires OneLine(s)
    ensures Untabbed(s, ExpandTabs(s, 0))
  {
    if s != [] {
      var k := |s| - 1;
      var p, c := s[..k], s[k];
      assert s == p + [c];
      ExpandUntabs(p);
      ExpandConcat(p, [c], 0);
      ColumnAgrees(p);
      ColumnAgrees(s);
      ColumnPrefix(s, k, k);
      ExpandLast(c, Column(s, k));
      NextStop(c, Column(s, k));
      UntabSnoc(p, ExpandTabs(p, 0), c, ExpandTabs(s, 0));
    }
  }

  lemma PieceMeaning(c: char, col: nat)
    ensures c == '\t' ==> |Piece(c, col)| == (col / 4 + 1) * 4 - col > 0
    ensures c == '\t' ==> forall i :: 0 <= i < |Piece(c, col)| ==> Piece(c, col)[i] == ' '
    ensures c != '\t' ==> Piece(c, col) == [c]
  {
    assert col == col / 4 * 4 + col % 4;
  }

  lemma UntabSnoc(p: string, q: string, c: char, r: string)
    requires Untabbed(p, q) && r == q + Piece(c, Column(p, |p|))
    ensures Untabbed(p + [c], r)
  {
    hide Piece;
    var s, n := p + [c], |p|;
    PieceMeaning(c, Column(p, n));
    assert s[..n] == p;
    forall k | 0 <= k <= n ensures Column(s, k) == Column(p, k) {
      ColumnPrefix(s, n, k);
    }
    forall k: nat | k < |s| ensures InPlace(s, r, k) {
      if k < n {
        assert s[k] == p[k] && InPlace(p, q, k);
      }
    }
  }

  // The tab fix puts every other character into the column where tab stops had shown it, fills up
  // with blanks, and keeps the end of the line.
  lemma TabsFix(s: string, end: string)
    requires OneLine(s) && (end == "" || end == "\n")
    ensures exists r :: FixLine(Tabs, s + end) == r + end && Untabbed(s, r)
  {
    ExpandConcat(s, end, 0);
    ExpandUntabs(s);
    MemberTab(s + end);
    ExpandFacts(s + end, 0);
    EndKept(end, ColumnAfter(s, 0));
  }

  lemma EndKept(end: string, col: nat)
    requires end == "" || end == "\n"
    ensures ExpandTabs(end, col) == end
  {
    ExpandFacts(end, col);
  }

  // ---- the lines of a file ----

  // A line on disk: text, and a terminator unless the file ends without one.
  ghost predicate TextAndEnd(line: string, text: string, end: string) {
    line == text + end && OneLine(text) && end in {"\n", "\r\n", "\r", ""}
  }

  // What is read and written for a terminator.
  function Newline(end: string): string { if end == "" then "" else "\n" }

  lemma TextCons(c: char, line: string, text: string, end: string)
    requires TextAndEnd(line, text, end) && c != '\n' && c != '\r'
    ensures TextAndEnd([c] + line, [c] + text, end)
  {
    assert [c] + text + end == [c] + (text + end);
  }

  // line is read as text and a newline for its terminator; only at the end of the file, rest, it
  // may have none.
  ghost predicate ReadAs(line: string, rest: string, text: string, end: string) {
    && TextAndEnd(line, text, end) && Translate(line) == text + Newline(end)
    && (end == "" ==> line == rest && text != "")
  }

  lemma TerminatorRead(end: string, rest: string)
    requires end == "\n" || end == "\r\n" || end == "\r"
    ensures ReadAs(end, rest, "", end)
  {
    TranslateTerminators();
    TranslateOne('\n');
    hide Translate;
    assert "" + end == end && "" + "\n" == "\n";
  }

  lemma LastRead(c: char)
    requires c != '\n' && c != '\r'
    ensures ReadAs([c], [c], [c], "")
  {
    TranslateOne(c);
    hide Translate;
    assert [c] + "" == [c];
  }

  lemma RawLineShortParts(s: string)
    requires s != [] && (s[0] == '\n' || s[0] == '\r' || |s| == 1)
    ensures exists text, end :: ReadAs(s[..RawLineEnd(s)], s, text, end)
  {
    hide ReadAs;
    var l := s[..RawLineEnd(s)];
    if s[0] == '\n' || s[0] == '\r' {
      assert l == if s[0] == '\n' then "\n" else if |l| == 2 then "\r\n" else "\r";
      TerminatorRead(l, s);
    } else {
      assert l == [s[0]] == s;
      LastRead(s[0]);
    }
  }

  lemma {:induction false} RawLineParts(s: string)
    requires s != []
    ensures exists text, end :: ReadAs(s[..RawLineEnd(s)], s, text, end)
  {
    hide Translate, RawLineEnd, ReadAs;
    if s[0] == '\n' || s[0] == '\r' || |s| == 1 {
      RawLineShortParts(s);
    } else {
      var u := s[1..];
      var k := RawLineEnd(u);
      RawLineParts(u);
      var text, end :| ReadAs(u[..k], u, text, end);
      RawLineEndCons(s);
      assert s[..RawLineEnd(s)] == [s[0]] + u[..k] && s == [s[0]] + u;
      ReadAsCons(s[0], u[..k], u, text, end);
    }
  }

  lemma ReadAsCons(c: char, line: string, rest: string, text: string, end: string)
    requires ReadAs(line, rest, text, end) && c != '\n' && c != '\r'
    ensures ReadAs([c] + line, [c] + rest, [c] + text, end)
  {
    hide Translate, TextAndEnd;
    var l := [c] + line;
    assert l[1..] == line;
    TranslateCons(l);
    TextCons(c, line, text, end);
    assert [c] + (text + Newline(end)) == [c] + text + Newline(end);
  }

  // Reading turns the terminator of each line into a newline, and changes nothing else; only the
  // last line may have none.
  lemma {:induction false} LinesRead(s: string, i: nat)
    requires i < |RawLines(s)|
    ensures |ReadLines(Translate(s))| == |RawLines(s)|
    ensures exists text, end :: TextAndEnd(RawLines(s)[i], text, end) &&
                                ReadLines(Translate(s))[i] == text + Newline(end) &&
                                (end == "" ==> i == |RawLines(s)| - 1 && text != "")
  {
    hide Translate, ReadLines, RawLineEnd;
    ReadLinesRaw(s);
    RawLineAt(s, i);
  }

  lemma OnlyLine(s: string)
    requires s != []
    ensures s[..RawLineEnd(s)] == s ==> |RawLines(s)| == 1
  {
    var n := RawLineEnd(s);
    assert s[..n] == s ==> s[n..] == [];
  }

  lemma {:induction false} RawLineAt(s: string, i: nat)
    requires i < |RawLines(s)|
    ensures exists text, end :: TextAndEnd(RawLines(s)[i], text, end) &&
                                Translate(RawLines(s)[i]) == text + Newline(end) &&
                                (end == "" ==> i == |RawLines(s)| - 1 && text != "")
  {
    hide Translate, RawLineEnd;
    if i == 0 {
      RawLineParts(s);
      var l := s[..RawLineEnd(s)];
      assert RawLines(s)[0] == l;
      var text, end :| ReadAs(l, s, text, end);
      OnlyLine(s);
    } else {
      RawLineAt(s[RawLineEnd(s)..], i - 1);
      assert RawLines(s)[i] == RawLines(s[RawLineEnd(s)..])[i - 1];
    }
  }

  // No terminator is torn apart: a line that ends in \r is not followed by one that starts with \n.
  lemma {:induction false} ReturnsWhole(s: string, i: nat)
    requires i + 1 < |RawLines(s)|
    ensures var l, next := RawLines(s)[i], RawLines(s)[i + 1];
            |l| > 0 && |next| > 0 && (l[|l| - 1] == '\r' ==> next[0] != '\n')
  {
    hide RawLineEnd;
    var t := s[RawLineEnd(s)..];
    if i > 0 {
      ReturnsWhole(t, i - 1);
      assert RawLines(s)[i] == RawLines(t)[i - 1] && RawLines(s)[i + 1] == RawLines(t)[i];
    } else {
      ReturnEnds(s);
      assert RawLines(s)[1] == t[..RawLineEnd(t)];
    }
  }

  lemma {:induction false} ReturnEnds(s: string)
    requires s != []
    ensures var n := RawLineEnd(s); s[n - 1] == '\r' && n < |s| ==> s[n] != '\n'
  {
    if s[0] != '\r' && s[0] != '\n' && |s| > 1 {
      ReturnEnds(s[1..]);
    }
  }

  // White space, in the file: a line that is not left alone keeps its bytes up to the last one that
  // is not white space, and ends in a newline.
  lemma FileWhitespaceFixed(respect: bool, content: string, i: nat)
    requires i < |RawLines(content)| == |ReadLines(Translate(content))|
    requires !Compliant(Whitespace, respect, ReadLines(Translate(content)), true)
    requires !LeftAlone(respect, ReadLines(Translate(content)), i)
    ensures |RawLines(FixFile(Whitespace, respect, content))| == |RawLines(content)|
    ensures exists r, b :: Trailing(RawLines(content)[i], r, b) &&
                           RawLines(FixFile(Whitespace, respect, content))[i] == r + "\n"
  {
    hide Compliant, ReadLines, Translate, RawLines, LeftAlone, FixFile, FixLine;
    FileFixedWhere(Whitespace, respect, content, i);
    ReadLinesRaw(content);
    LinesRead(content, i);
    var raw, read := RawLines(content)[i], ReadLines(Translate(content))[i];
    var text, end :| TextAndEnd(raw, text, end) && read == text + Newline(end);
    WhitespaceFix(raw);
    var r, b :| Trailing(raw, r, b) && FixLine(Whitespace, raw) == r + "\n";
    SameTrailing(raw, text, end, r, b);
  }

  lemma SameTrailing(raw: string, text: string, end: string, r: string, b: string)
    requires TextAndEnd(raw, text, end) && Trailing(raw, r, b)
    ensures FixLine(Whitespace, text + Newline(end)) == r + "\n"
  {
    hide FixLine, RStrip;
    RStripSplit(text);
    var t, u := RStrip(text), text[|RStrip(text)|..];
    TrailingEnd(text, t, u, end);
    TrailingEnd(text, t, u, Newline(end));
    hide Trailing;
    WhitespaceFix(raw);
    WhitespaceFix(text + Newline(end));
  }

  lemma TrailingEnd(text: string, t: string, u: string, end: string)
    requires Trailing(text, t, u) && AllSpace(end)
    ensures Trailing(text + end, t, u + end)
  {
    assert text + end == t + (u + end);
  }

  // Tabs, in the file: a line that is not left alone keeps its characters in their columns, and its
  // terminator becomes a newline.
  lemma FileTabsFixed(respect: bool, content: string, i: nat)
    requires i < |RawLines(content)| == |ReadLines(Translate(content))|
    requires !Compliant(Tabs, respect, ReadLines(Translate(content)), true)
    requires !LeftAlone(respect, ReadLines(Translate(content)), i)
    ensures |RawLines(FixFile(Tabs, respect, content))| == |RawLines(content)|
    ensures exists text, end, r :: TextAndEnd(RawLines(content)[i], text, end) && Untabbed(text, r) &&
                                   RawLines(FixFile(Tabs, respect, content))[i] == r + Newline(end)
  {
    hide Compliant, ReadLines, Translate, RawLines, LeftAlone, FixFile, FixLine, Untabbed;
    FileFixedWhere(Tabs, respect, content, i);
    ReadLinesRaw(content);
    LinesRead(content, i);
    var raw, read := RawLines(content)[i], ReadLines(Translate(content))[i];
    var text, end :| TextAndEnd(raw, text, end) && read == text + Newline(end);
    TabsFix(text, Newline(end));
  }
}
