/** check_manually_file of utils/check-style-clang-format.py with its tab and white-space checks:
    a rewriter that goes through a file once, switched off between clang-format guards. */
module StyleFixer {
  import opened StyleText

  const GUARD_ON := "// clang-format on"
  const GUARD_OFF := "// clang-format off"

  datatype Check = Tabs | Whitespace

  // check_tabs_line and check_whitespace_line.
  function FixLine(check: Check, line: string): string {
    match check
    case Tabs => if '\t' in line then ExpandTabs(line, 0) else line
    case Whitespace => RStrip(line) + "\n"
  }

  predicate LineCompliant(check: Check, line: string) {
    match check
    case Tabs => '\t' !in line
    case Whitespace => RStrip(line) + "\n" == line
  }

  predicate IsGuard(line: string) { Strip(line) == GUARD_ON || Strip(line) == GUARD_OFF }

  // clang_format_enabled after looking at a line.
  function Switch(respect: bool, line: string, enabled: bool): bool {
    if respect && Strip(line) == GUARD_ON then true
    else if respect && Strip(line) == GUARD_OFF then false
    else enabled
  }

  // Whether a line is checked, given the switch after it; guard lines always are.
  predicate Looked(respect: bool, line: string, enabled: bool) {
    !respect || enabled || IsGuard(line)
  }

  // ---- specification of the loop ----

  function FixLines(check: Check, respect: bool, lines: seq<string>, enabled: bool): (r: seq<string>)
    ensures |r| == |lines|
  {
    if lines == [] then []
    else
      var e := Switch(respect, lines[0], enabled);
      [if Looked(respect, lines[0], e) then FixLine(check, lines[0]) else lines[0]] +
      FixLines(check, respect, lines[1..], e)
  }

  predicate Compliant(check: Check, respect: bool, lines: seq<string>, enabled: bool) {
    lines == [] ||
    var e := Switch(respect, lines[0], enabled);
    (Looked(respect, lines[0], e) ==> LineCompliant(check, lines[0])) && Compliant(check, respect, lines[1..], e)
  }

  // The verdict is the same in check, verbose and fix mode, although plain check mode stops at the
  // first offence; only fix mode writes, and only when there is something to fix.
  method CheckManuallyFile(content: string, fix: bool, verbose: bool, respect: bool, check: Check)
    returns (isFileCompliant: bool, written: string)
    ensures isFileCompliant <==> Compliant(check, respect, ReadLines(Translate(content)), true)
    ensures written == if fix then FixFile(check, respect, content) else content
  {
    hide Compliant, FixLines;
    var lines := ReadLines(Translate(content));
    var fileLines;
    isFileCompliant, fileLines := CheckLines(lines, fix, verbose, respect, check);
    written := content;
    if fix && !isFileCompliant {
      written := WriteLines(fileLines);
    }
  }

  // Where the loop is before line i: the verdict so far, and the lines as fixed so far.
  ghost predicate PassOk(check: Check, respect: bool, lines: seq<string>, i: nat, enabled: bool, ok: bool,
                         fileLines: seq<string>)
    requires i <= |lines|
  {
    && |fileLines| == |lines| && fileLines[i..] == lines[i..]
    && (Compliant(check, respect, lines, true) <==> ok && Compliant(check, respect, lines[i..], enabled))
    && FixLines(check, respect, lines, true) == fileLines[..i] + FixLines(check, respect, lines[i..], enabled)
  }

  lemma PassStep(check: Check, respect: bool, lines: seq<string>, i: nat, enabled: bool, ok: bool,
                 fileLines: seq<string>)
    requires i < |lines| && PassOk(check, respect, lines, i, enabled, ok, fileLines)
    ensures var e := Switch(respect, lines[i], enabled);
            var look := Looked(respect, lines[i], e);
            && fileLines[i] == lines[i]
            && PassOk(check, respect, lines, i + 1, e, ok && (look ==> LineCompliant(check, lines[i])),
                      if look then fileLines[i := FixLine(check, lines[i])] else fileLines)
  {
    hide Switch, Looked, FixLine, LineCompliant, Compliant, FixLines;
    var e := Switch(respect, lines[i], enabled);
    var next := if Looked(respect, lines[i], e) then fileLines[i := FixLine(check, lines[i])] else fileLines;
    LoopStep(check, respect, lines, i, enabled);
    assert fileLines[i] == fileLines[i..][0];
    assert fileLines[i + 1..] == lines[i + 1..] by {
      assert fileLines[i..][1..] == lines[i..][1..];
    }
    assert next[..i + 1] == fileLines[..i] + [next[i]];
  }

  lemma LoopStep(check: Check, respect: bool, lines: seq<string>, i: nat, enabled: bool)
    requires i < |lines|
    ensures var e := Switch(respect, lines[i], enabled);
            var look := Looked(respect, lines[i], e);
            && (Compliant(check, respect, lines[i..], enabled) <==>
                (look ==> LineCompliant(check, lines[i])) && Compliant(check, respect, lines[i + 1..], e))
            && FixLines(check, respect, lines[i..], enabled) ==
               [if look then FixLine(check, lines[i]) else lines[i]] + FixLines(check, respect, lines[i + 1..], e)
  {
    hide Switch, Looked, FixLine, LineCompliant;
    assert lines[i..][0] == lines[i] && lines[i..][1..] == lines[i + 1..];
  }

  lemma PassDone(check: Check, respect: bool, lines: seq<string>, enabled: bool, ok: bool, fileLines: seq<string>)
    requires PassOk(check, respect, lines, |lines|, enabled, ok, fileLines)
    ensures ok <==> Compliant(check, respect, lines, true)
    ensures fileLines == FixLines(check, respect, lines, true)
  {
    assert lines[|lines|..] == [] && fileLines[..|lines|] == fileLines;
  }

  // The loop over the lines.
  method CheckLines(lines: seq<string>, fix: bool, verbose: bool, respect: bool, check: Check)
    returns (isFileCompliant: bool, fileLines: seq<string>)
    ensures isFileCompliant <==> Compliant(check, respect, lines, true)
    ensures fix ==> fileLines == FixLines(check, respect, lines, true)
  {
    hide Switch, Looked, FixLine, LineCompliant, PassOk, Skipped, Compliant, FixLines;
    isFileCompliant, fileLines := true, lines;
    var enabled := true;
    PassStart(check, respect, lines);
    for i := 0 to |lines|
      invariant PassOk(check, respect, lines, i, enabled, isFileCompliant, fileLines) && |fileLines| == |lines|
    {
      var line := lines[i];
      PassStep(check, respect, lines, i, enabled, isFileCompliant, fileLines);
      LookedAt(respect, line, enabled);
      enabled := Switched(respect, line, enabled);
      if Skipped(respect, line, enabled) {
        continue;
      }
      CompliantUnchanged(check, line);
      assert fileLines[i := line] == fileLines;
      if !LineCompliant(check, line) {
        isFileCompliant := false;
        fileLines := fileLines[i := FixLine(check, line)];
        if !fix && !verbose {
          PassFailed(check, respect, lines, i + 1, enabled, fileLines);
          return;
        }
      }
    }
    PassDone(check, respect, lines, enabled, isFileCompliant, fileLines);
  }

  lemma PassStart(check: Check, respect: bool, lines: seq<string>)
    ensures PassOk(check, respect, lines, 0, true, true, lines)
  {
    assert lines[0..] == lines && lines[..0] == [];
  }

  lemma PassFailed(check: Check, respect: bool, lines: seq<string>, i: nat, enabled: bool, fileLines: seq<string>)
    requires i <= |lines| && PassOk(check, respect, lines, i, enabled, false, fileLines)
    ensures !Compliant(check, respect, lines, true)
  {
  }

  // The guard tests at the head of the loop body, as the source orders them.
  method Switched(respect: bool, line: string, enabled: bool) returns (e: bool)
    ensures e == Switch(respect, line, enabled)
  {
    e := enabled;
    if respect {
      var stripped := Strip(line);
      if stripped == GUARD_ON {
        e := true;
      } else if stripped == GUARD_OFF {
        e := false;
      }
    }
  }

  predicate Skipped(respect: bool, line: string, enabled: bool) {
    respect && !enabled && Strip(line) != GUARD_ON && Strip(line) != GUARD_OFF
  }

  lemma LookedAt(respect: bool, line: string, enabled: bool)
    ensures Skipped(respect, line, Switch(respect, line, enabled)) <==>
            !Looked(respect, line, Switch(respect, line, enabled))
  {
  }

  lemma CompliantUnchanged(check: Check, line: string)
    ensures LineCompliant(check, line) ==> FixLine(check, line) == line
  {
  }

  // What fix mode leaves in the file.
  function FixFile(check: Check, respect: bool, content: string): string {
    var lines := ReadLines(Translate(content));
    if Compliant(check, respect, lines, true) then content else WriteLines(FixLines(check, respect, lines, true))
  }

  // ---- one line ----

  lemma GuardsTight()
    ensures StyleText.Tight(GUARD_ON) && NoTab(GUARD_ON) && StyleText.Tight(GUARD_OFF) && NoTab(GUARD_OFF)
  {
  }

  lemma MemberTab(line: string)
    ensures '\t' !in line <==> NoTab(line)
  {
  }

  // A fixed line needs no further fixing.
  lemma FixedLineCompliant(check: Check, line: string)
    ensures LineCompliant(check, FixLine(check, line))
  {
    match check
    case Tabs =>
      ExpandFacts(line, 0);
      MemberTab(ExpandTabs(line, 0));
    case Whitespace =>
      RStripSplit(line);
      RStripOf(RStrip(line), "\n");
  }

  // Fixing a guard line leaves the same guard.
  lemma FixKeepsGuard(check: Check, line: string)
    ensures IsGuard(line) ==> Strip(FixLine(check, line)) == Strip(line)
  {
    if IsGuard(line) {
      GuardsTight();
      match check
      case Tabs => ExpandKeepsStrip(line, Strip(line));
      case Whitespace =>
        var a, b := StripSplit(line);
        RStripOf(a + Strip(line), b);
        StripOf(RStrip(line) + "\n", a, Strip(line), "\n");
    }
  }

  // ---- the whole file: a second pass finds nothing to do ----

  // The switch of the second pass is on only where that of the first was: a fixed line can turn
  // into a guard, but one that switches on was fixed while the first pass was on already.
  lemma SecondPassStep(check: Check, respect: bool, line: string, e1: bool, e2: bool)
    requires e2 ==> e1
    ensures var f1 := Switch(respect, line, e1);
            var fixed := if Looked(respect, line, f1) then FixLine(check, line) else line;
            && (Switch(respect, fixed, e2) ==> f1)
            && (Looked(respect, fixed, Switch(respect, fixed, e2)) ==> Looked(respect, line, f1))
  {
    FixKeepsGuard(check, line);
  }

  lemma {:induction false} FixedCompliant(check: Check, respect: bool, lines: seq<string>, e1: bool, e2: bool)
    requires e2 ==> e1
    ensures Compliant(check, respect, FixLines(check, respect, lines, e1), e2)
  {
    if lines != [] {
      hide Switch, Looked, FixLine, LineCompliant;
      var f1 := Switch(respect, lines[0], e1);
      var fixed := FixLines(check, respect, lines, e1);
      SecondPassStep(check, respect, lines[0], e1, e2);
      FixedLineCompliant(check, lines[0]);
      FixedCompliant(check, respect, lines[1..], f1, Switch(respect, fixed[0], e2));
      assert fixed[1..] == FixLines(check, respect, lines[1..], f1);
    }
  }

  lemma FixedIsLine(check: Check, line: string)
    requires IsLine(line)
    ensures IsLine(FixLine(check, line)) && (Ended(line) ==> Ended(FixLine(check, line)))
  {
    var k := |line| - 1;
    match check
    case Tabs =>
      assert line == line[..k] + [line[k]];
      ExpandConcat(line[..k], [line[k]], 0);
      ExpandFacts(line, 0);
      ExpandFacts(line[..k], 0);
      ExpandLast(line[k], ColumnAfter(line[..k], 0));
    case Whitespace =>
      RStripSplit(line);
      var r := RStrip(line);
      assert IsSpace('\n');
      if |r| == |line| {
        assert line[k] != '\n';
      }
  }

  // One character expands to spaces or to itself.
  lemma ExpandLast(c: char, col: nat)
    ensures ExpandTabs([c], col) == Piece(c, col) && |Piece(c, col)| > 0
    ensures c != '\t' ==> Piece(c, col) == [c]
    ensures forall i :: 0 <= i < |Piece(c, col)| - 1 ==> Piece(c, col)[i] != '\n'
  {
    assert [c][1..] == [];
    assert ExpandTabs([c], col) == Piece(c, col) + [];
  }

  lemma FixedAreLines(check: Check, respect: bool, lines: seq<string>)
    requires AreLines(lines)
    ensures AreLines(FixLines(check, respect, lines, true))
  {
    hide FixLine, FixLines, Looked, Switch, IsLine, Ended;
    var r := FixLines(check, respect, lines, true);
    forall i | 0 <= i < |r| ensures IsLine(r[i]) && (i < |r| - 1 ==> Ended(r[i])) {
      assert lines[0..] == lines;
      FixLinesAt(check, respect, lines, 0, i);
      FixedIsLine(check, lines[i]);
    }
  }

  // Idempotence: after fix mode the file is compliant, and fixing it again changes nothing, for
  // either check, with or without guards.
  lemma FixIdempotent(check: Check, respect: bool, content: string)
    ensures Compliant(check, respect, ReadLines(Translate(FixFile(check, respect, content))), true)
    ensures FixFile(check, respect, FixFile(check, respect, content)) == FixFile(check, respect, content)
  {
    hide Compliant, FixLines, AreLines, WriteLines, ReadLines, Translate;
    var lines := ReadLines(Translate(content));
    if !Compliant(check, respect, lines, true) {
      var fixed := FixLines(check, respect, lines, true);
      TranslateNoReturn(content);
      ReadLinesOk(Translate(content));
      FixedAreLines(check, respect, lines);
      WriteThenRead(fixed);
      TranslateNoReturn(WriteLines(fixed));
      FixedCompliant(check, respect, lines, true, true);
    }
  }

  // ---- which lines are left alone, without running the switch ----

  ghost predicate IsOn(line: string) { Strip(line) == "// clang-format on" }
  ghost predicate IsOff(line: string) { Strip(line) == "// clang-format off" }

  // Line i lies behind an off guard with no on guard since.
  ghost predicate SwitchedOff(lines: seq<string>, i: nat)
    requires i < |lines|
  {
    exists j :: 0 <= j <= i && IsOff(lines[j]) && forall k :: j < k <= i ==> !IsOn(lines[k])
  }

  ghost function Enabled(respect: bool, lines: seq<string>, i: nat): bool
    requires i <= |lines|
  {
    if i == 0 then true else Switch(respect, lines[i - 1], Enabled(respect, lines, i - 1))
  }

  lemma {:induction false} EnabledIff(lines: seq<string>, i: nat)
    requires i < |lines|
    ensures Enabled(true, lines, i + 1) <==> !SwitchedOff(lines, i)
  {
    hide Strip;
    if i > 0 {
      EnabledIff(lines, i - 1);
    }
    if IsOff(lines[i]) {
      assert SwitchedOff(lines, i);
    } else if !IsOn(lines[i]) {
      if i > 0 && SwitchedOff(lines, i - 1) {
        var j :| 0 <= j <= i - 1 && IsOff(lines[j]) && forall k :: j < k <= i - 1 ==> !IsOn(lines[k]);
        assert SwitchedOff(lines, i);
      }
    }
  }

  lemma {:induction false} FixLinesAt(check: Check, respect: bool, lines: seq<string>, n: nat, i: nat)
    requires n <= i < |lines|
    ensures FixLines(check, respect, lines[n..], Enabled(respect, lines, n))[i - n] ==
            if Looked(respect, lines[i], Enabled(respect, lines, i + 1)) then FixLine(check, lines[i]) else lines[i]
    decreases i - n
  {
    hide Looked, FixLine, Switch;
    assert lines[n..][0] == lines[n] && lines[n..][1..] == lines[n + 1..];
    if n < i {
      FixLinesAt(check, respect, lines, n + 1, i);
    }
  }

  // A line that is no guard and lies behind an off guard.
  ghost predicate LeftAlone(respect: bool, lines: seq<string>, i: nat)
    requires i < |lines|
  {
    respect && SwitchedOff(lines, i) && !IsOn(lines[i]) && !IsOff(lines[i])
  }

  lemma LeftAloneIff(respect: bool, lines: seq<string>, i: nat)
    requires i < |lines|
    ensures Looked(respect, lines[i], Enabled(respect, lines, i + 1)) <==> !LeftAlone(respect, lines, i)
  {
    hide Strip;
    if respect {
      EnabledIff(lines, i);
    }
  }

  // Exactly the lines that are guards or not behind an off guard are fixed; among the lines as
  // read, all others, like every line that is compliant, come out as they went in.
  lemma FixedWhere(check: Check, respect: bool, lines: seq<string>, i: nat)
    requires i < |lines|
    ensures FixLines(check, respect, lines, true)[i] ==
            if LeftAlone(respect, lines, i) then lines[i] else FixLine(check, lines[i])
  {
    hide FixLine, Strip, LeftAlone;
    assert lines[0..] == lines;
    FixLinesAt(check, respect, lines, 0, i);
    LeftAloneIff(respect, lines, i);
  }

  lemma {:induction false} CompliantFrom(check: Check, respect: bool, lines: seq<string>, n: nat)
    requires n <= |lines|
    ensures Compliant(check, respect, lines[n..], Enabled(respect, lines, n)) <==>
            forall i :: n <= i < |lines| && !LeftAlone(respect, lines, i) ==> LineCompliant(check, lines[i])
    decreases |lines| - n
  {
    hide Looked, LineCompliant, Switch, LeftAlone;
    if n < |lines| {
      assert lines[n..][0] == lines[n] && lines[n..][1..] == lines[n + 1..];
      LeftAloneIff(respect, lines, n);
      CompliantFrom(check, respect, lines, n + 1);
    }
  }

  // The verdict, without running the switch: a file is compliant exactly when every line that is a
  // guard or not behind an off guard is.
  lemma CompliantIff(check: Check, respect: bool, lines: seq<string>)
    ensures Compliant(check, respect, lines, true) <==>
            forall i :: 0 <= i < |lines| && !LeftAlone(respect, lines, i) ==> LineCompliant(check, lines[i])
  {
    assert lines[0..] == lines;
    CompliantFrom(check, respect, lines, 0);
  }

  // The switch of a second pass is on only where that of the first was.
  lemma {:induction false} SecondPassEnabled(check: Check, respect: bool, lines: seq<string>, i: nat)
    requires i <= |lines|
    ensures var fixed := FixLines(check, respect, lines, true);
            && (Enabled(respect, fixed, i) ==> Enabled(respect, lines, i))
            && forall k :: 0 <= k < i ==>
                 (Looked(respect, fixed[k], Enabled(respect, fixed, k + 1)) ==>
                  Looked(respect, lines[k], Enabled(respect, lines, k + 1)))
  {
    hide FixLine, Strip, Looked, Switch;
    if i > 0 {
      SecondPassEnabled(check, respect, lines, i - 1);
      var fixed := FixLines(check, respect, lines, true);
      assert lines[0..] == lines;
      FixLinesAt(check, respect, lines, 0, i - 1);
      SecondPassStep(check, respect, lines[i - 1], Enabled(respect, lines, i - 1), Enabled(respect, fixed, i - 1));
    }
  }

  // A line that a second pass looks at was looked at by the first, in every file, although a fixed
  // line can have become a guard.
  lemma SecondPassChecksLess(check: Check, respect: bool, lines: seq<string>, i: nat)
    requires i < |lines|
    ensures LeftAlone(respect, lines, i) ==> LeftAlone(respect, FixLines(check, respect, lines, true), i)
  {
    hide LeftAlone, Looked, FixLines;
    SecondPassEnabled(check, respect, lines, |lines|);
    LeftAloneIff(respect, lines, i);
    LeftAloneIff(respect, FixLines(check, respect, lines, true), i);
  }

  // ---- the file as it stands on disk ----

  // What fix mode leaves of each raw line, terminator included.
  lemma FileFixedWhere(check: Check, respect: bool, content: string, i: nat)
    requires i < |RawLines(content)|
    ensures var lines, raw := ReadLines(Translate(content)), RawLines(content);
            var out := RawLines(FixFile(check, respect, content));
            && |lines| == |raw| == |out|
            && out[i] == if Compliant(check, respect, lines, true) then raw[i]
                         else if LeftAlone(respect, lines, i) then Translate(raw[i])
                         else FixLine(check, Translate(raw[i]))
  {
    hide Compliant, FixLines, AreLines, WriteLines, ReadLines, Translate, RawLines, LeftAlone, FixLine;
    var lines := ReadLines(Translate(content));
    ReadLinesRaw(content);
    if !Compliant(check, respect, lines, true) {
      var fixed := FixLines(check, respect, lines, true);
      TranslateNoReturn(content);
      ReadLinesOk(Translate(content));
      FixedAreLines(check, respect, lines);
      WriteThenRead(fixed);
      RawLinesSame(WriteLines(fixed));
      FixedWhere(check, respect, lines, i);
    }
  }

  // A line that is left alone keeps its bytes if and only if the whole file is compliant, or there
  // is no carriage return in the line or its terminator: writing the file back turns those to \n.
  lemma BytesKeptIff(check: Check, respect: bool, content: string, i: nat)
    requires i < |RawLines(content)| == |ReadLines(Translate(content))|
    requires LeftAlone(respect, ReadLines(Translate(content)), i)
    ensures |RawLines(FixFile(check, respect, content))| == |RawLines(content)|
    ensures RawLines(FixFile(check, respect, content))[i] == RawLines(content)[i] <==>
            Compliant(check, respect, ReadLines(Translate(content)), true) || NoReturn(RawLines(content)[i])
  {
    hide Compliant, ReadLines, Translate, RawLines, LeftAlone, FixFile;
    FileFixedWhere(check, respect, content, i);
    TranslateSameIff(RawLines(content)[i]);
  }

  // It does happen: a tab outside the guards rewrites the terminator of a line between them.
  lemma GuardedLineExample()
    ensures var content := "\tx\n" + GUARD_OFF + "\n" + "x\r\n";
            var lines := ReadLines(Translate(content));
            && RawLines(content) == ["\tx\n", GUARD_OFF + "\n", "x\r\n"]
            && |lines| == 3 && LeftAlone(true, lines, 2)
            && |RawLines(FixFile(Tabs, true, content))| == 3
            && RawLines(FixFile(Tabs, true, content))[2] == "x\n"
  {
    var content := "\tx\n" + GUARD_OFF + "\n" + "x\r\n";
    hide Compliant, LeftAlone, FixFile, ReadLines, Translate, Strip;
    ExampleRaw();
    ExampleTranslated();
    ReadLinesRaw(content);
    var lines := ReadLines(Translate(content));
    assert lines == ["\tx\n", GUARD_OFF + "\n", "x\n"];
    ExampleLeftAlone(lines);
    CompliantIff(Tabs, true, lines);
    assert !LineCompliant(Tabs, lines[0]);
    FileFixedWhere(Tabs, true, content, 2);
  }

  lemma ExampleRaw()
    ensures RawLines("\tx\n" + GUARD_OFF + "\n" + "x\r\n") == ["\tx\n", GUARD_OFF + "\n", "x\r\n"]
  {
    hide RawLines;
    var l, m, r := "\tx\n", GUARD_OFF + "\n", "x\r\n";
    RawFirst(l, m + r);
    RawFirst(m, r);
    RawOnly();
    assert l + GUARD_OFF + "\n" + r == l + (m + r);
    assert [l] + ([m] + [r]) == [l, m, r];
  }

  lemma RawOnly()
    ensures RawLines("x\r\n") == ["x\r\n"]
  {
    var r := "x\r\n";
    assert r[1..] == "\r\n" && RawLineEnd(r[1..]) == 2 && RawLineEnd(r) == 3;
    assert r[3..] == [] && r[..3] == r && RawLines(r) == [r] + RawLines([]);
  }

  lemma ExampleTranslated()
    ensures Translate("\tx\n") == "\tx\n" && Translate(GUARD_OFF + "\n") == GUARD_OFF + "\n"
    ensures Translate("x\r\n") == "x\n"
  {
    TranslateNoReturn("\tx\n");
    TranslateNoReturn(GUARD_OFF + "\n");
    assert "x\r\n"[1..] == "\r\n" && "\r\n"[2..] == [];
  }

  lemma ExampleLeftAlone(lines: seq<string>)
    requires lines == ["\tx\n", GUARD_OFF + "\n", "x\n"]
    ensures LeftAlone(true, lines, 0) <==> false
    ensures LeftAlone(true, lines, 2)
  {
    GuardsTight();
    hide Strip;
    StripOf("\tx\n", "\t", "x", "\n");
    StripOf(lines[1], "", GUARD_OFF, "\n");
    StripOf("x\n", "", "x", "\n");
  }

  // ---- the two fixes after one another ----

  // Expanding tabs in a line without trailing white space leaves none.
  lemma TabsKeepWhitespace(line: string)
    requires LineCompliant(Whitespace, line)
    ensures LineCompliant(Whitespace, FixLine(Tabs, line))
  {
    var r := RStrip(line);
    RStripSplit(line);
    if '\t' in line {
      ExpandConcat(r, "\n", 0);
      ExpandLast('\n', ColumnAfter(r, 0));
      if r != [] {
        var k := |r| - 1;
        assert r == r[..k] + [r[k]];
        ExpandConcat(r[..k], [r[k]], 0);
        ExpandLast(r[k], ColumnAfter(r[..k], 0));
        assert !IsSpace(ExpandTabs(r, 0)[|ExpandTabs(r, 0)| - 1]);
      }
      RStripOf(ExpandTabs(r, 0), "\n");
    }
  }

  lemma {:induction false} TabsKeepWhitespaceLines(lines: seq<string>, e: bool, respect: bool, enabled: bool)
    requires Compliant(Whitespace, false, lines, e)
    ensures Compliant(Whitespace, false, FixLines(Tabs, respect, lines, enabled), e)
  {
    if lines != [] {
      hide FixLine, LineCompliant, Strip;
      TabsKeepWhitespace(lines[0]);
      var f := Switch(respect, lines[0], enabled);
      TabsKeepWhitespaceLines(lines[1..], e, respect, f);
      var fixed := FixLines(Tabs, respect, lines, enabled);
      assert fixed[1..] == FixLines(Tabs, respect, lines[1..], f);
    }
  }

  // The script fixes white space (guards ignored) and then tabs (guards respected): one run of
  // both leaves a file that passes both checks.
  lemma BothFixesInOneRun(content: string)
    ensures var once := FixFile(Tabs, true, FixFile(Whitespace, false, content));
            && Compliant(Tabs, true, ReadLines(Translate(once)), true)
            && Compliant(Whitespace, false, ReadLines(Translate(once)), true)
  {
    hide Compliant, FixLines, AreLines, WriteLines, ReadLines, Translate;
    var mid := FixFile(Whitespace, false, content);
    var once := FixFile(Tabs, true, mid);
    FixIdempotent(Whitespace, false, content);
    FixIdempotent(Tabs, true, mid);
    var lines := ReadLines(Translate(mid));
    if !Compliant(Tabs, true, lines, true) {
      var fixed := FixLines(Tabs, true, lines, true);
      TranslateNoReturn(mid);
      ReadLinesOk(Translate(mid));
      FixedAreLines(Tabs, true, lines);
      WriteThenRead(fixed);
      TranslateNoReturn(WriteLines(fixed));
      TabsKeepWhitespaceLines(lines, true, true, true);
    }
  }

  // Expanding a tab can create a guard: after the fix, the lines below are no longer checked.
  lemma NewGuardExample()
    ensures var line := "// clang-format" + "\toff";
            !IsGuard(line) && Strip(FixLine(Tabs, line)) == GUARD_OFF
  {
    var g, t := "// clang-format", "\toff";
    hide ExpandTabs, Strip, ColumnAfter;
    StripOf(g + t, "", g + t, "");
    NewGuardExpanded();
    assert (g + t)[15] == '\t' && '\t' in g + t;
    StripOf(GUARD_OFF, "", GUARD_OFF, "");
  }

  lemma NewGuardExpanded()
    ensures ExpandTabs("// clang-format" + "\toff", 0) == GUARD_OFF
  {
    var g, t := "// clang-format", "\toff";
    hide ExpandTabs, ColumnAfter;
    ExpandConcat(g, t, 0);
    ExpandFacts(g, 0);
    ColumnOfPlain(g, 0);
    TabOff();
    assert g + " off" == GUARD_OFF;
  }

  lemma TabOff()
    ensures ExpandTabs("\toff", 15) == " off"
  {
    var h := "off";
    assert "\toff"[1..] == h && Spaces(1) == " ";
    ExpandFacts(h, 16);
  }

  lemma {:induction false} ColumnOfPlain(s: string, col: nat)
    requires NoTab(s) && forall i :: 0 <= i < |s| ==> s[i] != '\n' && s[i] != '\r'
    ensures ColumnAfter(s, col) == col + |s|
    decreases |s|
  {
    if s != [] {
      ColumnOfPlain(s[1..], col + 1);
    }
  }
}
