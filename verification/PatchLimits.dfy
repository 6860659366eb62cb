/** Inputs on which the conditions of the patch laws cannot be dropped. */
module PatchLimits {
  import opened Lines
  import opened HunkHeaders
  import opened UnifiedDiff
  import opened EditScripts
  import opened PatchLaws
  import opened PatchTexts
  import opened HunkOrder

  lemma OneEdit(e: Edit)
    ensures Removed([e]) == if e.Insert? then [] else [e.line]
    ensures Added([e]) == if e.Delete? then [] else [e.line]
    ensures RenderEdits([e]) == RenderEdit(e)
  {
    hide RenderEdit;
    assert RenderEdits([e]) == RenderEdit(e) + [];
  }

  // ---------- adjacent hunks at a missing newline ----------

  const FIRST := Hunk([], [Delete("a"), Insert("a\n")], "")
  const SECOND := Hunk([], [Insert("b\n")], "")

  lemma AdjacentEdits()
    ensures FIRST.gap == [] && SECOND.gap == [] && FIRST.heading == "" && SECOND.heading == ""
    ensures Removed(FIRST.edits) == ["a"] && Added(FIRST.edits) == ["a\n"]
    ensures Removed(SECOND.edits) == [] && Added(SECOND.edits) == ["b\n"]
    ensures forall s :: Matches(s, 0, FIRST.edits)
    ensures [FIRST, SECOND][1..] == [SECOND] && [SECOND][1..] == []
  {
    assert FIRST.edits[1..] == [Insert("a\n")] && [Insert("a\n")][1..] == [];
    OneEdit(FIRST.edits[1]);
    OneEdit(SECOND.edits[0]);
  }

  lemma AdjacentAreClean()
    ensures CleanEdits(FIRST.edits) && CleanEdits(SECOND.edits) && NoBoundary("")
    ensures LinesBefore(["a"], "") && LinesBefore(["ab\n"], "")
  {
  }

  lemma AdjacentTexts()
    ensures Concat(["a"]) == "a" && Concat(["a\n"]) == "a\n"
    ensures Concat(["ab\n"]) == "ab\n" && Concat(["a", "b\n"]) == "ab\n"
    ensures ["a"] + [] == ["a"] && ["a"] + ["b\n"] == ["a", "b\n"]
    ensures [] + ["ab\n"] == ["ab\n"] && [] + ["a\n"] == ["a\n"]
    ensures "a" + "" == "a" && "ab\n" + "" == "ab\n" && "a\n" + "" == "a\n"
  {
    ConcatOne("a");
    ConcatOne("a\n");
    ConcatOne("ab\n");
    ConcatAppend(["a"], ["b\n"]);
    ConcatOne("b\n");
    hide *;
    assert ["a"] + ["b\n"] == ["a", "b\n"] && "a" + "b\n" == "ab\n";
  }

  /** The second hunk alone joins its line to the unterminated last line. */
  lemma SecondAlone()
    ensures Scan(SplitLines("a"), SplitLines(Concat(RenderHunk(SECOND, 1, 1)))) == Patched("ab\n")
  {
    hide *;
    AdjacentEdits();
    AdjacentAreClean();
    AdjacentTexts();
    ExpectedHunk(["a"], SECOND, "", 1);
  }

  /** The first hunk then deletes the joined line: a removed line is skipped, never compared. */
  lemma FirstAfterSecond()
    ensures Scan(SplitLines("ab\n"), SplitLines(Concat(RenderHunk(FIRST, 0, 0)))) == Patched("a\n")
  {
    hide *;
    AdjacentEdits();
    AdjacentAreClean();
    AdjacentTexts();
    SingleHunk([], FIRST, ["ab\n"], "", 0);
  }

  lemma AdjacentFiles()
    ensures OldFile([FIRST, SECOND], []) == ["a"] && NewFile([FIRST, SECOND], []) == ["a\n", "b\n"]
  {
    hide *;
    AdjacentEdits();
    AdjacentAreClean();
    AdjacentTexts();
    FileStep([FIRST, SECOND], []);
    FileStep([SECOND], []);
    NoHunks([]);
    assert [] + ["a"] + ([] + [] + []) == ["a"] && [] + ["a\n"] + ([] + ["b\n"] + []) == ["a\n", "b\n"];
  }

  /** Adjacent hunks at an old last line that has no newline: hunk by hunk gives another file than one scan. */
  lemma AdjacentHunksDiffer()
    ensures OldFile([FIRST, SECOND], []) == ["a"] && NewFile([FIRST, SECOND], []) == ["a\n", "b\n"]
    ensures HunkByHunk("a", [FIRST, SECOND], 0, 0) == Patched("a\n")
  {
    hide *;
    AdjacentFiles();
    AdjacentEdits();
    AdjacentAreClean();
    AdjacentTexts();
    NothingToApply("a", 1, 2);
    HunkByHunkStep("a", [SECOND], 1, 1, "a");
    SecondAlone();
    HunkByHunkStep("a", [FIRST, SECOND], 0, 0, "ab\n");
    FirstAfterSecond();
  }

  // ---------- lines that Python breaks and diff does not ----------

  /** In front of b, this character ends a line for Python but not for diff; a "\r\n" is one line for both. */
  predicate BreaksBefore(c: char, b: string) {
    IsBoundary(c) && c != '\n' && !(c == '\r' && b == "")
  }

  lemma {:induction false} BoundaryEnds(s: string, c: char)
    requires NoBoundary(s) && IsBoundary(c)
    ensures WholeLine(s + [c])
  {
    if s != "" {
      assert (s + [c])[1..] == s[1..] + [c];
      BoundaryEnds(s[1..], c);
    }
  }

  lemma BrokenInTwo(x: string, c: char, b: string)
    requires NoBoundary(x) && NoBoundary(b) && BreaksBefore(c, b)
    ensures SplitLines((x + [c]) + (b + "\n")) == [x + [c], b + "\n"]
  {
    hide SplitLines;
    BoundaryEnds(x, c);
    LineWithNewline(b);
    CleanIsWhole(b + "\n");
    assert EndsBefore(x + [c], b + "\n");
    SplitStep(x + [c], b + "\n");
    SplitStep(b + "\n", "");
    assert (b + "\n") + "" == b + "\n" && SplitLines("") == [];
  }

  /** A script of one hunk with a single edit, and the patch rendered for it. */
  function Script(e: Edit): seq<Hunk> {
    [Hunk([], [e], "")]
  }

  function ScriptHeader(e: Edit): string {
    Header(0, 1, 0, |Added([e])|, "")
  }

  lemma ScriptRendered(e: Edit)
    requires !e.Insert? && EndsInNewline(e.line)
    ensures OldFile(Script(e), []) == [e.line] && NewFile(Script(e), []) == Added([e])
    ensures RenderHunks(Script(e), 0, 0) == [ScriptHeader(e)] + [Mark(e) + e.line]
  {
    hide Header;
    OneEdit(e);
    hide Removed;
    hide Added;
    hide RenderEdits;
    assert Script(e)[1..] == [];
    assert RenderHunk(Script(e)[0], 0, 0) == [ScriptHeader(e)] + [Mark(e) + e.line];
  }

  lemma BrokenScript(e: Edit, a: string, c: char, b: string)
    requires !e.Insert? && e.line == (a + [c]) + (b + "\n")
    requires NoBoundary(a) && NoBoundary(b) && BreaksBefore(c, b)
    ensures SplitLines(e.line) == [a + [c], b + "\n"]
    ensures SplitLines(Concat(RenderHunks(Script(e), 0, 0))) == [ScriptHeader(e)] + [Mark(e) + (a + [c]), b + "\n"]
  {
    EndsLine(e, a, c, b);
    assert NoBoundary(Mark(e) + a);
    hide *;
    BrokenInTwo(a, c, b);
    BrokenInTwo(Mark(e) + a, c, b);
    ScriptRendered(e);
    ScriptHeaderIsEnded(e, Mark(e) + e.line);
    SplitConcat([ScriptHeader(e)], Mark(e) + e.line);
    ConcatAppend([ScriptHeader(e)], [Mark(e) + e.line]);
    ConcatOne(Mark(e) + e.line);
  }

  lemma EndsLine(e: Edit, a: string, c: char, b: string)
    requires e.line == (a + [c]) + (b + "\n")
    ensures EndsInNewline(e.line) && Mark(e) + e.line == ((Mark(e) + a) + [c]) + (b + "\n")
    ensures Mark(e) + (a + [c]) == (Mark(e) + a) + [c]
  {
  }

  lemma ScriptHeaderIsEnded(e: Edit, rest: string)
    ensures LinesBefore([ScriptHeader(e)], rest)
  {
    HeaderIsEnded(0, 1, 0, |Added([e])|, "");
    hide Header;
    hide CleanLine;
  }

  /** What the scan makes of the second half, as a patch line of its own and as the second old line. */
  function AfterSecondHalf(x: string, y: string, t: string): Outcome
    requires y != ""
  {
    if y[0] == '@' then
      match ParseHeader(y)
      case None => NotAHunk(2)
      case Some(h) => Patched(t + if StartOf(h) == 0 then x + y else y)
    else if y[0] == ' ' then ContextDiffers(1)
    else if y[0] == '+' then Patched(t + y[1..] + y)
    else Patched(t)
  }

  lemma SecondHalf(x: string, y: string, t: string)
    requires y != ""
    ensures Body([x, y], [y], 2, 1, t) == AfterSecondHalf(x, y, t)
  {
    hide ParseHeader;
    hide StartOf;
    var s := [x, y];
    assert [y][1..] == [] && [y][0..] == [y];
    if y[0] == '@' {
      BodyStop(s, [y], 0, 1, t);
      if ParseHeader(y).Some? {
        SecondHalfAsHeader(x, y, t);
      }
    } else {
      assert Slice(s, 1, 2) == [y] && Slice(s, 2, 2) == [];
      assert Concat([y]) == y && t + Concat([]) == t;
      assert BodyLine([y]) && LineOf([y]) == y;
      assert Body(s, [], 3, 1, t + y[1..]) == Patched(t + y[1..] + y);
      assert Body(s, [], 3, 2, t) == Patched(t);
    }
  }

  /** A second half that parses as a header moves the cursor: back to the start, or to where nothing is lost. */
  lemma SecondHalfAsHeader(x: string, y: string, t: string)
    requires y != "" && ParseHeader(y).Some?
    ensures var k := StartOf(ParseHeader(y).value);
            Hunks([x, y], [y], 2, 1, t) == Patched(t + if k == 0 then x + y else y)
  {
    hide ParseHeader;
    var s, h := [x, y], ParseHeader(y).value;
    var k := StartOf(h);
    assert k >= -1;
    hide StartOf;
    assert [y] + [] == [y];
    HunksStep(s, y, [], 2, 1, t, h);
    Cuts(x, y, t, k);
    var t' := t + Concat(Slice(s, 1, k));
    assert Body(s, [], 3, k, t') == Patched(t' + Concat(Slice(s, k, 2)));
  }

  lemma Cuts(x: string, y: string, t: string, k: int)
    requires k >= -1
    ensures t + Concat(Slice([x, y], 1, k)) + Concat(Slice([x, y], k, 2)) == t + if k == 0 then x + y else y
  {
    var s := [x, y];
    ConcatOne(y);
    ConcatAppend([x], [y]);
    ConcatOne(x);
    assert [x] + [y] == s && Concat([]) == "";
    hide Concat;
    if k == -1 {
      assert Slice(s, 1, k) == [] && Slice(s, k, 2) == [y];
    } else if k == 0 {
      assert Slice(s, 1, k) == [] && Slice(s, k, 2) == s;
    } else if k == 1 {
      assert Slice(s, 1, k) == [] && Slice(s, k, 2) == [y];
    } else {
      assert Slice(s, 1, k) == [y] && Slice(s, k, 2) == [];
    }
  }

  lemma FirstHalf(e: Edit, s: seq<string>, x: string, y: string)
    requires !e.Insert? && x != "" && y != "" && s == [x, y]
    ensures Body(s, [Mark(e) + x, y], 1, 0, "") ==
            if y[0] == '\\' then (if e.Keep? then ContextDiffers(0) else Patched(y))
            else Body(s, [y], 2, 1, if e.Keep? then x else "")
  {
    hide ParseHeader;
    hide StartOf;
    var line, p := Mark(e) + x, [Mark(e) + x, y];
    assert p[1..] == [y] && p[2..] == [] && line[1..] == x && Slice(s, 1, 2) == [y] && Concat([y]) == y;
    assert "" + x == x && "" + y == y && line[..|line| - 1][1..] == x[..|x| - 1];
    if y[0] == '\\' {
      assert Marked(p) && LineOf(p) == line[..|line| - 1];
      assert Body(s, [], 3, 1, "") == Patched("" + y);
    } else {
      assert !Marked(p) && LineOf(p) == line;
    }
  }

  lemma ScriptScan(e: Edit, s: seq<string>, body: seq<string>)
    ensures Scan(s, [ScriptHeader(e)] + body) == Body(s, body, 1, 0, "")
  {
    var header := ScriptHeader(e);
    HeaderStarts(e);
    hide *;
    HeaderRoundTrip(0, 1, 0, |Added([e])|, "");
    HunksStep(s, header, body, 0, 0, "", ParseHeader(header).value);
    ScanWithoutFileHeader(s, [header] + body);
    EmptyStart(s);
  }

  lemma HeaderStarts(e: Edit)
    ensures ScriptHeader(e) == Header(0, 1, 0, |Added([e])|, "") && ScriptHeader(e) != "" && ScriptHeader(e)[0] == '@'
  {
  }

  lemma ScanWithoutFileHeader(s: seq<string>, p: seq<string>)
    requires p != [] && p[0] != "" && p[0][0] == '@'
    ensures Scan(s, p) == Hunks(s, p, 0, 0, "")
  {
    hide Hunks;
    assert p[0..] == p;
  }

  lemma EmptyStart(s: seq<string>)
    ensures "" + Concat(Slice(s, 0, 0)) == ""
  {
  }

  /**
   * A kept line that Python breaks is damaged or its patch refused, whatever its parts are, unless the second half
   * happens to parse as a hunk header that does not start at the first line. As a rule the second half is lost.
   */
  lemma KeptLineBreaks(a: string, c: char, b: string)
    requires NoBoundary(a) && NoBoundary(b) && BreaksBefore(c, b)
    ensures var line, header := (a + [c]) + (b + "\n"), ParseHeader(b + "\n");
            && OldFile(Script(Keep(line)), []) == NewFile(Script(Keep(line)), []) == [line]
            && var outcome := Scan(SplitLines(line), SplitLines(Concat(RenderHunks(Script(Keep(line)), 0, 0))));
            && (outcome == Patched(line) <==> header.Some? && StartOf(header.value) != 0)
            && (b == "" || b[0] !in {' ', '+', '\\', '@'} ==> outcome == Patched(a + [c]))
  {
    hide *;
    var x, y := a + [c], b + "\n";
    var e := Keep(x + y);
    OneEdit(e);
    EndsLine(e, a, c, b);
    ScriptRendered(e);
    BrokenScript(e, a, c, b);
    ScriptScan(e, [x, y], [Mark(e) + x, y]);
    FirstHalf(e, [x, y], x, y);
    SecondHalf(x, y, x);
    KeptOutcome(x, y);
  }

  lemma KeptOutcome(x: string, y: string)
    requires x != "" && y != "" && y != "+"
    ensures y[0] != '\\' ==>
              (AfterSecondHalf(x, y, x) == Patched(x + y) <==>
               ParseHeader(y).Some? && StartOf(ParseHeader(y).value) != 0)
    ensures y[0] !in {' ', '+', '@'} ==> AfterSecondHalf(x, y, x) == Patched(x)
    ensures y[0] != '@' ==> ParseHeader(y).None?
  {
    hide ParseHeader;
    hide StartOf;
    if y[0] != '@' {
      HeadersStart(y);
    }
    if |x + y[1..] + y| == |x + y| {
      assert y == [y[0]];
    }
    assert |x + (x + y)| != |x + y| && |x| != |x + y|;
  }

  lemma HeadersStart(y: string)
    requires y != "" && y[0] != '@'
    ensures ParseHeader(y).None?
  {
  }

  /**
   * Deleted lines show that being lines for Python is not necessary: a deleted line that Python breaks is deleted
   * correctly if and only if its second half is not taken for another kind of patch line.
   */
  lemma DeletedLineBreaks(a: string, c: char, b: string)
    requires NoBoundary(a) && NoBoundary(b) && BreaksBefore(c, b)
    ensures var line := (a + [c]) + (b + "\n");
            && OldFile(Script(Delete(line)), []) == [line] && NewFile(Script(Delete(line)), []) == []
            && !PythonLines([line])
            && (Scan(SplitLines(line), SplitLines(Concat(RenderHunks(Script(Delete(line)), 0, 0)))) == Patched("")
                <==> b == "" || b[0] !in {' ', '+', '\\', '@'})
  {
    hide *;
    var x, y := a + [c], b + "\n";
    var e := Delete(x + y);
    OneEdit(e);
    EndsLine(e, a, c, b);
    ScriptRendered(e);
    BrokenScript(e, a, c, b);
    ScriptScan(e, [x, y], [Mark(e) + x, y]);
    FirstHalf(e, [x, y], x, y);
    SecondHalf(x, y, "");
    DeletedOutcome(x, y);
    SplitExact([x + y]);
    ConcatOne(x + y);
  }

  lemma DeletedOutcome(x: string, y: string)
    requires x != "" && y != ""
    ensures AfterSecondHalf(x, y, "") == Patched("") <==> y[0] !in {' ', '+', '@'}
  {
    hide ParseHeader;
    hide StartOf;
  }

  // ---------- hunks that start before the file ----------

  const ZERO_HEADER := "@@ -0 +1 @@\n"

  lemma ZeroHeader()
    ensures ParseHeader(ZERO_HEADER).Some? && StartOf(ParseHeader(ZERO_HEADER).value) == -1
    ensures ZERO_HEADER != "" && ZERO_HEADER[0] == '@'
  {
    assert AllDigits("0") && AllDigits("1");
    assert ParseDecimal("0") == 0 by {
      DecimalRoundTrip(0);
    }
    hide ParseDecimal;
    hide ParseHeader;
    assert ZERO_HEADER == "@@ -" + (RangeText("0", false, "") + (" +" + (RangeText("1", false, "") + (" @@" + "\n"))));
    HeaderIsParsed(ZERO_HEADER, "0", false, "", "1", false, "", "\n");
  }

  /**
   * A hunk that keeps one line and claims to start at line 0 counts from the end of the file, as a negative index does
   * in Python: it fits exactly the last line, and then the whole file is doubled.
   */
  lemma ZeroStartWrapsAround(s: seq<string>, line: string)
    ensures var outcome := Scan(s, [ZERO_HEADER, " " + line]);
            if s == [] then outcome == PastTheEnd(-1)
            else if s[|s| - 1] == line then outcome == Patched(Concat(s) + Concat(s))
            else outcome == ContextDiffers(-1)
  {
    hide *;
    ZeroHeader();
    var h, body := ParseHeader(ZERO_HEADER).value, [" " + line];
    assert [ZERO_HEADER] + body == [ZERO_HEADER, " " + line];
    ScanWithoutFileHeader(s, [ZERO_HEADER] + body);
    HunksStep(s, ZERO_HEADER, body, 0, 0, "", h);
    KeptAtMinusOne(s, line, "" + Concat(Slice(s, 0, -1)));
    if s != [] && s[|s| - 1] == line {
      AllButLast(s);
    }
  }

  lemma KeptAtMinusOne(s: seq<string>, line: string, t: string)
    ensures var outcome := Body(s, [" " + line], 1, -1, t);
            if s == [] then outcome == PastTheEnd(-1)
            else if s[|s| - 1] == line then outcome == Patched(t + line + Concat(s))
            else outcome == ContextDiffers(-1)
  {
    hide ParseHeader;
    hide StartOf;
    hide Concat;
    var p := [" " + line];
    assert p[1..] == [] && (" " + line)[1..] == line && LineOf(p) == " " + line;
    assert Slice(s, 0, |s|) == s;
    assert Body(s, [], 2, 0, t + line) == Patched(t + line + Concat(s));
  }

  lemma AllButLast(s: seq<string>)
    requires s != []
    ensures "" + Concat(Slice(s, 0, -1)) + s[|s| - 1] + Concat(s) == Concat(s) + Concat(s)
  {
    var n := |s| - 1;
    assert Slice(s, 0, -1) == s[..n];
    ConcatAppend(s[..n], [s[n]]);
    ConcatOne(s[n]);
    assert s[..n] + [s[n]] == s;
    assert "" + Concat(s[..n]) == Concat(s[..n]);
  }
}
