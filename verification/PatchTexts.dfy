/** The patch laws on texts, as read from and written to files. */
module PatchTexts {
  import opened Lines
  import opened HunkHeaders
  import opened UnifiedDiff
  import opened EditScripts
  import opened PatchLaws

  // ---------- rendered patches are texts ----------

  predicate NoBoundary(s: string) {
    forall k | 0 <= k < |s| :: !IsBoundary(s[k])
  }

  predicate EndedLines(lines: seq<string>) {
    forall i | 0 <= i < |lines| :: CleanLine(lines[i]) && EndsInNewline(lines[i])
  }

  predicate CleanEdits(es: seq<Edit>) {
    forall i | 0 <= i < |es| :: CleanLine(es[i].line)
  }

  /** Lines are lines for Python too: none of its other line boundaries occurs in a line or a heading. */
  predicate CleanScript(hs: seq<Hunk>) {
    forall k | 0 <= k < |hs| :: CleanEdits(hs[k].edits) && NoBoundary(hs[k].heading)
  }

  lemma LineWithNewline(s: string)
    requires NoBoundary(s)
    ensures CleanLine(s + "\n") && EndsInNewline(s + "\n")
  {
  }

  lemma MarkedLine(mark: char, line: string)
    requires CleanLine(line) && !IsBoundary(mark)
    ensures EndsInNewline(line) ==> CleanLine([mark] + line) && EndsInNewline([mark] + line)
    ensures !EndsInNewline(line) ==> CleanLine([mark] + line + "\n")
  {
    if EndsInNewline(line) {
      forall k | 0 <= k < |line| + 1 && IsBoundary(([mark] + line)[k])
        ensures k == |line| && ([mark] + line)[k] == '\n'
      {
        assert ([mark] + line)[k] == line[k - 1];
      }
    } else {
      assert NoBoundary(line);
      assert NoBoundary([mark] + line);
      LineWithNewline([mark] + line);
    }
  }

  lemma RenderedEditIsEnded(e: Edit)
    requires CleanLine(e.line)
    ensures EndedLines(RenderEdit(e))
  {
    MarkedLine(Mark(e)[0], e.line);
    assert Mark(e) == [Mark(e)[0]];
    assert NoBoundary(NO_NEWLINE[..|NO_NEWLINE| - 1]);
    LineWithNewline(NO_NEWLINE[..|NO_NEWLINE| - 1]);
    assert NO_NEWLINE == NO_NEWLINE[..|NO_NEWLINE| - 1] + "\n";
  }

  lemma {:induction false} RenderedEditsAreEnded(es: seq<Edit>)
    requires CleanEdits(es)
    ensures EndedLines(RenderEdits(es))
  {
    hide CleanLine;
    if es != [] {
      RenderedEditIsEnded(es[0]);
      RenderedEditsAreEnded(es[1..]);
    }
  }

  lemma DigitsHaveNoBoundary(s: string)
    requires AllDigits(s)
    ensures NoBoundary(s)
  {
  }

  lemma HeaderIsEnded(oldStart: nat, oldCount: nat, newStart: nat, newCount: nat, heading: string)
    requires NoBoundary(heading)
    ensures CleanLine(Header(oldStart, oldCount, newStart, newCount, heading))
    ensures EndsInNewline(Header(oldStart, oldCount, newStart, newCount, heading))
  {
    RangeHasNoBoundary(oldStart, oldCount);
    RangeHasNoBoundary(newStart, newCount);
    hide Range;
    var old_, new_ := "@@ -" + Range(oldStart, oldCount), " +" + Range(newStart, newCount);
    var front := old_ + new_ + " @@" + heading;
    assert NoBoundary(old_) && NoBoundary(new_);
    assert Header(oldStart, oldCount, newStart, newCount, heading) == front + "\n";
    LineWithNewline(front);
  }

  lemma RangeHasNoBoundary(start: nat, count: nat)
    ensures NoBoundary(Range(start, count))
  {
    DigitsHaveNoBoundary(Decimal(start));
    DigitsHaveNoBoundary(Decimal(start + 1));
    DigitsHaveNoBoundary(Decimal(count));
  }

  lemma RenderedHunkIsEnded(h: Hunk, oldStart: nat, newStart: nat)
    requires CleanEdits(h.edits) && NoBoundary(h.heading)
    ensures EndedLines(RenderHunk(h, oldStart, newStart))
  {
    hide CleanLine;
    hide Header;
    HeaderIsEnded(oldStart, |Removed(h.edits)|, newStart, |Added(h.edits)|, h.heading);
    RenderedEditsAreEnded(h.edits);
  }

  lemma {:induction false} RenderedHunksAreEnded(hs: seq<Hunk>, oldPos: nat, newPos: nat)
    requires CleanScript(hs)
    ensures EndedLines(RenderHunks(hs, oldPos, newPos))
    decreases hs
  {
    hide CleanLine;
    hide RenderHunk;
    if hs != [] {
      var oldStart, newStart := oldPos + |hs[0].gap|, newPos + |hs[0].gap|;
      RenderedHunkIsEnded(hs[0], oldStart, newStart);
      RenderedHunksAreEnded(hs[1..], oldStart + |Removed(hs[0].edits)|, newStart + |Added(hs[0].edits)|);
    }
  }

  lemma CleanHeadings(hs: seq<Hunk>)
    requires CleanScript(hs)
    ensures PlainHeadings(hs)
  {
  }

  // ---------- one scan ----------

  lemma {:induction false} TailBehind(hs: seq<Hunk>, tail: seq<string>)
    ensures OldFile(hs, tail) == OldFile(hs, []) + tail
    ensures NewFile(hs, tail) == NewFile(hs, []) + tail
  {
    if hs != [] {
      FileStep(hs, tail);
      FileStep(hs, []);
      hide *;
      TailBehind(hs[1..], tail);
      Regroup(hs[0].gap + Removed(hs[0].edits), OldFile(hs[1..], []), tail);
      Regroup(hs[0].gap + Added(hs[0].edits), NewFile(hs[1..], []), tail);
    }
  }

  /**
   * Whenever Python sees the lines that diff wrote, up to the end of the last hunk and in the patch, patching the text
   * is correct, whatever text follows the last hunk.
   */
  lemma PatchSeenCorrectly(header: seq<string>, hs: seq<Hunk>, rest: string)
    requires FileHeader(header) && PlainHeadings(hs)
    requires PythonLinesBefore(OldFile(hs, []), rest) && PythonLines(header + RenderHunks(hs, 0, 0))
    ensures Scan(SplitLines(Concat(OldFile(hs, [])) + rest), SplitLines(Concat(header + RenderHunks(hs, 0, 0))))
         == Patched(Concat(NewFile(hs, [])) + rest)
  {
    assert PythonLinesBefore(header + RenderHunks(hs, 0, 0), "");
    hide *;
    var tail := SplitLines(rest);
    PythonLinesAreNotEmpty(OldFile(hs, []), rest);
    SplitFront(OldFile(hs, []), rest);
    PythonLinesAreNotEmpty(header + RenderHunks(hs, 0, 0), "");
    SplitExact(header + RenderHunks(hs, 0, 0));
    TailBehind(hs, tail);
    PatchCorrect(header, hs, tail);
    ConcatAppend(NewFile(hs, []), tail);
  }

  lemma PythonLinesAreNotEmpty(lines: seq<string>, rest: string)
    requires PythonLinesBefore(lines, rest)
    ensures forall i | 0 <= i < |lines| :: lines[i] != ""
  {
  }

  /** Patching the text of the old file with the text of the patch gives the text of the new file. */
  lemma PatchTextCorrect(header: seq<string>, hs: seq<Hunk>, rest: string)
    requires FileHeader(header) && EndedLines(header) && CleanScript(hs)
    requires LinesBefore(OldFile(hs, []), rest)
    ensures Scan(SplitLines(Concat(OldFile(hs, [])) + rest), SplitLines(Concat(header + RenderHunks(hs, 0, 0))))
         == Patched(Concat(NewFile(hs, [])) + rest)
  {
    CleanHeadings(hs);
    RenderedHunksAreEnded(hs, 0, 0);
    hide OldFile;
    hide NewFile;
    hide RenderHunks;
    hide Scan;
    hide CleanLine;
    EndedIsText(header + RenderHunks(hs, 0, 0), "");
    TextIsPythonLines(OldFile(hs, []), rest);
    TextIsPythonLines(header + RenderHunks(hs, 0, 0), "");
    PatchSeenCorrectly(header, hs, rest);
  }

  lemma EndedAppend(a: seq<string>, b: seq<string>)
    ensures EndedLines(a) && EndedLines(b) ==> EndedLines(a + b)
  {
  }

  lemma EndedIsText(lines: seq<string>, rest: string)
    requires EndedLines(lines)
    ensures LinesBefore(lines, rest)
  {
  }

  // ---------- one hunk as a patch of its own ----------

  /** The old lines in the text may differ from those the hunk names, as long as the kept ones match. */
  lemma SingleHunk(before: seq<string>, h: Hunk, olds: seq<string>, rest: string, newStart: nat)
    requires CleanEdits(h.edits) && NoBoundary(h.heading)
    requires LinesBefore(before + olds, rest)
    requires |olds| == |Removed(h.edits)| && Matches(before + olds + SplitLines(rest), |before|, h.edits)
    ensures Scan(SplitLines(Concat(before + olds) + rest), SplitLines(Concat(RenderHunk(h, |before|, newStart))))
         == Patched(Concat(before + Added(h.edits)) + rest)
  {
    hide *;
    var after := SplitLines(rest);
    SplitConcat(before + olds, rest);
    RenderedHunkIsEnded(h, |before|, newStart);
    EndedIsText(RenderHunk(h, |before|, newStart), "");
    SplitConcat(RenderHunk(h, |before|, newStart), "");
    NoNewlineInHeading(h.heading);
    SingleHunkRun(before, h, olds, after, newStart);
    ConcatAppend(before + Added(h.edits), after);
  }

  lemma NoNewlineInHeading(heading: string)
    requires NoBoundary(heading)
    ensures '\n' !in heading
  {
  }

  /** The same with the old lines that the hunk names. */
  lemma ExpectedHunk(before: seq<string>, h: Hunk, rest: string, newStart: nat)
    requires CleanEdits(h.edits) && NoBoundary(h.heading)
    requires LinesBefore(before + Removed(h.edits), rest)
    ensures Scan(SplitLines(Concat(before + Removed(h.edits)) + rest),
                 SplitLines(Concat(RenderHunk(h, |before|, newStart))))
         == Patched(Concat(before + Added(h.edits)) + rest)
  {
    hide *;
    var s := before + Removed(h.edits) + SplitLines(rest);
    assert s[|before|..|before| + |Removed(h.edits)|] == Removed(h.edits);
    HeldMatches(s, |before|, h.edits);
    SingleHunk(before, h, Removed(h.edits), rest, newStart);
  }
}
