/** A rendered script against any old file: exactly when it is applied, and where it is refused otherwise. */
module PatchRefusals {
  import opened Wrappers
  import opened Lines
  import opened HunkHeaders
  import opened UnifiedDiff
  import opened EditScripts
  import opened PatchLaws
  import opened PatchTexts

  // ---------- kept lines in place ----------

  /** The old line, 0-based, that an edit is about when its hunk starts at the given line. */
  function LineOfEdit(start: nat, es: seq<Edit>, n: nat): nat
    requires n <= |es|
  {
    start + |Removed(es[..n])|
  }

  predicate KeptInPlace(s: seq<string>, start: nat, es: seq<Edit>) {
    forall n | 0 <= n < |es| && es[n].Keep? ::
      LineOfEdit(start, es, n) < |s| && s[LineOfEdit(start, es, n)] == es[n].line
  }

  lemma LineOfEditStep(start: nat, es: seq<Edit>, n: nat)
    requires 0 < n <= |es|
    ensures LineOfEdit(start, es, n) == LineOfEdit(NextOld(es[0], start), es[1..], n - 1)
  {
    assert es[..n][1..] == es[1..][..n - 1];
    RemovedStep(es[..n]);
    hide Removed;
  }

  lemma LineOfFirst(start: nat, es: seq<Edit>)
    ensures LineOfEdit(start, es, 0) == start
  {
  }

  /** The recursive form that the scan follows. */
  lemma {:induction false} MatchesInPlace(s: seq<string>, start: nat, es: seq<Edit>)
    ensures Matches(s, start, es) <==> KeptInPlace(s, start, es)
    decreases es
  {
    hide *;
    if es == [] {
      NoEdits(s, start);
      NothingKept(s, start);
    } else {
      MatchesStep(s, start, es);
      MatchesInPlace(s, NextOld(es[0], start), es[1..]);
      KeptInPlaceStep(s, start, es);
    }
  }

  lemma NothingKept(s: seq<string>, start: nat)
    ensures KeptInPlace(s, start, [])
  {
  }

  lemma KeptInPlaceStep(s: seq<string>, start: nat, es: seq<Edit>)
    requires es != []
    ensures KeptInPlace(s, start, es) <==>
            (es[0].Keep? ==> start < |s| && s[start] == es[0].line) && KeptInPlace(s, NextOld(es[0], start), es[1..])
  {
    hide LineOfEdit;
    hide NextOld;
    var start', more := NextOld(es[0], start), es[1..];
    LineOfFirst(start, es);
    forall n | 0 < n <= |es|
      ensures LineOfEdit(start, es, n) == LineOfEdit(start', more, n - 1)
    {
      LineOfEditStep(start, es, n);
    }
    if KeptInPlace(s, start, es) {
      forall n | 0 <= n < |more| && more[n].Keep?
        ensures LineOfEdit(start', more, n) < |s| && s[LineOfEdit(start', more, n)] == more[n].line
      {
        assert es[n + 1] == more[n];
        assert LineOfEdit(start, es, n + 1) == LineOfEdit(start', more, n);
      }
    }
    if (es[0].Keep? ==> start < |s| && s[start] == es[0].line) && KeptInPlace(s, start', more) {
      forall n | 0 <= n < |es| && es[n].Keep?
        ensures LineOfEdit(start, es, n) < |s| && s[LineOfEdit(start, es, n)] == es[n].line
      {
        if n > 0 {
          assert more[n - 1] == es[n];
        }
      }
    }
  }

  // ---------- a hunk that does not fit ----------

  /** What the scan reports about an old line it misses or finds different. */
  predicate RefusedAt(s: seq<string>, k: nat, line: string, outcome: Outcome) {
    if k >= |s| then outcome == PastTheEnd(k) else s[k] != line && outcome == ContextDiffers(k)
  }

  lemma BodyMiss(s: seq<string>, e: Edit, p: seq<string>, i: nat, sl: nat, t: string)
    requires p == [] || (p[0] != "" && p[0][0] != '\\')
    requires e.Keep? && !(sl < |s| && s[sl] == e.line)
    ensures RefusedAt(s, sl, e.line, Body(s, RenderEdit(e) + p, i, sl, t))
  {
    EditIsOneLine(e, p);
    MarkIs(e);
    hide RenderEdit;
    hide LineOf;
    hide Marked;
    hide BodyLine;
    hide Mark;
    hide Hunks;
    var line := Mark(e) + e.line;
    assert line[1..] == e.line && line != "";
  }

  /** A hunk whose kept lines are not in place is refused at the first of them that is missing or different. */
  lemma {:induction false} BodyRefused(s: seq<string>, es: seq<Edit>, p: seq<string>, i: nat, sl: nat, t: string)
      returns (n: nat)
    requires AfterHunk(p) && !KeptInPlace(s, sl, es)
    ensures n < |es| && es[n].Keep? && KeptInPlace(s, sl, es[..n])
    ensures RefusedAt(s, LineOfEdit(sl, es, n), es[n].line, Body(s, RenderEdits(es) + p, i, sl, t))
    decreases es
  {
    hide *;
    if es == [] {
      NothingKept(s, sl);
    }
    var e, rest := es[0], RenderEdits(es[1..]) + p;
    RenderEditsStep(es, p);
    RenderedEditsStart(es[1..], p);
    KeptInPlaceStep(s, sl, es);
    if e.Keep? && !(sl < |s| && s[sl] == e.line) {
      n := 0;
      LineOfFirst(sl, es);
      NothingKept(s, sl);
      BodyMiss(s, e, rest, i, sl, t);
    } else {
      BodyStep(s, e, rest, i, sl, t);
      var n' := BodyRefused(s, es[1..], p, i + |RenderEdit(e)|, NextOld(e, sl), NextText(e, t));
      n := n' + 1;
      LineOfEditStep(sl, es, n);
      assert es[..n][1..] == es[1..][..n'] && es[..n][0] == e;
      KeptInPlaceStep(s, sl, es[..n]);
    }
  }

  // ---------- whole scripts ----------

  /** Where a hunk starts in the old file, counted from where the first gap starts. */
  function StartOfHunk(hs: seq<Hunk>, pos: nat, j: nat): nat
    requires j < |hs|
    decreases hs
  {
    if j == 0 then pos + |hs[0].gap|
    else StartOfHunk(hs[1..], pos + |hs[0].gap| + |Removed(hs[0].edits)|, j - 1)
  }

  /** Every line that some hunk keeps is in the old file where the hunk expects it. */
  predicate Fits(s: seq<string>, hs: seq<Hunk>, pos: nat) {
    forall j | 0 <= j < |hs| :: KeptInPlace(s, StartOfHunk(hs, pos, j), hs[j].edits)
  }

  /** The lines of a file between two positions, as far as there are any. */
  function Between(s: seq<string>, from: nat, to: nat): seq<string>
    requires from <= to
  {
    if to <= |s| then s[from..to] else if from <= |s| then s[from..] else []
  }

  /** The new file: gaps and tail are the old file's own lines, whatever the script takes them for. */
  function Applied(s: seq<string>, hs: seq<Hunk>, pos: nat): seq<string>
    decreases hs
  {
    if hs == [] then Between(s, pos, if pos <= |s| then |s| else pos)
    else
      var start := pos + |hs[0].gap|;
      Between(s, pos, start) + Added(hs[0].edits) + Applied(s, hs[1..], start + |Removed(hs[0].edits)|)
  }

  lemma HunkStarts(s: seq<string>, h: Hunk, p: seq<string>, i: nat, sl: nat, start: nat, newStart: nat, t: string)
    requires '\n' !in h.heading && sl <= start
    ensures Hunks(s, RenderHunk(h, start, newStart) + p, i, sl, t) ==
            Body(s, RenderEdits(h.edits) + p, i + 1, start, t + Concat(Between(s, sl, start)))
  {
    hide *;
    var line := Header(start, |Removed(h.edits)|, newStart, |Added(h.edits)|, h.heading);
    HeaderRoundTrip(start, |Removed(h.edits)|, newStart, |Added(h.edits)|, h.heading);
    RenderHunkIs(h, start, newStart);
    Regroup([line], RenderEdits(h.edits), p);
    HunksStep(s, line, RenderEdits(h.edits) + p, i, sl, t, ParseHeader(line).value);
    SliceBetween(s, sl, start);
  }

  lemma RenderHunkIs(h: Hunk, start: nat, newStart: nat)
    ensures RenderHunk(h, start, newStart) ==
            [Header(start, |Removed(h.edits)|, newStart, |Added(h.edits)|, h.heading)] + RenderEdits(h.edits)
  {
  }

  lemma SliceBetween(s: seq<string>, from: nat, to: nat)
    requires from <= to
    ensures Slice(s, from, to) == Between(s, from, to)
  {
  }

  lemma AppliedStep(s: seq<string>, hs: seq<Hunk>, pos: nat)
    requires hs != []
    ensures var start := pos + |hs[0].gap|;
            Applied(s, hs, pos) ==
            Between(s, pos, start) + Added(hs[0].edits) + Applied(s, hs[1..], start + |Removed(hs[0].edits)|)
  {
    hide Added;
    hide Between;
  }

  lemma FitsStep(s: seq<string>, hs: seq<Hunk>, pos: nat)
    requires hs != []
    ensures var start := pos + |hs[0].gap|;
            Fits(s, hs, pos) <==>
            KeptInPlace(s, start, hs[0].edits) && Fits(s, hs[1..], start + |Removed(hs[0].edits)|)
    ensures StartOfHunk(hs, pos, 0) == pos + |hs[0].gap|
    ensures forall j | 0 < j < |hs| ::
              StartOfHunk(hs, pos, j) == StartOfHunk(hs[1..], pos + |hs[0].gap| + |Removed(hs[0].edits)|, j - 1)
  {
    hide KeptInPlace;
    hide Removed;
    var start, more := pos + |hs[0].gap|, hs[1..];
    var pos' := start + |Removed(hs[0].edits)|;
    if Fits(s, hs, pos) {
      forall j | 0 <= j < |more|
        ensures KeptInPlace(s, StartOfHunk(more, pos', j), more[j].edits)
      {
        assert KeptInPlace(s, StartOfHunk(hs, pos, j + 1), hs[j + 1].edits);
      }
      assert KeptInPlace(s, StartOfHunk(hs, pos, 0), hs[0].edits);
    }
    if KeptInPlace(s, start, hs[0].edits) && Fits(s, more, pos') {
      forall j | 0 <= j < |hs|
        ensures KeptInPlace(s, StartOfHunk(hs, pos, j), hs[j].edits)
      {
        if j > 0 {
          assert KeptInPlace(s, StartOfHunk(more, pos', j - 1), more[j - 1].edits);
        }
      }
    }
  }

  lemma FirstHeading(hs: seq<Hunk>)
    requires hs != [] && PlainHeadings(hs)
    ensures '\n' !in hs[0].heading && PlainHeadings(hs[1..])
  {
  }

  lemma ScriptEnds(s: seq<string>, pos: nat, newPos: nat, i: nat, t: string)
    ensures Hunks(s, RenderHunks([], pos, newPos), i, pos, t) == Patched(t + Concat(Applied(s, [], pos)))
    ensures Fits(s, [], pos)
  {
    SliceBetween(s, pos, if pos <= |s| then |s| else pos);
    assert pos > |s| ==> Slice(s, pos, |s|) == [];
  }

  lemma TextSoFar(t: string, a: seq<string>, b: seq<string>, c: seq<string>)
    ensures t + Concat(a) + Concat(b) + Concat(c) == t + Concat(a + b + c)
  {
    ConcatAppend(a + b, c);
    ConcatAppend(a, b);
    hide *;
    Regroup(t, Concat(a), Concat(b));
    Regroup(t, Concat(a) + Concat(b), Concat(c));
  }

  lemma {:induction false} ScriptRun(s: seq<string>, hs: seq<Hunk>, pos: nat, newPos: nat, i: nat, t: string)
    requires PlainHeadings(hs) && Fits(s, hs, pos)
    ensures Hunks(s, RenderHunks(hs, pos, newPos), i, pos, t) == Patched(t + Concat(Applied(s, hs, pos)))
    decreases hs
  {
    hide *;
    if hs == [] {
      ScriptEnds(s, pos, newPos, i, t);
    } else {
      var h, more := hs[0], hs[1..];
      var start, newStart := pos + |h.gap|, newPos + |h.gap|;
      var end, newEnd := start + |Removed(h.edits)|, newStart + |Added(h.edits)|;
      var p, t' := RenderHunks(more, end, newEnd), t + Concat(Between(s, pos, start));
      var i', t'' := i + 1 + |RenderEdits(h.edits)|, t' + Concat(Added(h.edits));
      RenderStep(hs, pos, newPos);
      FirstHeading(hs);
      FitsStep(s, hs, pos);
      RenderedHunksStart(more, end, newEnd);
      HunkStarts(s, h, p, i, pos, start, newStart, t);
      MatchesInPlace(s, start, h.edits);
      BodyRun(s, h.edits, p, i + 1, start, t');
      BodyEnds(s, p, i', end, t'');
      ScriptRun(s, more, end, newEnd, i', t'');
      TextSoFar(t, Between(s, pos, start), Added(h.edits), Applied(s, more, end));
      AppliedStep(s, hs, pos);
    }
  }

  lemma SomeHunk(s: seq<string>, hs: seq<Hunk>, pos: nat)
    requires !Fits(s, hs, pos)
    ensures hs != []
  {
  }

  lemma {:induction false} ScriptStops(s: seq<string>, hs: seq<Hunk>, pos: nat, newPos: nat, i: nat, t: string)
      returns (j: nat, n: nat)
    requires PlainHeadings(hs) && !Fits(s, hs, pos)
    ensures j < |hs| && n < |hs[j].edits| && hs[j].edits[n].Keep?
    ensures forall k | 0 <= k < j :: KeptInPlace(s, StartOfHunk(hs, pos, k), hs[k].edits)
    ensures KeptInPlace(s, StartOfHunk(hs, pos, j), hs[j].edits[..n])
    ensures RefusedAt(s, LineOfEdit(StartOfHunk(hs, pos, j), hs[j].edits, n), hs[j].edits[n].line,
                      Hunks(s, RenderHunks(hs, pos, newPos), i, pos, t))
    decreases hs
  {
    hide *;
    SomeHunk(s, hs, pos);
    var h, more := hs[0], hs[1..];
    var start, newStart := pos + |h.gap|, newPos + |h.gap|;
    var end, newEnd := start + |Removed(h.edits)|, newStart + |Added(h.edits)|;
    var p, t' := RenderHunks(more, end, newEnd), t + Concat(Between(s, pos, start));
    RenderStep(hs, pos, newPos);
    FirstHeading(hs);
    FitsStep(s, hs, pos);
    RenderedHunksStart(more, end, newEnd);
    HunkStarts(s, h, p, i, pos, start, newStart, t);
    if KeptInPlace(s, start, h.edits) {
      var i', t'' := i + 1 + |RenderEdits(h.edits)|, t' + Concat(Added(h.edits));
      MatchesInPlace(s, start, h.edits);
      BodyRun(s, h.edits, p, i + 1, start, t');
      BodyEnds(s, p, i', end, t'');
      var j';
      j', n := ScriptStops(s, more, end, newEnd, i', t'');
      j := j' + 1;
      forall k | 0 <= k < j
        ensures KeptInPlace(s, StartOfHunk(hs, pos, k), hs[k].edits)
      {
        if k > 0 {
          assert hs[k] == more[k - 1];
        }
      }
    } else {
      j := 0;
      n := BodyRefused(s, h.edits, p, i + 1, start, t');
    }
  }

  /**
   * For every old file: a script is applied if and only if all the lines it keeps are in place. What its hunks delete
   * and what lies between them is never compared.
   */
  lemma AppliedExactly(s: seq<string>, header: seq<string>, hs: seq<Hunk>)
    requires FileHeader(header) && PlainHeadings(hs)
    ensures Scan(s, header + RenderHunks(hs, 0, 0)).Patched? <==> Fits(s, hs, 0)
    ensures Fits(s, hs, 0) ==> Scan(s, header + RenderHunks(hs, 0, 0)) == Patched(Concat(Applied(s, hs, 0)))
  {
    hide *;
    var p := RenderHunks(hs, 0, 0);
    RenderedHunksStart(hs, 0, 0);
    FileHeaderIsSkipped(header, p);
    ScanBehindHeader(s, header, p);
    if Fits(s, hs, 0) {
      ScriptRun(s, hs, 0, 0, |header|, "");
      assert "" + Concat(Applied(s, hs, 0)) == Concat(Applied(s, hs, 0));
    } else {
      var j, n := ScriptStops(s, hs, 0, 0, |header|, "");
      RefusedIsNotPatched(s, LineOfEdit(StartOfHunk(hs, 0, j), hs[j].edits, n), hs[j].edits[n].line, Scan(s, header + p));
    }
  }

  lemma RefusedIsNotPatched(s: seq<string>, k: nat, line: string, outcome: Outcome)
    requires RefusedAt(s, k, line, outcome)
    ensures !outcome.Patched?
  {
  }

  /** Otherwise the error names the first kept line, in the order of the script, that is missing or different. */
  lemma RefusedAtFirst(s: seq<string>, header: seq<string>, hs: seq<Hunk>) returns (j: nat, n: nat)
    requires FileHeader(header) && PlainHeadings(hs) && !Fits(s, hs, 0)
    ensures j < |hs| && n < |hs[j].edits| && hs[j].edits[n].Keep?
    ensures forall k | 0 <= k < j :: KeptInPlace(s, StartOfHunk(hs, 0, k), hs[k].edits)
    ensures KeptInPlace(s, StartOfHunk(hs, 0, j), hs[j].edits[..n])
    ensures var k, outcome := LineOfEdit(StartOfHunk(hs, 0, j), hs[j].edits, n), Scan(s, header + RenderHunks(hs, 0, 0));
            if k >= |s| then outcome == PastTheEnd(k) else s[k] != hs[j].edits[n].line && outcome == ContextDiffers(k)
  {
    RenderedHunksStart(hs, 0, 0);
    FileHeaderIsSkipped(header, RenderHunks(hs, 0, 0));
    ScanBehindHeader(s, header, RenderHunks(hs, 0, 0));
    hide Scan;
    hide Hunks;
    hide RenderHunks;
    hide Fits;
    hide KeptInPlace;
    hide StartOfHunk;
    hide LineOfEdit;
    j, n := ScriptStops(s, hs, 0, 0, |header|, "");
  }

  /** The same on texts: the old text may be any, only the patch must be one that Python splits as it was written. */
  lemma PatchedTextExactly(text: string, header: seq<string>, hs: seq<Hunk>)
    requires FileHeader(header) && EndedLines(header) && CleanScript(hs)
    ensures var outcome := Scan(SplitLines(text), SplitLines(Concat(header + RenderHunks(hs, 0, 0))));
            && (outcome.Patched? <==> Fits(SplitLines(text), hs, 0))
            && (outcome.Patched? ==> outcome.text == Concat(Applied(SplitLines(text), hs, 0)))
  {
    hide *;
    CleanHeadings(hs);
    RenderedHunksAreEnded(hs, 0, 0);
    EndedAppend(header, RenderHunks(hs, 0, 0));
    EndedIsText(header + RenderHunks(hs, 0, 0), "");
    SplitConcat(header + RenderHunks(hs, 0, 0), "");
    AppliedExactly(SplitLines(text), header, hs);
  }

  /** A first line behind the file header that is no hunk header is reported by its number. */
  lemma NoHeaderIsRefused(s: seq<string>, header: seq<string>, line: string, p: seq<string>)
    requires FileHeader(header) && !("---" <= line) && !("+++" <= line) && ParseHeader(line).None?
    ensures Scan(s, header + ([line] + p)) == NotAHunk(|header|)
  {
    hide *;
    HeaderEnds(header, line, p);
    ScanBehindHeader(s, header, [line] + p);
    NotAHeader(s, line, p, |header|);
  }

  lemma {:induction false} HeaderEnds(header: seq<string>, line: string, p: seq<string>)
    requires FileHeader(header) && !("---" <= line) && !("+++" <= line)
    ensures FileHeaderLength(header + ([line] + p)) == |header|
  {
    if header == [] {
      assert header + ([line] + p) == [line] + p;
    } else {
      assert (header + ([line] + p))[1..] == header[1..] + ([line] + p);
      HeaderEnds(header[1..], line, p);
    }
  }

  lemma NotAHeader(s: seq<string>, line: string, p: seq<string>, i: nat)
    requires ParseHeader(line).None?
    ensures Hunks(s, [line] + p, i, 0, "") == NotAHunk(i)
  {
    hide ParseHeader;
    hide Body;
  }
}
