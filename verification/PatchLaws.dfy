/** Patching the old file with the rendered script gives the new file, in one scan or hunk by hunk. */
module PatchLaws {
  import opened Wrappers
  import opened Lines
  import opened HunkHeaders
  import opened UnifiedDiff
  import opened EditScripts

  predicate PlainHeadings(hs: seq<Hunk>) {
    forall k | 0 <= k < |hs| :: '\n' !in hs[k].heading
  }

  /** What may follow the lines of a hunk: nothing, or another hunk header. */
  predicate AfterHunk(p: seq<string>) {
    p == [] || (p[0] != "" && p[0][0] == '@')
  }

  lemma EditIsOneLine(e: Edit, p: seq<string>)
    requires p == [] || (p[0] != "" && p[0][0] != '\\')
    ensures BodyLine(RenderEdit(e) + p) && LineOf(RenderEdit(e) + p) == Mark(e) + e.line
    ensures |RenderEdit(e)| == if Marked(RenderEdit(e) + p) then 2 else 1
    ensures (RenderEdit(e) + p)[|RenderEdit(e)|..] == p
  {
    if !EndsInNewline(e.line) {
      var line := Mark(e) + e.line + "\n";
      assert line[..|line| - 1] == Mark(e) + e.line;
    }
  }

  lemma RenderedEditsStart(es: seq<Edit>, p: seq<string>)
    requires AfterHunk(p)
    ensures var q := RenderEdits(es) + p; q == [] || (q[0] != "" && q[0][0] != '\\')
  {
    if es != [] {
      assert (RenderEdits(es) + p)[0] == RenderEdit(es[0])[0];
    }
  }

  function NextOld(e: Edit, sl: nat): nat {
    if e.Insert? then sl else sl + 1
  }

  function NextText(e: Edit, t: string): string {
    if e.Delete? then t else t + e.line
  }

  lemma BodyStep(s: seq<string>, e: Edit, p: seq<string>, i: nat, sl: nat, t: string)
    requires p == [] || (p[0] != "" && p[0][0] != '\\')
    requires e.Keep? ==> sl < |s| && s[sl] == e.line
    ensures Body(s, RenderEdit(e) + p, i, sl, t) == Body(s, p, i + |RenderEdit(e)|, NextOld(e, sl), NextText(e, t))
  {
    EditIsOneLine(e, p);
    MarkIs(e);
    hide RenderEdit;
    hide LineOf;
    hide Marked;
    hide BodyLine;
    hide Mark;
    hide Hunks;
    hide At;
    var q, line := RenderEdit(e) + p, Mark(e) + e.line;
    assert line[1..] == e.line && line != "";
    if e.Keep? {
      AtLine(s, sl);
    }
  }

  lemma MarkIs(e: Edit)
    ensures |Mark(e)| == 1 && Mark(e)[0] == if e.Keep? then ' ' else if e.Delete? then '-' else '+'
  {
  }

  lemma AtLine(s: seq<string>, k: nat)
    requires k < |s|
    ensures At(s, k) == Some(s[k])
  {
  }

  lemma AddedStep(es: seq<Edit>, t: string)
    requires es != []
    ensures t + Concat(Added(es)) == NextText(es[0], t) + Concat(Added(es[1..]))
  {
    AddedIs(es);
    hide *;
    var first := if es[0].Delete? then [] else [es[0].line];
    ConcatAppend(first, Added(es[1..]));
    NextTextIs(es[0], t);
    Regroup(t, Concat(first), Concat(Added(es[1..])));
  }

  lemma AddedIs(es: seq<Edit>)
    requires es != []
    ensures Added(es) == (if es[0].Delete? then [] else [es[0].line]) + Added(es[1..])
  {
  }

  lemma NextTextIs(e: Edit, t: string)
    ensures NextText(e, t) == t + Concat(if e.Delete? then [] else [e.line])
  {
    assert Concat([e.line]) == e.line;
    assert t + Concat([]) == t;
  }

  /** The scan meets every kept line where it expects it. Deleted lines are skipped, never compared. */
  predicate Matches(s: seq<string>, sl: nat, es: seq<Edit>)
    decreases es
  {
    es == [] || ((es[0].Keep? ==> sl < |s| && s[sl] == es[0].line) && Matches(s, NextOld(es[0], sl), es[1..]))
  }

  predicate HoldsAt(s: seq<string>, k: nat, lines: seq<string>) {
    k + |lines| <= |s| && forall j | 0 <= j < |lines| :: lines[j] == s[k + j]
  }

  lemma RemovedStep(es: seq<Edit>)
    requires es != []
    ensures Removed(es) == (if es[0].Insert? then [] else [es[0].line]) + Removed(es[1..])
  {
  }

  /** It is enough that the old lines are there, up to lines that are deleted and nowhere kept. */
  lemma {:induction false} HeldMatches(s: seq<string>, sl: nat, es: seq<Edit>)
    requires sl + |Removed(es)| <= |s|
    requires forall j | 0 <= j < |Removed(es)| :: Removed(es)[j] == s[sl + j] || Keep(Removed(es)[j]) !in es
    ensures Matches(s, sl, es)
    decreases es
  {
    hide *;
    if es == [] {
      NoEdits(s, sl);
    } else {
      RemovedStep(es);
      MatchesStep(s, sl, es);
      NextOldIs(es[0], sl);
      var sl', more := NextOld(es[0], sl), Removed(es[1..]);
      assert forall j | 0 <= j < |more| :: more[j] == Removed(es)[sl' - sl + j];
      assert forall e | e in es[1..] :: e in es;
      HeldMatches(s, sl', es[1..]);
      if es[0].Keep? {
        assert Removed(es)[0] == es[0].line && es[0] in es;
      }
    }
  }

  lemma NoEdits(s: seq<string>, sl: nat)
    ensures Matches(s, sl, [])
  {
  }

  lemma NextOldIs(e: Edit, sl: nat)
    ensures NextOld(e, sl) == sl + if e.Insert? then 0 else 1
  {
  }

  lemma MatchesStep(s: seq<string>, sl: nat, es: seq<Edit>)
    requires es != []
    ensures Matches(s, sl, es) <==>
            (es[0].Keep? ==> sl < |s| && s[sl] == es[0].line) && Matches(s, NextOld(es[0], sl), es[1..])
  {
  }

  lemma RenderEditsStep(es: seq<Edit>, p: seq<string>)
    requires es != []
    ensures RenderEdits(es) + p == RenderEdit(es[0]) + (RenderEdits(es[1..]) + p)
    ensures |RenderEdits(es)| == |RenderEdit(es[0])| + |RenderEdits(es[1..])|
  {
    hide *;
    RenderEditsIs(es);
    Regroup(RenderEdit(es[0]), RenderEdits(es[1..]), p);
  }

  lemma RenderEditsIs(es: seq<Edit>)
    requires es != []
    ensures RenderEdits(es) == RenderEdit(es[0]) + RenderEdits(es[1..])
  {
    hide RenderEdit;
  }

  /** The lines of a hunk take the scan over the removed lines and append the added ones; no context check fails. */
  lemma {:induction false} BodyRun(s: seq<string>, es: seq<Edit>, p: seq<string>, i: nat, sl: nat, t: string)
    requires AfterHunk(p) && Matches(s, sl, es)
    ensures Body(s, RenderEdits(es) + p, i, sl, t) ==
            Body(s, p, i + |RenderEdits(es)|, sl + |Removed(es)|, t + Concat(Added(es)))
  {
    hide *;
    if es == [] {
      NothingRendered(p, t);
    } else {
      var e, rest := es[0], RenderEdits(es[1..]) + p;
      RenderEditsStep(es, p);
      RenderedEditsStart(es[1..], p);
      RemovedStep(es);
      MatchesStep(s, sl, es);
      AddedStep(es, t);
      BodyStep(s, e, rest, i, sl, t);
      BodyRun(s, es[1..], p, i + |RenderEdit(e)|, NextOld(e, sl), NextText(e, t));
      CursorStep(es, sl);
    }
  }

  lemma NothingRendered(p: seq<string>, t: string)
    ensures RenderEdits([]) == [] && [] + p == p && Removed([]) == [] && t + Concat(Added([])) == t
  {
  }

  lemma CursorStep(es: seq<Edit>, sl: nat)
    requires es != []
    ensures sl + |Removed(es)| == NextOld(es[0], sl) + |Removed(es[1..])|
  {
  }

  lemma HunksStep(s: seq<string>, line: string, p: seq<string>, i: nat, sl: nat, t: string, h: Numbers)
    requires ParseHeader(line) == Some(h)
    ensures Hunks(s, [line] + p, i, sl, t) == Body(s, p, i + 1, StartOf(h), t + Concat(Slice(s, sl, StartOf(h))))
  {
    hide ParseHeader;
    hide Body;
    assert ([line] + p)[1..] == p;
  }

  lemma GapSlice(s: seq<string>, sl: nat, gap: seq<string>)
    requires HoldsAt(s, sl, gap)
    ensures Slice(s, sl, sl + |gap|) == gap
  {
  }

  /** The new text once a hunk and the gap before it are done. */
  function TextAfter(h: Hunk, t: string): string {
    t + Concat(h.gap + Added(h.edits))
  }

  /** One hunk: the gap is copied, then the edits are carried out. */
  lemma HunkRun(s: seq<string>, h: Hunk, p: seq<string>, i: nat, sl: nat, newStart: nat, t: string)
    requires AfterHunk(p) && '\n' !in h.heading
    requires HoldsAt(s, sl, h.gap) && Matches(s, sl + |h.gap|, h.edits)
    ensures Hunks(s, RenderHunk(h, sl + |h.gap|, newStart) + p, i, sl, t) ==
            Body(s, p, i + |RenderHunk(h, sl + |h.gap|, newStart)|, sl + |h.gap| + |Removed(h.edits)|,
                 TextAfter(h, t))
  {
    hide Hunks;
    hide Body;
    hide Header;
    hide ParseHeader;
    hide StartOf;
    hide Removed;
    hide Added;
    hide RenderEdits;
    hide Slice;
    hide HoldsAt;
    hide Matches;
    hide AfterHunk;
    hide Concat;
    var start := sl + |h.gap|;
    var line := Header(start, |Removed(h.edits)|, newStart, |Added(h.edits)|, h.heading);
    HeaderRoundTrip(start, |Removed(h.edits)|, newStart, |Added(h.edits)|, h.heading);
    assert RenderHunk(h, start, newStart) + p == [line] + (RenderEdits(h.edits) + p);
    HunksStep(s, line, RenderEdits(h.edits) + p, i, sl, t, ParseHeader(line).value);
    GapSlice(s, sl, h.gap);
    BodyRun(s, h.edits, p, i + 1, start, t + Concat(h.gap));
    ConcatAppend(h.gap, Added(h.edits));
    assert t + Concat(h.gap) + Concat(Added(h.edits)) == t + (Concat(h.gap) + Concat(Added(h.edits)));
  }

  lemma RenderedHunksStart(hs: seq<Hunk>, oldPos: nat, newPos: nat)
    ensures AfterHunk(RenderHunks(hs, oldPos, newPos))
  {
  }

  lemma BodyEnds(s: seq<string>, p: seq<string>, i: nat, sl: nat, t: string)
    requires AfterHunk(p)
    ensures Body(s, p, i, sl, t) == Hunks(s, p, i, sl, t)
  {
    hide ParseHeader;
  }

  lemma TailRun(pre: seq<string>, tail: seq<string>, i: nat, t: string)
    ensures Hunks(pre + tail, [], i, |pre|, t) == Patched(t + Concat(tail))
  {
    assert Slice(pre + tail, |pre|, |pre + tail|) == tail;
  }

  lemma FirstHunkHolds(pre: seq<string>, h: Hunk, rest: seq<string>)
    ensures HoldsAt(pre + (h.gap + Removed(h.edits) + rest), |pre|, h.gap)
    ensures Matches(pre + (h.gap + Removed(h.edits) + rest), |pre| + |h.gap|, h.edits)
    ensures pre + (h.gap + Removed(h.edits) + rest) == pre + h.gap + Removed(h.edits) + rest
  {
    hide *;
    Middle(pre, h.gap, Removed(h.edits), rest);
    HeldMatches(pre + (h.gap + Removed(h.edits) + rest), |pre| + |h.gap|, h.edits);
  }

  lemma Middle(a: seq<string>, b: seq<string>, c: seq<string>, d: seq<string>)
    ensures HoldsAt(a + (b + c + d), |a|, b)
    ensures |a| + |b| + |c| <= |a + (b + c + d)|
    ensures forall j | 0 <= j < |c| :: c[j] == (a + (b + c + d))[|a| + |b| + j]
    ensures a + (b + c + d) == a + b + c + d
  {
  }

  lemma TextAfterFirst(hs: seq<Hunk>, tail: seq<string>, t: string)
    requires hs != []
    ensures TextAfter(hs[0], t) + Concat(NewFile(hs[1..], tail)) == t + Concat(NewFile(hs, tail))
  {
    ConcatAppend(hs[0].gap + Added(hs[0].edits), NewFile(hs[1..], tail));
  }

  lemma NoHunks(tail: seq<string>)
    ensures OldFile([], tail) == tail && NewFile([], tail) == tail
    ensures forall oldPos: nat, newPos: nat :: RenderHunks([], oldPos, newPos) == []
  {
  }

  lemma {:induction false} HunksRun(pre: seq<string>, hs: seq<Hunk>, tail: seq<string>, i: nat, newPos: nat, t: string)
    requires PlainHeadings(hs)
    ensures Hunks(pre + OldFile(hs, tail), RenderHunks(hs, |pre|, newPos), i, |pre|, t) ==
            Patched(t + Concat(NewFile(hs, tail)))
    decreases hs
  {
    hide Hunks;
    hide Body;
    hide RenderHunk;
    hide HoldsAt;
    hide Matches;
    hide AfterHunk;
    hide TextAfter;
    hide OldFile;
    hide NewFile;
    hide RenderHunks;
    hide Removed;
    hide Added;
    hide Concat;
    if hs == [] {
      NoHunks(tail);
      TailRun(pre, tail, i, t);
    } else {
      var h, rest := hs[0], hs[1..];
      var start, newStart := |pre| + |h.gap|, newPos + |h.gap|;
      var end, newEnd := start + |Removed(h.edits)|, newStart + |Added(h.edits)|;
      var s, p, t' := pre + OldFile(hs, tail), RenderHunks(rest, end, newEnd), TextAfter(h, t);
      var i' := i + |RenderHunk(h, start, newStart)|;
      FirstHunkHolds(pre, h, OldFile(rest, tail));
      RenderedHunksStart(rest, end, newEnd);
      FileStep(hs, tail);
      RenderStep(hs, |pre|, newPos);
      HunkRun(s, h, p, i, |pre|, newStart, t);
      BodyEnds(s, p, i', end, t');
      HunksRun(pre + h.gap + Removed(h.edits), rest, tail, i', newEnd, t');
      TextAfterFirst(hs, tail, t);
    }
  }

  lemma HunkAlone(s: seq<string>, h: Hunk, newStart: nat)
    requires '\n' !in h.heading && HoldsAt(s, 0, h.gap) && Matches(s, |h.gap|, h.edits)
    ensures Scan(s, RenderHunk(h, |h.gap|, newStart)) ==
            Hunks(s, [], |RenderHunk(h, |h.gap|, newStart)|, |h.gap| + |Removed(h.edits)|, TextAfter(h, ""))
  {
    hide Scan;
    hide Hunks;
    hide Body;
    hide RenderHunk;
    hide HoldsAt;
    hide Matches;
    hide Removed;
    hide TextAfter;
    var start, p := 0 + |h.gap|, RenderHunk(h, |h.gap|, newStart);
    var end := start + |Removed(h.edits)|;
    assert start == |h.gap| && p + [] == p;
    ScanOfHunk(s, h, start, newStart);
    HunkRun(s, h, [], 0, 0, newStart, "");
    assert Scan(s, p) == Body(s, [], 0 + |p|, end, TextAfter(h, ""));
    BodyEnds(s, [], 0 + |p|, end, TextAfter(h, ""));
  }

  /**
   * A hunk on its own, whatever comes before and after it. The old lines need not be the ones the hunk names: there
   * must be as many, and the kept ones must match.
   */
  lemma SingleHunkRun(before: seq<string>, h: Hunk, olds: seq<string>, after: seq<string>, newStart: nat)
    requires '\n' !in h.heading
    requires |olds| == |Removed(h.edits)| && Matches(before + olds + after, |before|, h.edits)
    ensures Scan(before + olds + after, RenderHunk(h, |before|, newStart)) ==
            Patched(Concat(before + Added(h.edits) + after))
  {
    hide *;
    var s, whole := before + olds + after, h.(gap := before);
    var t, n := TextAfter(whole, ""), |RenderHunk(h, |before|, newStart)|;
    GapIsThere(s, before, olds, after);
    SameRendering(h, before, newStart);
    HunkAlone(s, whole, newStart);
    TailRun(before + olds, after, n, t);
    ConcatAppend(before + Added(h.edits), after);
    TextOfHunk(whole);
  }

  lemma TextOfHunk(h: Hunk)
    ensures TextAfter(h, "") == Concat(h.gap + Added(h.edits))
  {
    assert "" + Concat(h.gap + Added(h.edits)) == Concat(h.gap + Added(h.edits));
  }

  lemma ScanOfHunk(s: seq<string>, h: Hunk, oldStart: nat, newStart: nat)
    ensures Scan(s, RenderHunk(h, oldStart, newStart)) == Hunks(s, RenderHunk(h, oldStart, newStart), 0, 0, "")
  {
    HunkHasNoFileHeader(h, oldStart, newStart);
    hide RenderHunk;
    hide Hunks;
    var p := RenderHunk(h, oldStart, newStart);
    assert p[0..] == p;
  }

  lemma GapIsThere(s: seq<string>, before: seq<string>, olds: seq<string>, after: seq<string>)
    requires s == before + olds + after
    ensures HoldsAt(s, 0, before) && |before + olds| == |before| + |olds|
  {
  }

  lemma SameRendering(h: Hunk, gap: seq<string>, newStart: nat)
    ensures RenderHunk(h.(gap := gap), |gap|, newStart) == RenderHunk(h, |gap|, newStart)
  {
    hide RenderEdits;
    hide Header;
  }

  lemma HunkHasNoFileHeader(h: Hunk, oldStart: nat, newStart: nat)
    ensures FileHeaderLength(RenderHunk(h, oldStart, newStart)) == 0
  {
    assert RenderHunk(h, oldStart, newStart)[0][0] == '@';
  }

  // ---------- whole patches, on lines ----------

  predicate FileHeader(header: seq<string>) {
    forall k | 0 <= k < |header| :: "---" <= header[k] || "+++" <= header[k]
  }

  lemma {:induction false} FileHeaderIsSkipped(header: seq<string>, p: seq<string>)
    requires FileHeader(header) && AfterHunk(p)
    ensures FileHeaderLength(header + p) == |header|
  {
    if header == [] {
      assert header + p == p;
    } else {
      assert (header + p)[1..] == header[1..] + p;
      FileHeaderIsSkipped(header[1..], p);
    }
  }

  /** For every script, however it is cut into hunks, the scan ends with the new file and never reports an error. */
  lemma PatchCorrect(header: seq<string>, hs: seq<Hunk>, tail: seq<string>)
    requires FileHeader(header) && PlainHeadings(hs)
    ensures Scan(OldFile(hs, tail), header + RenderHunks(hs, 0, 0)) == Patched(Concat(NewFile(hs, tail)))
  {
    hide *;
    var s, p := OldFile(hs, tail), RenderHunks(hs, 0, 0);
    RenderedHunksStart(hs, 0, 0);
    FileHeaderIsSkipped(header, p);
    ScanBehindHeader(s, header, p);
    assert s == [] + s;
    HunksRun([], hs, tail, |header|, 0, "");
    assert "" + Concat(NewFile(hs, tail)) == Concat(NewFile(hs, tail));
  }

  lemma ScanBehindHeader(s: seq<string>, header: seq<string>, p: seq<string>)
    requires FileHeaderLength(header + p) == |header|
    ensures Scan(s, header + p) == Hunks(s, p, |header|, 0, "")
  {
    hide Hunks;
    assert (header + p)[|header|..] == p;
  }
}
