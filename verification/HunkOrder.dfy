/** One scan of a whole patch against its hunks applied one at a time: exactly when the two agree. */
module HunkOrder {
  import opened Lines
  import opened UnifiedDiff
  import opened EditScripts
  import opened PatchLaws
  import opened PatchTexts

  /** Each hunk, from the last to the first, is applied as a patch of its own to what the one before it left. */
  function HunkByHunk(text: string, hs: seq<Hunk>, oldPos: nat, newPos: nat): Outcome {
    if hs == [] then Patched(text)
    else
      var oldStart, newStart := oldPos + |hs[0].gap|, newPos + |hs[0].gap|;
      match HunkByHunk(text, hs[1..], oldStart + |Removed(hs[0].edits)|, newStart + |Added(hs[0].edits)|)
      case Patched(later) => Scan(SplitLines(later), SplitLines(Concat(RenderHunk(hs[0], oldStart, newStart))))
      case failure => failure
  }

  lemma HunkByHunkStep(text: string, hs: seq<Hunk>, oldPos: nat, newPos: nat, later: string)
    requires hs != []
    requires HunkByHunk(text, hs[1..], oldPos + |hs[0].gap| + |Removed(hs[0].edits)|,
                        newPos + |hs[0].gap| + |Added(hs[0].edits)|) == Patched(later)
    ensures HunkByHunk(text, hs, oldPos, newPos) ==
            Scan(SplitLines(later), SplitLines(Concat(RenderHunk(hs[0], oldPos + |hs[0].gap|, newPos + |hs[0].gap|))))
  {
    hide Scan;
    hide SplitLines;
    hide Concat;
    hide RenderHunk;
    hide Removed;
    hide Added;
  }

  /** No hunk behind the first only inserts lines at the end of the old file. */
  predicate NoLateAppend(hs: seq<Hunk>) {
    forall k | 1 <= k < |hs| :: OldFile(hs[k..], []) != [] || NewFile(hs[k..], []) == []
  }

  lemma NoLateAppendStep(hs: seq<Hunk>)
    requires |hs| > 1
    ensures NoLateAppend(hs) <==>
            (OldFile(hs[1..], []) != [] || NewFile(hs[1..], []) == []) && NoLateAppend(hs[1..])
  {
    hide OldFile;
    hide NewFile;
    assert forall k | 1 <= k < |hs| - 1 :: hs[1..][k..] == hs[k + 1..];
    if NoLateAppend(hs[1..]) && (OldFile(hs[1..], []) != [] || NewFile(hs[1..], []) == []) {
      forall k | 1 <= k < |hs|
        ensures OldFile(hs[k..], []) != [] || NewFile(hs[k..], []) == []
      {
        if k > 1 {
          assert hs[1..][k - 1..] == hs[k..];
        }
      }
    }
  }

  // ---------- pieces of texts ----------

  lemma TextPieces(a: seq<string>, b: seq<string>, rest: string)
    requires LinesBefore(a + b, rest)
    ensures LinesBefore(b, rest) && LinesBefore(a, Concat(b) + rest)
    ensures b != [] ==> EndedLines(a)
  {
    hide CleanLine;
    forall i | 0 <= i < |b|
      ensures b[i] != "" && CleanLine(b[i]) && (EndsInNewline(b[i]) || (i == |b| - 1 && rest == ""))
    {
      assert b[i] == (a + b)[|a| + i];
    }
    forall i | 0 <= i < |a|
      ensures a[i] != "" && CleanLine(a[i]) && (EndsInNewline(a[i]) || (i == |a| - 1 && b == [] && rest == ""))
    {
      assert a[i] == (a + b)[i];
    }
  }

  lemma TextJoined(a: seq<string>, b: seq<string>, rest: string)
    requires LinesBefore(b, rest) && (EndedLines(a) || (b == [] && LinesBefore(a, rest)))
    ensures LinesBefore(a + b, rest) && LinesBefore(a, Concat(b) + rest)
  {
    hide CleanLine;
    if b == [] {
      assert a + b == a;
      assert Concat(b) + rest == rest;
    }
  }

  // ---------- the two agree ----------

  function Before(pre: seq<string>, h: Hunk): seq<string> {
    pre + h.gap
  }

  function Through(pre: seq<string>, h: Hunk): seq<string> {
    pre + h.gap + Removed(h.edits)
  }

  /** The first hunk, once the later ones are done: it changes its own lines and keeps the text behind them. */
  lemma FirstHunkLast(text: string, pre: seq<string>, hs: seq<Hunk>, newPos: nat, behind: string)
    requires hs != [] && CleanScript(hs) && LinesBefore(Through(pre, hs[0]), behind)
    requires HunkByHunk(text, hs[1..], |pre| + |hs[0].gap| + |Removed(hs[0].edits)|,
                        newPos + |hs[0].gap| + |Added(hs[0].edits)|)
          == Patched(Concat(Through(pre, hs[0])) + behind)
    ensures HunkByHunk(text, hs, |pre|, newPos) == Patched(Concat(Before(pre, hs[0]) + Added(hs[0].edits)) + behind)
  {
    hide *;
    var h := hs[0];
    FirstIsClean(hs);
    Ends(pre, h);
    HunkByHunkStep(text, hs, |pre|, newPos, Concat(Through(pre, h)) + behind);
    ExpectedHunk(Before(pre, h), h, behind, newPos + |h.gap|);
  }

  lemma FirstIsClean(hs: seq<Hunk>)
    requires hs != [] && CleanScript(hs)
    ensures CleanEdits(hs[0].edits) && NoBoundary(hs[0].heading) && CleanScript(hs[1..])
  {
    hide CleanEdits;
    hide NoBoundary;
  }

  lemma Ends(pre: seq<string>, h: Hunk)
    ensures Before(pre, h) == pre + h.gap && Through(pre, h) == Before(pre, h) + Removed(h.edits)
    ensures |Before(pre, h)| == |pre| + |h.gap| && |Through(pre, h)| == |pre| + |h.gap| + |Removed(h.edits)|
  {
    hide Removed;
  }

  lemma Files(pre: seq<string>, hs: seq<Hunk>)
    requires hs != []
    ensures pre + OldFile(hs, []) == Through(pre, hs[0]) + OldFile(hs[1..], [])
    ensures pre + NewFile(hs, []) == Before(pre, hs[0]) + Added(hs[0].edits) + NewFile(hs[1..], [])
    ensures NewFile(hs, []) == hs[0].gap + Added(hs[0].edits) + NewFile(hs[1..], [])
  {
    FileStep(hs, []);
    Ends(pre, hs[0]);
    hide *;
    var gap, removed, added := hs[0].gap, Removed(hs[0].edits), Added(hs[0].edits);
    Regroup(pre, gap + removed, OldFile(hs[1..], []));
    Regroup(pre, gap, removed);
    Regroup(pre, gap + added, NewFile(hs[1..], []));
    Regroup(pre, gap, added);
  }

  lemma ConcatBefore(a: seq<string>, b: seq<string>, rest: string)
    ensures Concat(a + b) + rest == Concat(a) + (Concat(b) + rest)
  {
    ConcatAppend(a, b);
    Regroup(Concat(a), Concat(b), rest);
  }

  lemma IntermediateIsText(through: seq<string>, old_: seq<string>, new_: seq<string>, rest: string)
    requires LinesBefore(through + old_, rest) && LinesBefore(new_, rest)
    requires EndedLines(through + old_) || old_ != [] || new_ == []
    ensures LinesBefore(through, Concat(new_) + rest)
  {
    hide CleanLine;
    TextPieces(through, old_, rest);
    if EndedLines(through + old_) {
      forall i | 0 <= i < |through|
        ensures CleanLine(through[i]) && EndsInNewline(through[i])
      {
        assert through[i] == (through + old_)[i];
      }
    }
    if old_ == [] {
      assert through + old_ == through;
    }
    TextJoined(through, new_, rest);
  }

  lemma {:induction false} HunkByHunkFrom(pre: seq<string>, hs: seq<Hunk>, rest: string, newPos: nat)
    requires CleanScript(hs) && (EndedLines(pre + OldFile(hs, [])) || NoLateAppend(hs))
    requires LinesBefore(pre + OldFile(hs, []), rest) && LinesBefore(NewFile(hs, []), rest)
    ensures HunkByHunk(Concat(pre + OldFile(hs, [])) + rest, hs, |pre|, newPos)
         == Patched(Concat(pre + NewFile(hs, [])) + rest)
    decreases hs
  {
    hide *;
    if hs == [] {
      NoHunks([]);
      NothingToApply(Concat(pre + OldFile(hs, [])) + rest, |pre|, newPos);
    } else {
      var h, more := hs[0], hs[1..];
      var through, old_, new_ := Through(pre, h), OldFile(more, []), NewFile(more, []);
      FirstIsClean(hs);
      Ends(pre, h);
      LaterHunks(hs);
      Files(pre, hs);
      TextPieces(h.gap + Added(h.edits), new_, rest);
      HunkByHunkFrom(through, more, rest, newPos + |h.gap| + |Added(h.edits)|);
      IntermediateIsText(through, old_, new_, rest);
      ConcatBefore(through, new_, rest);
      FirstHunkLast(Concat(pre + OldFile(hs, [])) + rest, pre, hs, newPos, Concat(new_) + rest);
      ConcatBefore(Before(pre, h) + Added(h.edits), new_, rest);
    }
  }

  lemma LaterHunks(hs: seq<Hunk>)
    requires hs != []
    ensures NoLateAppend(hs) ==> NoLateAppend(hs[1..]) && (OldFile(hs[1..], []) != [] || NewFile(hs[1..], []) == [])
  {
    if |hs| > 1 {
      NoLateAppendStep(hs);
    } else {
      NoHunks([]);
    }
  }

  lemma NothingToApply(text: string, oldPos: nat, newPos: nat)
    ensures HunkByHunk(text, [], oldPos, newPos) == Patched(text)
  {
  }

  // ---------- late insertions behind an unterminated last line ----------

  /** Lines written behind a line without its newline: the first of them becomes part of that line. */
  lemma Append(front: seq<string>, line: string, more: seq<string>, behind: string, after: string)
      returns (joined: string, rest: string)
    requires LinesBefore(front + [line], behind) && LinesBefore(more, after)
    ensures Concat(front + [line] + more) + behind == Concat(front + [line + joined]) + rest
    ensures LinesBefore(front + [line + joined], rest)
    ensures |joined| + |rest| == |Concat(more)| + |behind|
    ensures more != [] && !EndsInNewline(line) ==> joined != ""
  {
    if more == [] || EndsInNewline(line) {
      joined, rest := "", Concat(more) + behind;
      AppendNothing(front, line, more, behind);
    } else {
      joined, rest := more[0], Concat(more[1..]) + behind;
      AppendFirst(front, line, more, behind, after);
    }
  }

  lemma AppendNothing(front: seq<string>, line: string, more: seq<string>, behind: string)
    requires LinesBefore(front + [line], behind) && (more == [] || EndsInNewline(line))
    ensures line + "" == line
    ensures Concat(front + [line] + more) + behind == Concat(front + [line]) + (Concat(more) + behind)
    ensures LinesBefore(front + [line], Concat(more) + behind)
  {
    hide CleanLine;
    ConcatBefore(front + [line], more, behind);
    if more == [] {
      assert Concat(more) + behind == behind;
    } else {
      assert (front + [line])[|front|] == line;
    }
  }

  lemma JoinedIsClean(line: string, next: string)
    requires line != "" && CleanLine(line) && !EndsInNewline(line) && CleanLine(next)
    ensures CleanLine(line + next)
    ensures EndsInNewline(next) ==> EndsInNewline(line + next)
  {
    hide IsBoundary;
    assert forall k | 0 <= k < |line| :: !IsBoundary(line[k]);
    forall k | 0 <= k < |line + next| && IsBoundary((line + next)[k])
      ensures k == |line + next| - 1 && (line + next)[k] == '\n'
    {
      assert k >= |line| && IsBoundary(next[k - |line|]);
    }
  }

  lemma AppendFirst(front: seq<string>, line: string, more: seq<string>, behind: string, after: string)
    requires LinesBefore(front + [line], behind) && LinesBefore(more, after)
    requires more != [] && !EndsInNewline(line)
    ensures Concat(front + [line] + more) + behind == Concat(front + [line + more[0]]) + (Concat(more[1..]) + behind)
    ensures LinesBefore(front + [line + more[0]], Concat(more[1..]) + behind)
    ensures |more[0]| + |Concat(more[1..]) + behind| == |Concat(more)| + |behind|
  {
    hide *;
    OpenLineGrows(front, line, behind, more, after);
    AppendedText(front, line, more, behind);
  }

  lemma OpenLineGrows(front: seq<string>, line: string, behind: string, more: seq<string>, after: string)
    requires LinesBefore(front + [line], behind) && LinesBefore(more, after)
    requires more != [] && !EndsInNewline(line)
    ensures LinesBefore(front + [line + more[0]], Concat(more[1..]) + behind)
  {
    var lines := front + [line + more[0]];
    LastLine(front, line, behind);
    JoinedIsClean(line, more[0]);
    hide CleanLine;
    hide EndsInNewline;
    hide Concat;
    if |more| == 1 {
      NoLines(behind);
      assert more[1..] == [];
    }
    forall i | 0 <= i < |lines|
      ensures lines[i] != "" && CleanLine(lines[i])
      ensures EndsInNewline(lines[i]) || (i == |lines| - 1 && Concat(more[1..]) + behind == "")
    {
      if i < |front| {
        assert lines[i] == (front + [line])[i];
      }
    }
  }

  lemma LastLine(front: seq<string>, line: string, behind: string)
    requires LinesBefore(front + [line], behind)
    ensures line != "" && CleanLine(line) && (EndsInNewline(line) || behind == "")
  {
    hide CleanLine;
    hide EndsInNewline;
    assert (front + [line])[|front|] == line;
  }

  lemma AppendedText(front: seq<string>, line: string, more: seq<string>, behind: string)
    requires more != []
    ensures Concat(front + [line] + more) + behind == Concat(front + [line + more[0]]) + (Concat(more[1..]) + behind)
    ensures |more[0]| + |Concat(more[1..]) + behind| == |Concat(more)| + |behind|
  {
    var first, next, last := Concat(front), more[0], Concat(more[1..]);
    ConcatAppend(front + [line], more);
    ConcatAppend(front, [line]);
    ConcatAppend(front, [line + next]);
    ConcatOne(line);
    ConcatOne(line + next);
    ConcatStep(more);
    hide *;
    Regroup(first, line, next + last);
    Regroup(line, next, last);
    Regroup(first, line + next, last);
    Regroup(first + (line + next), last, behind);
  }

  lemma ConcatOne(a: string)
    ensures Concat([a]) == a
  {
  }

  /** Insertions at the end of the old file, last to first, when its last line is open. */
  lemma {:induction false} LateAppends(front: seq<string>, line: string, hs: seq<Hunk>, newPos: nat)
      returns (joined: string, rest: string)
    requires CleanScript(hs) && OldFile(hs, []) == [] && LinesBefore(NewFile(hs, []), "")
    requires LinesBefore(front + [line], "") && !EndsInNewline(line)
    ensures HunkByHunk(Concat(front + [line]), hs, |front| + 1, newPos)
         == Patched(Concat(front + [line + joined]) + rest)
    ensures LinesBefore(front + [line + joined], rest)
    ensures |joined| + |rest| == |Concat(NewFile(hs, []))|
    ensures NewFile(hs, []) != [] ==> joined != ""
    decreases hs
  {
    hide *;
    if hs == [] {
      joined, rest := "", "";
      NoLateAppends(front, line, newPos);
    } else {
      var h, more := hs[0], hs[1..];
      FirstIsClean(hs);
      OnlyInserts(hs);
      TextPieces(Added(h.edits), NewFile(more, []), "");
      var x, y := LateAppends(front, line, more, newPos + |h.gap| + |Added(h.edits)|);
      var z;
      z, rest := Append(front, line + x, Added(h.edits), y, Concat(NewFile(more, [])) + "");
      joined := x + z;
      Regroup(line, x, z);
      ConcatAppend(Added(h.edits), NewFile(more, []));
      LateAppendStep(front, line, hs, newPos, x, y);
      if x == "" {
        assert line + x == line;
      }
    }
  }

  lemma NoLateAppends(front: seq<string>, line: string, newPos: nat)
    requires LinesBefore(front + [line], "")
    ensures line + "" == line && Concat(front + [line]) + "" == Concat(front + [line])
    ensures HunkByHunk(Concat(front + [line]), [], |front| + 1, newPos) == Patched(Concat(front + [line]))
    ensures LinesBefore(front + [line], "") && NewFile([], []) == [] && Concat([]) == ""
  {
    hide CleanLine;
  }

  lemma OnlyInserts(hs: seq<Hunk>)
    requires hs != [] && OldFile(hs, []) == []
    ensures hs[0].gap == [] && Removed(hs[0].edits) == [] && OldFile(hs[1..], []) == []
    ensures NewFile(hs, []) == Added(hs[0].edits) + NewFile(hs[1..], [])
  {
    hide *;
    FileStep(hs, []);
    EmptyParts(hs[0].gap, Removed(hs[0].edits), OldFile(hs[1..], []));
    assert [] + Added(hs[0].edits) == Added(hs[0].edits);
  }

  lemma EmptyParts<T>(a: seq<T>, b: seq<T>, c: seq<T>)
    requires a + b + c == []
    ensures a == [] && b == [] && c == []
  {
    assert |a + b + c| == |a| + |b| + |c|;
  }

  lemma LateAppendStep(front: seq<string>, line: string, hs: seq<Hunk>, newPos: nat, x: string, y: string)
    requires hs != [] && CleanScript(hs) && OldFile(hs, []) == []
    requires LinesBefore(front + [line + x], y)
    requires HunkByHunk(Concat(front + [line]), hs[1..], |front| + 1, newPos + |hs[0].gap| + |Added(hs[0].edits)|)
          == Patched(Concat(front + [line + x]) + y)
    ensures HunkByHunk(Concat(front + [line]), hs, |front| + 1, newPos)
         == Patched(Concat(front + [line + x] + Added(hs[0].edits)) + y)
  {
    hide *;
    var h, before := hs[0], front + [line + x];
    OnlyInserts(hs);
    FirstIsClean(hs);
    assert before + [] == before;
    HunkByHunkStep(Concat(front + [line]), hs, |front| + 1, newPos, Concat(before) + y);
    ExpectedHunk(before, h, y, newPos + |h.gap|);
  }

  /** The line that was joined is deleted by the hunk that ends the old file, although it is not the line it names. */
  lemma JoinedLineMatches(es: seq<Edit>, before: seq<string>, olds: seq<string>, after: seq<string>)
    requires EndedLines(Added(es)) && Removed(es) != [] && !EndsInNewline(Removed(es)[|Removed(es)| - 1])
    requires |olds| == |Removed(es)| && olds[..|olds| - 1] == Removed(es)[..|olds| - 1]
    ensures Matches(before + olds + after, |before|, es)
  {
    KeptLinesAreAdded(es);
    hide *;
    var s, n := before + olds + after, |olds|;
    forall j | 0 <= j < n
      ensures Removed(es)[j] == s[|before| + j] || Keep(Removed(es)[j]) !in es
    {
      if j < n - 1 {
        assert olds[j] == olds[..n - 1][j] && Removed(es)[j] == Removed(es)[..n - 1][j];
      }
    }
    HeldMatches(s, |before|, es);
  }

  lemma {:induction false} KeptLinesAreAdded(es: seq<Edit>)
    requires EndedLines(Added(es))
    ensures forall line | Keep(line) in es :: EndsInNewline(line)
  {
    hide CleanLine;
    hide EndsInNewline;
    if es != [] {
      if es[0].Delete? {
        assert Added(es) == Added(es[1..]);
      } else {
        assert Added(es)[0] == es[0].line && Added(es)[1..] == Added(es[1..]);
      }
      KeptLinesAreAdded(es[1..]);
    }
  }

  /** The open last line of the old file is deleted, since text follows in the new file. */
  lemma OpenLineIsRemoved(pre: seq<string>, gap: seq<string>, removed: seq<string>, added: seq<string>)
    requires LinesBefore(pre + (gap + removed), "") && !EndedLines(gap + removed) && EndedLines(gap + added)
    ensures removed != [] && !EndsInNewline(removed[|removed| - 1]) && EndedLines(added)
  {
    hide CleanLine;
    hide EndsInNewline;
    var lines := gap + removed;
    forall i | 0 <= i < |added|
      ensures CleanLine(added[i]) && EndsInNewline(added[i])
    {
      assert added[i] == (gap + added)[|gap| + i];
    }
    assert forall k | 0 <= k < |gap| :: lines[k] == (gap + added)[k];
    var i :| 0 <= i < |lines| && !(CleanLine(lines[i]) && EndsInNewline(lines[i]));
    assert lines[i] == (pre + lines)[|pre| + i];
    assert |gap| <= i == |lines| - 1;
  }

  lemma CutBefore(pre: seq<string>, gap: seq<string>, lines: seq<string>, rest: string)
    ensures Concat(pre + gap + lines) + rest == Concat(pre) + (Concat(gap + lines) + rest)
  {
    Regroup(pre, gap, lines);
    ConcatBefore(pre, gap + lines, rest);
  }

  /** The first hunk that has only late insertions behind it throws the joined line away. */
  lemma JoinedLineIsLost(pre: seq<string>, hs: seq<Hunk>, newPos: nat) returns (behind: string)
    requires hs != [] && CleanScript(hs)
    requires LinesBefore(pre + OldFile(hs, []), "") && LinesBefore(NewFile(hs, []), "")
    requires !EndedLines(OldFile(hs, [])) && OldFile(hs[1..], []) == [] && NewFile(hs[1..], []) != []
    ensures HunkByHunk(Concat(pre + OldFile(hs, [])), hs, |pre|, newPos) == Patched(Concat(pre) + behind)
    ensures |behind| < |Concat(NewFile(hs, []))|
  {
    hide *;
    var h, more := hs[0], hs[1..];
    var old_, removed, added := OldFile(hs, []), Removed(h.edits), Added(h.edits);
    FileStep(hs, []);
    FirstIsClean(hs);
    assert old_ == h.gap + removed;
    TextPieces(h.gap + added, NewFile(more, []), "");
    OpenLineIsRemoved(pre, h.gap, removed, added);
    var n := |removed| - 1;
    var before, front, last := pre + h.gap, pre + h.gap + removed[..n], removed[n];
    assert front + [last] == pre + old_;
    var joined, rest := LateAppends(front, last, more, newPos + |h.gap| + |added|);
    var olds := removed[..n] + [last + joined];
    assert before + olds == front + [last + joined];
    HunkByHunkStep(Concat(pre + old_), hs, |pre|, newPos, Concat(before + olds) + rest);
    JoinedLineMatches(h.edits, before, olds, SplitLines(rest));
    SingleHunk(before, h, olds, rest, newPos + |h.gap|);
    CutBefore(pre, h.gap, added, rest);
    ConcatAppend(h.gap + added, NewFile(more, []));
    behind := Concat(h.gap + added) + rest;
  }

  /** Later hunks that lose text lose it for good: the hunks before them change only their own lines. */
  lemma {:induction false} LossStays(pre: seq<string>, hs: seq<Hunk>, newPos: nat) returns (behind: string)
    requires CleanScript(hs) && LinesBefore(pre + OldFile(hs, []), "") && LinesBefore(NewFile(hs, []), "")
    requires !EndedLines(OldFile(hs, [])) && !NoLateAppend(hs)
    ensures HunkByHunk(Concat(pre + OldFile(hs, [])), hs, |pre|, newPos) == Patched(Concat(pre) + behind)
    ensures |behind| < |Concat(NewFile(hs, []))|
    decreases hs
  {
    hide *;
    FewHunks(hs);
    var h, more := hs[0], hs[1..];
    var added := Added(h.edits);
    NoLateAppendStep(hs);
    NothingNew(more);
    if OldFile(more, []) == [] {
      behind := JoinedLineIsLost(pre, hs, newPos);
    } else {
      var through, text := Through(pre, h), Concat(pre + OldFile(hs, []));
      FirstIsClean(hs);
      Files(pre, hs);
      Ends(pre, h);
      StillOpen(pre, hs);
      TextPieces(h.gap + added, NewFile(more, []), "");
      var later := LossStays(through, more, newPos + |h.gap| + |added|);
      EndedIsText(through, later);
      FirstHunkLast(text, pre, hs, newPos, later);
      CutBefore(pre, h.gap, added, later);
      ConcatAppend(h.gap + added, NewFile(more, []));
      behind := Concat(h.gap + added) + later;
    }
  }

  lemma FewHunks(hs: seq<Hunk>)
    requires !NoLateAppend(hs)
    ensures |hs| > 1
  {
  }

  lemma {:induction false} NothingNew(hs: seq<Hunk>)
    ensures NewFile(hs, []) == [] ==> NoLateAppend(hs)
    decreases hs
  {
    if |hs| > 1 && NewFile(hs, []) == [] {
      FileStep(hs, []);
      NoLateAppendStep(hs);
      EmptyParts(hs[0].gap, Added(hs[0].edits), NewFile(hs[1..], []));
      NothingNew(hs[1..]);
    }
  }

  lemma StillOpen(pre: seq<string>, hs: seq<Hunk>)
    requires hs != [] && LinesBefore(pre + OldFile(hs, []), "") && OldFile(hs[1..], []) != []
    requires !EndedLines(OldFile(hs, []))
    ensures !EndedLines(OldFile(hs[1..], [])) && EndedLines(Through(pre, hs[0]))
    ensures LinesBefore(Through(pre, hs[0]) + OldFile(hs[1..], []), "")
  {
    hide *;
    var old_, more := hs[0].gap + Removed(hs[0].edits), OldFile(hs[1..], []);
    Files(pre, hs);
    FileStep(hs, []);
    TextPieces(Through(pre, hs[0]), more, "");
    TextPieces(pre, old_ + more, "");
    TextPieces(old_, more, "");
    EndedAppend(old_, more);
  }

  /**
   * One scan of the whole patch and its hunks applied one at a time, last to first, give the same file if and only if
   * the lines of the old file are all terminated or no hunk but the first only inserts lines at its end.
   */
  lemma OnePassEqualsMany(header: seq<string>, hs: seq<Hunk>, rest: string)
    requires FileHeader(header) && EndedLines(header) && CleanScript(hs)
    requires LinesBefore(OldFile(hs, []), rest) && LinesBefore(NewFile(hs, []), rest)
    ensures HunkByHunk(Concat(OldFile(hs, [])) + rest, hs, 0, 0) ==
            Scan(SplitLines(Concat(OldFile(hs, [])) + rest), SplitLines(Concat(header + RenderHunks(hs, 0, 0))))
       <==> EndedLines(OldFile(hs, [])) || NoLateAppend(hs)
  {
    hide *;
    PatchTextCorrect(header, hs, rest);
    assert [] + OldFile(hs, []) == OldFile(hs, []) && [] + NewFile(hs, []) == NewFile(hs, []);
    if EndedLines(OldFile(hs, [])) || NoLateAppend(hs) {
      HunkByHunkFrom([], hs, rest, 0);
    } else {
      NothingBehindOpenLine(OldFile(hs, []), rest);
      var behind := LossStays([], hs, 0);
    }
  }

  lemma NothingBehindOpenLine(lines: seq<string>, rest: string)
    requires LinesBefore(lines, rest) && !EndedLines(lines)
    ensures rest == "" && Concat([]) == "" && forall s: string :: "" + s == s && s + rest == s
  {
  }
}
