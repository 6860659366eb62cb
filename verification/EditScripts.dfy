/** Edit scripts, and the unified diff that a diff tool writes for them. */
module EditScripts {
  import opened Lines
  import opened HunkHeaders

  datatype Edit = Keep(line: string) | Delete(line: string) | Insert(line: string)

  /** The unchanged lines before a hunk, the edits of the hunk, and the text after the header's second "@@". */
  datatype Hunk = Hunk(gap: seq<string>, edits: seq<Edit>, heading: string)

  function Removed(es: seq<Edit>): seq<string> {
    if es == [] then []
    else if es[0].Insert? then Removed(es[1..])
    else [es[0].line] + Removed(es[1..])
  }

  function Added(es: seq<Edit>): seq<string> {
    if es == [] then []
    else if es[0].Delete? then Added(es[1..])
    else [es[0].line] + Added(es[1..])
  }

  /** The file a script starts from; tail is what follows the last hunk. */
  function OldFile(hs: seq<Hunk>, tail: seq<string>): seq<string> {
    if hs == [] then tail else hs[0].gap + Removed(hs[0].edits) + OldFile(hs[1..], tail)
  }

  function NewFile(hs: seq<Hunk>, tail: seq<string>): seq<string> {
    if hs == [] then tail else hs[0].gap + Added(hs[0].edits) + NewFile(hs[1..], tail)
  }

  // ---------- rendering ----------

  const NO_NEWLINE := "\\ No newline at end of file\n"

  function Mark(e: Edit): string {
    match e
    case Keep(_) => " "
    case Delete(_) => "-"
    case Insert(_) => "+"
  }

  function RenderEdit(e: Edit): seq<string> {
    if EndsInNewline(e.line) then [Mark(e) + e.line] else [Mark(e) + e.line + "\n", NO_NEWLINE]
  }

  function RenderEdits(es: seq<Edit>): seq<string> {
    if es == [] then [] else RenderEdit(es[0]) + RenderEdits(es[1..])
  }

  /** A hunk whose first old and first new line have the given 0-based numbers. */
  function RenderHunk(h: Hunk, oldStart: nat, newStart: nat): seq<string> {
    [Header(oldStart, |Removed(h.edits)|, newStart, |Added(h.edits)|, h.heading)] + RenderEdits(h.edits)
  }

  /** The hunks of a script in file order; the positions are those reached before the first gap. */
  function RenderHunks(hs: seq<Hunk>, oldPos: nat, newPos: nat): seq<string> {
    if hs == [] then []
    else
      var oldStart, newStart := oldPos + |hs[0].gap|, newPos + |hs[0].gap|;
      RenderHunk(hs[0], oldStart, newStart) +
      RenderHunks(hs[1..], oldStart + |Removed(hs[0].edits)|, newStart + |Added(hs[0].edits)|)
  }

  lemma FileStep(hs: seq<Hunk>, tail: seq<string>)
    requires hs != []
    ensures OldFile(hs, tail) == hs[0].gap + Removed(hs[0].edits) + OldFile(hs[1..], tail)
    ensures NewFile(hs, tail) == hs[0].gap + Added(hs[0].edits) + NewFile(hs[1..], tail)
  {
  }

  lemma RenderStep(hs: seq<Hunk>, oldPos: nat, newPos: nat)
    requires hs != []
    ensures var oldStart, newStart := oldPos + |hs[0].gap|, newPos + |hs[0].gap|;
            RenderHunks(hs, oldPos, newPos) ==
            RenderHunk(hs[0], oldStart, newStart) +
            RenderHunks(hs[1..], oldStart + |Removed(hs[0].edits)|, newStart + |Added(hs[0].edits)|)
  {
    hide RenderHunk;
    hide Removed;
    hide Added;
  }

  // ---------- counting lines ----------

  function CountInserts(es: seq<Edit>): nat {
    if es == [] then 0 else (if es[0].Insert? then 1 else 0) + CountInserts(es[1..])
  }

  function CountDeletes(es: seq<Edit>): nat {
    if es == [] then 0 else (if es[0].Delete? then 1 else 0) + CountDeletes(es[1..])
  }

  function Inserted(hs: seq<Hunk>): nat {
    if hs == [] then 0 else CountInserts(hs[0].edits) + Inserted(hs[1..])
  }

  function Deleted(hs: seq<Hunk>): nat {
    if hs == [] then 0 else CountDeletes(hs[0].edits) + Deleted(hs[1..])
  }

  lemma {:induction false} EditBalance(es: seq<Edit>)
    ensures |Added(es)| + CountDeletes(es) == |Removed(es)| + CountInserts(es)
  {
    if es != [] {
      EditBalance(es[1..]);
    }
  }

  lemma {:induction false} LineBalance(hs: seq<Hunk>, tail: seq<string>)
    ensures |NewFile(hs, tail)| == |OldFile(hs, tail)| + Inserted(hs) - Deleted(hs)
  {
    if hs != [] {
      EditBalance(hs[0].edits);
      LineBalance(hs[1..], tail);
    }
  }
}
