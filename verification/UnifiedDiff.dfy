/** apply_patch: a scan over the lines of an old file and the lines of a unified diff. */
module UnifiedDiff {
  import opened Wrappers
  import opened Lines
  import opened HunkHeaders

  datatype Outcome = Patched(text: string) | NotAHunk(line: nat) | ContextDiffers(oldLine: int) | PastTheEnd(oldLine: int)

  // ---------- Python indexing ----------

  function Clamp(k: int, n: nat): (r: nat)
    ensures r <= n
  {
    if k >= n then n else if k >= 0 then k else if k + n >= 0 then k + n else 0
  }

  /** s[from:to], where a negative bound counts from the end and an empty or inverted range gives nothing. */
  function Slice(s: seq<string>, from: int, to: int): seq<string> {
    var lo, hi := Clamp(from, |s|), Clamp(to, |s|);
    if lo <= hi then s[lo..hi] else []
  }

  /** s[k], None where Python raises an IndexError. */
  function At(s: seq<string>, k: int): Option<string> {
    if 0 <= k < |s| then Some(s[k]) else if -|s| <= k < 0 then Some(s[|s| + k]) else None
  }

  // ---------- the scan as a function ----------

  function FileHeaderLength(p: seq<string>): (n: nat)
    ensures n <= |p|
  {
    if p != [] && ("---" <= p[0] || "+++" <= p[0]) then 1 + FileHeaderLength(p[1..]) else 0
  }

  /** A marker line for a missing newline belongs to the line before it, which then loses its own line end. */
  predicate Marked(p: seq<string>) {
    |p| > 1 && p[1] != "" && p[1][0] == '\\'
  }

  predicate BodyLine(p: seq<string>) {
    p != [] && p[0] != "" && p[0][0] != '@'
  }

  function LineOf(p: seq<string>): string
    requires BodyLine(p)
  {
    if Marked(p) then p[0][..|p[0]| - 1] else p[0]
  }

  /** At a hunk header: p is what is left of the patch, i the number of patch lines read. */
  function Hunks(s: seq<string>, p: seq<string>, i: nat, sl: int, t: string): Outcome
    decreases |p|, 0
  {
    if p == [] then Patched(t + Concat(Slice(s, sl, |s|)))
    else
      match ParseHeader(p[0])
      case None => NotAHunk(i)
      case Some(h) => Body(s, p[1..], i + 1, StartOf(h), t + Concat(Slice(s, sl, StartOf(h))))
  }

  /** Inside a hunk. */
  function Body(s: seq<string>, p: seq<string>, i: nat, sl: int, t: string): Outcome
    decreases |p|, 1
  {
    if !BodyLine(p) then Hunks(s, p, i, sl, t)
    else
      var line, n := LineOf(p), if Marked(p) then 2 else 1;
      if line == "" then Body(s, p[n..], i + n, sl, t)
      else if line[0] == ' ' && At(s, sl).None? then PastTheEnd(sl)
      else if line[0] == ' ' && At(s, sl).value != line[1..] then ContextDiffers(sl)
      else
        var t' := if line[0] == '+' || line[0] == ' ' then t + line[1..] else t;
        Body(s, p[n..], i + n, if line[0] != '+' then sl + 1 else sl, t')
  }

  function Scan(s: seq<string>, p: seq<string>): Outcome {
    Hunks(s, p[FileHeaderLength(p)..], FileHeaderLength(p), 0, "")
  }

  // ---------- the scan, one step at a time ----------

  lemma HunksStop(s: seq<string>, i: nat, sl: int, t: string)
    ensures Hunks(s, [], i, sl, t) == Patched(t + Concat(Slice(s, sl, |s|)))
  {
  }

  lemma HeaderStep(s: seq<string>, p: seq<string>, i: nat, sl: int, t: string)
    requires i < |p|
    ensures var m := ParseHeader(p[i]);
            Hunks(s, p[i..], i, sl, t) ==
            if m.None? then NotAHunk(i)
            else Body(s, p[i + 1..], i + 1, StartOf(m.value), t + Concat(Slice(s, sl, StartOf(m.value))))
  {
    hide ParseHeader;
    hide StartOf;
    hide Slice;
    hide Body;
    assert p[i..][1..] == p[i + 1..];
  }

  lemma BodyStop(s: seq<string>, p: seq<string>, i: nat, sl: int, t: string)
    requires i <= |p| && !BodyLine(p[i..])
    ensures Body(s, p[i..], i, sl, t) == Hunks(s, p[i..], i, sl, t)
  {
    hide Hunks;
  }

  lemma BodyLineStep(s: seq<string>, p: seq<string>, i: nat, next: nat, line: string, sl: int, t: string)
    requires i < |p| && BodyLine(p[i..]) && line == LineOf(p[i..])
    requires next == i + (if Marked(p[i..]) then 2 else 1) <= |p|
    ensures Body(s, p[i..], i, sl, t) ==
            if line == "" then Body(s, p[next..], next, sl, t)
            else if line[0] == ' ' && At(s, sl).None? then PastTheEnd(sl)
            else if line[0] == ' ' && At(s, sl).value != line[1..] then ContextDiffers(sl)
            else Body(s, p[next..], next, if line[0] != '+' then sl + 1 else sl,
                      if line[0] == '+' || line[0] == ' ' then t + line[1..] else t)
  {
    hide Hunks;
    hide At;
    hide LineOf;
    assert p[i..][next - i..] == p[next..];
  }

  lemma BodyLineAt(p: seq<string>, i: nat)
    requires i <= |p| && forall k | 0 <= k < |p| :: p[k] != ""
    ensures BodyLine(p[i..]) <==> i < |p| && p[i][0] != '@'
  {
  }

  lemma ScanStart(s: seq<string>, p: seq<string>)
    ensures Scan(s, p) == Hunks(s, p[FileHeaderLength(p)..], FileHeaderLength(p), 0, "")
  {
    hide Hunks;
  }

  lemma StartOfIs(h: Numbers)
    requires AllDigits(h.first)
    ensures StartOf(h) == ParseDecimal(h.first) - 1 + (if h.second == "0" then 1 else 0)
  {
  }

  // ---------- the scan as the program runs it ----------

  method ApplyPatch(text: string, patch: string) returns (r: Outcome)
    ensures r == Scan(SplitLines(text), SplitLines(patch))
  {
    hide *;
    var s, p := SplitLines(text), SplitLines(patch);
    var t, sl := "", 0;
    var i := SkipFileHeader(p);
    ghost var result := Scan(s, p);
    ScanStart(s, p);
    while i < |p|
      invariant 0 <= i <= |p|
      invariant result == Hunks(s, p[i..], i, sl, t)
      decreases |p| - i
    {
      HeaderStep(s, p, i, sl, t);
      var m := ParseHeader(p[i]);
      if m.None? {
        return NotAHunk(i);
      }
      StartOfIs(m.value);
      i := i + 1;
      var ll := ParseDecimal(m.value.first) - 1 + (if m.value.second == "0" then 1 else 0);
      t := t + Concat(Slice(s, sl, ll));
      sl := ll;
      BodyLineAt(p, i);
      while i < |p| && p[i][0] != '@'
        invariant 0 <= i <= |p|
        invariant BodyLine(p[i..]) <==> i < |p| && p[i][0] != '@'
        invariant result == Body(s, p[i..], i, sl, t)
        decreases |p| - i
      {
        var line, next := ReadBodyLine(p, i);
        BodyLineStep(s, p, i, next, line, sl, t);
        i := next;
        if |line| > 0 {
          if line[0] == ' ' {
            if At(s, sl).None? {
              return PastTheEnd(sl);
            }
            if At(s, sl).value != line[1..] {
              return ContextDiffers(sl);
            }
          }
          if line[0] == '+' || line[0] == ' ' {
            t := t + line[1..];
          }
          sl := sl + (if line[0] != '+' then 1 else 0);
        }
        BodyLineAt(p, i);
      }
      BodyStop(s, p, i, sl, t);
    }
    assert p[i..] == [];
    HunksStop(s, i, sl, t);
    t := t + Concat(Slice(s, sl, |s|));
    r := Patched(t);
  }

  method SkipFileHeader(p: seq<string>) returns (i: nat)
    ensures i == FileHeaderLength(p)
  {
    i := 0;
    while i < |p| && ("---" <= p[i] || "+++" <= p[i])
      invariant i <= |p| && FileHeaderLength(p[i..]) + i == FileHeaderLength(p)
    {
      assert p[i..][1..] == p[i + 1..];
      i := i + 1;
    }
  }

  method ReadBodyLine(p: seq<string>, i: nat) returns (line: string, next: nat)
    requires forall k | 0 <= k < |p| :: p[k] != ""
    requires i < |p| && BodyLine(p[i..])
    ensures line == LineOf(p[i..])
    ensures next == i + (if Marked(p[i..]) then 2 else 1) <= |p|
    ensures p[next..] == p[i..][next - i..]
  {
    if i + 1 < |p| && p[i + 1][0] == '\\' {
      line := p[i][..|p[i]| - 1];
      next := i + 2;
    } else {
      line := p[i];
      next := i + 1;
    }
  }
}
