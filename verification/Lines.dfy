/** Strings as sequences of lines, split the way Python's str.splitlines(True) does it. */
module Lines {

  function Concat(lines: seq<string>): string {
    if lines == [] then "" else lines[0] + Concat(lines[1..])
  }

  lemma {:induction false} ConcatAppend(a: seq<string>, b: seq<string>)
    ensures Concat(a + b) == Concat(a) + Concat(b)
  {
    if a == [] {
      assert a + b == b;
    } else {
      assert (a + b)[1..] == a[1..] + b;
      ConcatAppend(a[1..], b);
    }
  }

  predicate IsBoundary(c: char) {
    c in {'\n', '\r', '\U{000B}', '\U{000C}', '\U{001C}', '\U{001D}', '\U{001E}', '\U{0085}', '\U{2028}', '\U{2029}'}
  }

  function FirstLineLength(s: string): (n: nat)
    requires s != ""
    ensures 1 <= n <= |s|
  {
    if IsBoundary(s[0]) then (if s[0] == '\r' && |s| > 1 && s[1] == '\n' then 2 else 1)
    else if |s| == 1 then 1
    else 1 + FirstLineLength(s[1..])
  }

  /** The lines of a text, each with its line end. */
  function SplitLines(s: string): (lines: seq<string>)
    ensures forall i | 0 <= i < |lines| :: lines[i] != ""
    ensures Concat(lines) == s
    decreases |s|
  {
    if s == "" then []
    else
      var n := FirstLineLength(s);
      assert s[..n] + s[n..] == s;
      [s[..n]] + SplitLines(s[n..])
  }

  /** No line boundary but perhaps a newline at the end. */
  predicate CleanLine(line: string) {
    forall k | 0 <= k < |line| :: IsBoundary(line[k]) ==> k == |line| - 1 && line[k] == '\n'
  }

  predicate EndsInNewline(line: string) {
    line != "" && line[|line| - 1] == '\n'
  }

  /** Lines of a text file in front of a text: only the last one may lack its newline, at the end of the file. */
  predicate LinesBefore(lines: seq<string>, rest: string) {
    forall i | 0 <= i < |lines| ::
      && lines[i] != "" && CleanLine(lines[i])
      && (EndsInNewline(lines[i]) || (i == |lines| - 1 && rest == ""))
  }

  /** One line for Python, with or without its line end. */
  predicate WholeLine(line: string) {
    line != "" && FirstLineLength(line) == |line|
  }

  /** A line can be followed by more text: it ends in a boundary that the text does not extend. */
  predicate EndsBefore(line: string, rest: string)
    requires line != ""
  {
    rest == "" || (IsBoundary(line[|line| - 1]) && !(line[|line| - 1] == '\r' && rest[0] == '\n'))
  }

  /** In front of a text, this is one line for Python. */
  predicate OneLine(line: string, rest: string) {
    WholeLine(line) && EndsBefore(line, rest)
  }

  lemma {:induction false} FirstLineOf(line: string, rest: string)
    requires line != ""
    ensures FirstLineLength(line + rest) == |line| <==> OneLine(line, rest)
  {
    var s := line + rest;
    if !IsBoundary(line[0]) && |line| > 1 {
      assert s[1..] == line[1..] + rest;
      FirstLineOf(line[1..], rest);
    }
  }

  lemma SplitStep(line: string, rest: string)
    requires OneLine(line, rest)
    ensures SplitLines(line + rest) == [line] + SplitLines(rest)
  {
    FirstLineOf(line, rest);
    assert (line + rest)[..|line|] == line;
    assert (line + rest)[|line|..] == rest;
  }

  /** Each line is one line for Python, and ends before the next begins; the last one ends before the rest. */
  predicate PythonLinesBefore(lines: seq<string>, rest: string) {
    forall i | 0 <= i < |lines| :: OneLine(lines[i], Concat(lines[i + 1..]) + rest)
  }

  predicate PythonLines(lines: seq<string>) {
    PythonLinesBefore(lines, "")
  }

  lemma PythonLinesStep(lines: seq<string>, rest: string)
    requires lines != []
    ensures PythonLinesBefore(lines, rest) <==>
            OneLine(lines[0], Concat(lines[1..]) + rest) && PythonLinesBefore(lines[1..], rest)
  {
    hide OneLine;
    hide Concat;
    assert forall i | 0 <= i < |lines| - 1 ::
        lines[1..][i] == lines[i + 1] && lines[1..][i + 1..] == lines[i + 1 + 1..];
    if PythonLinesBefore(lines, rest) {
      forall i | 0 <= i < |lines| - 1
        ensures OneLine(lines[1..][i], Concat(lines[1..][i + 1..]) + rest)
      {
        assert OneLine(lines[i + 1], Concat(lines[i + 1 + 1..]) + rest);
      }
    }
    if OneLine(lines[0], Concat(lines[1..]) + rest) && PythonLinesBefore(lines[1..], rest) {
      forall i | 0 <= i < |lines|
        ensures OneLine(lines[i], Concat(lines[i + 1..]) + rest)
      {
        if i > 0 {
          assert lines[1..][i - 1] == lines[i] && lines[1..][i - 1 + 1..] == lines[i + 1..];
        }
      }
    }
  }

  lemma FirstOfSplit(s: string)
    requires s != ""
    ensures SplitLines(s) != [] && SplitLines(s)[0] == s[..FirstLineLength(s)]
  {
  }

  lemma SplitAtLine(line: string, rest: string, lines: seq<string>)
    requires line != ""
    ensures SplitLines(line + rest) == [line] + lines <==> OneLine(line, rest) && SplitLines(rest) == lines
  {
    hide OneLine;
    hide SplitLines;
    FirstLineOf(line, rest);
    if OneLine(line, rest) {
      SplitStep(line, rest);
      assert ([line] + lines)[1..] == lines && ([line] + SplitLines(rest))[1..] == SplitLines(rest);
    } else {
      FirstOfSplit(line + rest);
      assert |SplitLines(line + rest)[0]| == FirstLineLength(line + rest);
    }
  }

  lemma NoLines(rest: string)
    ensures Concat([]) + rest == rest && [] + SplitLines(rest) == SplitLines(rest) && PythonLinesBefore([], rest)
  {
  }

  lemma ConcatStep(lines: seq<string>)
    requires lines != []
    ensures Concat(lines) == lines[0] + Concat(lines[1..])
  {
  }

  lemma Regroup<T>(a: seq<T>, b: seq<T>, c: seq<T>)
    ensures (a + b) + c == a + (b + c)
  {
  }

  /** The lines in front of a text come back, with those of the text behind them, if and only if they are Python's. */
  lemma {:induction false} SplitFront(lines: seq<string>, rest: string)
    requires forall i | 0 <= i < |lines| :: lines[i] != ""
    ensures SplitLines(Concat(lines) + rest) == lines + SplitLines(rest) <==> PythonLinesBefore(lines, rest)
  {
    if lines == [] {
      NoLines(rest);
    } else {
      hide *;
      var line, more := lines[0], lines[1..];
      var behind := Concat(more) + rest;
      SplitFront(more, rest);
      PythonLinesStep(lines, rest);
      ConcatStep(lines);
      Regroup(line, Concat(more), rest);
      Regroup([line], more, SplitLines(rest));
      assert [line] + more == lines;
      SplitAtLine(line, behind, more + SplitLines(rest));
    }
  }

  /** Splitting a text gives back the lines it was made of if and only if they are lines for Python. */
  lemma SplitExact(lines: seq<string>)
    requires forall i | 0 <= i < |lines| :: lines[i] != ""
    ensures SplitLines(Concat(lines)) == lines <==> PythonLines(lines)
  {
    SplitFront(lines, "");
    assert Concat(lines) + "" == Concat(lines);
    assert SplitLines("") == [] && lines + [] == lines;
  }

  lemma {:induction false} CleanIsWhole(line: string)
    requires line != "" && CleanLine(line)
    ensures WholeLine(line)
  {
    if |line| > 1 {
      CleanIsWhole(line[1..]);
    }
  }

  lemma TextIsPythonLines(lines: seq<string>, rest: string)
    requires LinesBefore(lines, rest)
    ensures PythonLinesBefore(lines, rest)
  {
    forall i | 0 <= i < |lines|
      ensures OneLine(lines[i], Concat(lines[i + 1..]) + rest)
    {
      CleanIsWhole(lines[i]);
      if i == |lines| - 1 {
        assert lines[i + 1..] == [];
        assert Concat([]) + rest == rest;
      }
    }
  }

  /** A text file splits into its lines, whatever text follows them. */
  lemma SplitConcat(lines: seq<string>, rest: string)
    requires LinesBefore(lines, rest)
    ensures SplitLines(Concat(lines) + rest) == lines + SplitLines(rest)
    ensures rest == "" ==> SplitLines(Concat(lines)) == lines
  {
    TextIsPythonLines(lines, rest);
    SplitFront(lines, rest);
    if rest == "" {
      assert Concat(lines) + rest == Concat(lines);
      assert lines + SplitLines("") == lines;
    }
  }
}
