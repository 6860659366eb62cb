/** The "@@ -l,c +l,c @@" lines of a unified diff: how diff writes them and how the patch tool reads them. */
module HunkHeaders {
  import opened Wrappers

  predicate IsDigit(c: char) {
    '0' <= c <= '9'
  }

  /** The number of digits a string starts with. */
  function DigitCount(s: string): (n: nat)
    ensures n <= |s|
    ensures forall k | 0 <= k < n :: IsDigit(s[k])
    ensures n < |s| ==> !IsDigit(s[n])
  {
    if s != "" && IsDigit(s[0]) then 1 + DigitCount(s[1..]) else 0
  }

  predicate AllDigits(s: string) {
    forall k | 0 <= k < |s| :: IsDigit(s[k])
  }

  function ParseDecimal(s: string): nat
    requires AllDigits(s)
  {
    if s == "" then 0 else 10 * ParseDecimal(s[..|s| - 1]) + (s[|s| - 1] as int - '0' as int)
  }

  function Decimal(n: nat): (s: string)
    ensures s != "" && AllDigits(s)
  {
    var digit := [('0' as int + n % 10) as char];
    if n < 10 then digit else Decimal(n / 10) + digit
  }

  lemma {:induction false} DecimalRoundTrip(n: nat)
    ensures ParseDecimal(Decimal(n)) == n
    ensures Decimal(n) == "0" <==> n == 0
  {
    var s := Decimal(n);
    if n >= 10 {
      DecimalRoundTrip(n / 10);
      assert s[..|s| - 1] == Decimal(n / 10);
    } else {
      assert s[..|s| - 1] == "";
    }
  }

  // ---------- writing ----------

  /** A range of lines: the count is omitted when it is 1, and an empty range starts at the line before it. */
  function Range(start: nat, count: nat): string {
    if count == 1 then Decimal(start + 1)
    else Decimal(if count == 0 then start else start + 1) + "," + Decimal(count)
  }

  function NewPart(newStart: nat, newCount: nat, heading: string): string {
    " +" + (Range(newStart, newCount) + (" @@" + (heading + "\n")))
  }

  function Header(oldStart: nat, oldCount: nat, newStart: nat, newCount: nat, heading: string): string {
    "@@ -" + (Range(oldStart, oldCount) + NewPart(newStart, newCount, heading))
  }

  // ---------- reading ----------

  function Skip(s: string, literal: string): Option<string> {
    if literal <= s then Some(s[|literal|..]) else None
  }

  datatype Numbers = Numbers(first: string, second: string, rest: string)

  /** The pattern (\d+),?(\d+)? ; the second group is "" when it is absent. */
  function ParseNumbers(s: string): (r: Option<Numbers>)
    ensures r.Some? ==> AllDigits(r.value.first) && r.value.first != ""
  {
    var n := DigitCount(s);
    if n == 0 then None
    else
      var afterComma := if n < |s| && s[n] == ',' then s[n + 1..] else s[n..];
      var k := DigitCount(afterComma);
      Some(Numbers(s[..n], afterComma[..k], afterComma[k..]))
  }

  /** The second half of the header pattern; its groups are never looked at. */
  predicate MatchesNewRange(s: string) {
    match Skip(s, " +")
    case None => false
    case Some(s2) =>
      match ParseNumbers(s2)
      case None => false
      case Some(new_) =>
        match Skip(new_.rest, " @@")
        case None => false
        case Some(s3) => forall k | 0 <= k < |s3| - 1 :: s3[k] != '\n'
  }

  /** The whole header pattern; the result is its first two groups, the range in the old file. */
  function ParseHeader(line: string): (r: Option<Numbers>)
    ensures r.Some? ==> AllDigits(r.value.first) && r.value.first != ""
  {
    match Skip(line, "@@ -")
    case None => None
    case Some(s1) =>
      match ParseNumbers(s1)
      case None => None
      case Some(old_) => if MatchesNewRange(old_.rest) then Some(old_) else None
  }

  // ---------- what is written is read back ----------

  lemma {:induction false} DigitCountOf(digits: string, rest: string)
    requires AllDigits(digits) && (rest == "" || !IsDigit(rest[0]))
    ensures DigitCount(digits + rest) == |digits|
  {
    if digits == "" {
      assert digits + rest == rest;
    } else {
      assert (digits + rest)[1..] == digits[1..] + rest;
      DigitCountOf(digits[1..], rest);
    }
  }

  lemma Splits(a: string, b: string)
    ensures (a + b)[..|a|] == a && (a + b)[|a|..] == b
  {
  }

  lemma OneNumber(first: string, rest: string)
    requires AllDigits(first) && first != ""
    requires rest != "" && !IsDigit(rest[0]) && rest[0] != ','
    ensures ParseNumbers(first + rest) == Some(Numbers(first, "", rest))
  {
    DigitCountOf(first, rest);
    Splits(first, rest);
  }

  lemma TwoNumbers(first: string, second: string, rest: string)
    requires AllDigits(first) && first != "" && AllDigits(second)
    requires rest != "" && !IsDigit(rest[0])
    ensures ParseNumbers(first + ("," + (second + rest))) == Some(Numbers(first, second, rest))
  {
    hide DigitCount;
    var afterFirst := "," + (second + rest);
    DigitCountOf(first, afterFirst);
    DigitCountOf(second, rest);
    Splits(first, afterFirst);
    Splits(second, rest);
    assert (first + afterFirst)[|first| + 1..] == second + rest;
  }

  function RangeNumbers(start: nat, count: nat, rest: string): Numbers {
    Numbers(Decimal(if count == 0 then start else start + 1), if count == 1 then "" else Decimal(count), rest)
  }

  lemma RangeRoundTrip(start: nat, count: nat, rest: string)
    requires rest != "" && !IsDigit(rest[0]) && rest[0] != ','
    ensures ParseNumbers(Range(start, count) + rest) == Some(RangeNumbers(start, count, rest))
  {
    if count == 1 {
      OneNumber(Decimal(start + 1), rest);
    } else {
      var first := Decimal(if count == 0 then start else start + 1);
      assert Range(start, count) + rest == first + ("," + (Decimal(count) + rest));
      TwoNumbers(first, Decimal(count), rest);
    }
  }

  lemma SkipLiteral(literal: string, rest: string)
    ensures Skip(literal + rest, literal) == Some(rest)
  {
  }

  /** The line number the patch tool computes from the first two groups: 0-based, however small the range is. */
  function StartOf(h: Numbers): int
    requires AllDigits(h.first)
  {
    ParseDecimal(h.first) - 1 + (if h.second == "0" then 1 else 0)
  }

  lemma StartOfRange(start: nat, count: nat, rest: string)
    ensures StartOf(RangeNumbers(start, count, rest)) == start
  {
    DecimalRoundTrip(if count == 0 then start else start + 1);
    DecimalRoundTrip(count);
  }

  lemma NewPartMatches(newStart: nat, newCount: nat, heading: string)
    requires '\n' !in heading
    ensures MatchesNewRange(NewPart(newStart, newCount, heading))
  {
    hide Range;
    hide ParseNumbers;
    var tail := heading + "\n";
    SkipLiteral(" +", Range(newStart, newCount) + (" @@" + tail));
    RangeRoundTrip(newStart, newCount, " @@" + tail);
    SkipLiteral(" @@", tail);
  }

  /** Reading a written header gives the start of the old range, whatever the new range and the heading are. */
  lemma HeaderRoundTrip(oldStart: nat, oldCount: nat, newStart: nat, newCount: nat, heading: string)
    requires '\n' !in heading
    ensures ParseHeader(Header(oldStart, oldCount, newStart, newCount, heading)).Some?
    ensures StartOf(ParseHeader(Header(oldStart, oldCount, newStart, newCount, heading)).value) == oldStart
  {
    hide *;
    var rest := NewPart(newStart, newCount, heading);
    NewPartStarts(newStart, newCount, heading);
    HeaderParts(oldStart, oldCount, newStart, newCount, heading);
    RangeRoundTrip(oldStart, oldCount, rest);
    NewPartMatches(newStart, newCount, heading);
    ParsedHeader(Header(oldStart, oldCount, newStart, newCount, heading), Range(oldStart, oldCount) + rest,
                 RangeNumbers(oldStart, oldCount, rest));
    StartOfRange(oldStart, oldCount, rest);
  }

  lemma HeaderParts(oldStart: nat, oldCount: nat, newStart: nat, newCount: nat, heading: string)
    ensures var rest := NewPart(newStart, newCount, heading);
            && Header(oldStart, oldCount, newStart, newCount, heading) == "@@ -" + (Range(oldStart, oldCount) + rest)
            && RangeNumbers(oldStart, oldCount, rest).rest == rest
  {
  }

  lemma NewPartStarts(newStart: nat, newCount: nat, heading: string)
    ensures var s := NewPart(newStart, newCount, heading); s != "" && !IsDigit(s[0]) && s[0] != ','
  {
    hide Range;
  }

  lemma ParsedHeader(line: string, ranges: string, numbers: Numbers)
    requires line == "@@ -" + ranges && ParseNumbers(ranges) == Some(numbers) && MatchesNewRange(numbers.rest)
    ensures ParseHeader(line) == Some(numbers)
  {
    hide ParseNumbers;
    hide MatchesNewRange;
    SkipLiteral("@@ -", ranges);
  }

  // ---------- which lines are headers ----------

  /** One range of the header pattern, (\d+),?(\d+)?, with its two groups; without a comma all digits are the first. */
  function RangeText(first: string, comma: bool, second: string): string {
    first + (if comma then "," else "") + second
  }

  predicate Groups(first: string, comma: bool, second: string) {
    AllDigits(first) && first != "" && AllDigits(second) && (comma || second == "")
  }

  lemma GroupsParse(first: string, comma: bool, second: string, rest: string)
    requires Groups(first, comma, second)
    requires rest != "" && !IsDigit(rest[0]) && rest[0] != ','
    ensures ParseNumbers(RangeText(first, comma, second) + rest) == Some(Numbers(first, second, rest))
  {
    if comma {
      assert RangeText(first, comma, second) + rest == first + ("," + (second + rest));
      TwoNumbers(first, second, rest);
    } else {
      assert RangeText(first, comma, second) + rest == first + rest;
      OneNumber(first, rest);
    }
  }

  lemma ParseGroups(s: string) returns (comma: bool)
    requires ParseNumbers(s).Some?
    ensures var r := ParseNumbers(s).value;
            Groups(r.first, comma, r.second) && s == RangeText(r.first, comma, r.second) + r.rest
  {
    hide DigitCount;
    var n := DigitCount(s);
    comma := n < |s| && s[n] == ',';
    if !comma {
      NoDigitsBehind(s, n);
      assert DigitCount(s[n..]) == 0;
    }
  }

  lemma NoDigitsBehind(s: string, n: nat)
    requires n == DigitCount(s)
    ensures DigitCount(s[n..]) == 0
  {
  }

  /** A line end only at the very end. */
  predicate OneLineRest(s: string) {
    forall k | 0 <= k < |s| - 1 :: s[k] != '\n'
  }

  /** Every line of the pattern is a header, and its first two groups are what is read from it. */
  lemma HeaderIsParsed(line: string, f1: string, c1: bool, s1: string, f2: string, c2: bool, s2: string, tail: string)
    requires Groups(f1, c1, s1) && Groups(f2, c2, s2) && OneLineRest(tail)
    requires line == "@@ -" + (RangeText(f1, c1, s1) + (" +" + (RangeText(f2, c2, s2) + (" @@" + tail))))
    ensures ParseHeader(line).Some? && ParseHeader(line).value.first == f1 && ParseHeader(line).value.second == s1
  {
    hide RangeText;
    hide ParseNumbers;
    var rest2 := " @@" + tail;
    var rest1 := " +" + (RangeText(f2, c2, s2) + rest2);
    SkipLiteral("@@ -", RangeText(f1, c1, s1) + rest1);
    GroupsParse(f1, c1, s1, rest1);
    SkipLiteral(" +", RangeText(f2, c2, s2) + rest2);
    GroupsParse(f2, c2, s2, rest2);
    SkipLiteral(" @@", tail);
  }

  /** And no other line is. */
  lemma ParsedIsHeader(line: string)
      returns (f1: string, c1: bool, s1: string, f2: string, c2: bool, s2: string, tail: string)
    requires ParseHeader(line).Some?
    ensures Groups(f1, c1, s1) && Groups(f2, c2, s2) && OneLineRest(tail)
    ensures line == "@@ -" + (RangeText(f1, c1, s1) + (" +" + (RangeText(f2, c2, s2) + (" @@" + tail))))
    ensures ParseHeader(line).value.first == f1 && ParseHeader(line).value.second == s1
  {
    hide RangeText;
    hide ParseNumbers;
    hide Groups;
    var ranges := Skip(line, "@@ -").value;
    c1 := ParseGroups(ranges);
    var old_ := ParseNumbers(ranges).value;
    var second := Skip(old_.rest, " +").value;
    c2 := ParseGroups(second);
    var new_ := ParseNumbers(second).value;
    f1, s1, f2, s2 := old_.first, old_.second, new_.first, new_.second;
    tail := Skip(new_.rest, " @@").value;
    Skipped(line, "@@ -");
    Skipped(old_.rest, " +");
    Skipped(new_.rest, " @@");
  }

  lemma Skipped(s: string, literal: string)
    ensures Skip(s, literal).Some? ==> s == literal + Skip(s, literal).value
  {
  }
}
