/** std::string searching: find, rfind, substr, and rcpputils::find_and_replace of "::" by "/". */
module StringSearch {
  import opened Wrappers

  const SIZE_MODULUS: nat := 0x1_0000_0000_0000_0000

  /** Subtraction of two size_t values. */
  function Minus(a: nat, b: nat): nat {
    (a - b) % SIZE_MODULUS
  }

  lemma MinusIsExact(a: nat, b: nat)
    requires b <= a < SIZE_MODULUS
    ensures Minus(a, b) == a - b
  {
  }

  predicate OccursAt(s: string, pattern: string, i: nat) {
    i + |pattern| <= |s| && s[i..i + |pattern|] == pattern
  }

  /** The first occurrence at or after a position. */
  function FindFrom(s: string, pattern: string, from: nat): (r: Option<nat>)
    ensures r.Some? ==> from <= r.value && OccursAt(s, pattern, r.value)
    ensures forall i: nat | from <= i && OccursAt(s, pattern, i) :: r.Some? && r.value <= i
    decreases |s| - from
  {
    if from + |pattern| > |s| then None
    else if OccursAt(s, pattern, from) then Some(from)
    else FindFrom(s, pattern, from + 1)
  }

  function Find(s: string, pattern: string): (r: Option<nat>)
    ensures r.Some? ==> OccursAt(s, pattern, r.value)
    ensures forall i: nat | OccursAt(s, pattern, i) :: r.Some? && r.value <= i
  {
    FindFrom(s, pattern, 0)
  }

  /** The last occurrence at or before a position. */
  function RFindFrom(s: string, pattern: string, from: nat): (r: Option<nat>)
    ensures r.Some? ==> r.value <= from && OccursAt(s, pattern, r.value)
    ensures forall i: nat | i <= from && OccursAt(s, pattern, i) :: r.Some? && r.value >= i
  {
    if OccursAt(s, pattern, from) then Some(from)
    else if from == 0 then None
    else RFindFrom(s, pattern, from - 1)
  }

  function RFind(s: string, pattern: string): (r: Option<nat>)
    ensures r.Some? ==> OccursAt(s, pattern, r.value)
    ensures forall i: nat | OccursAt(s, pattern, i) :: r.Some? && r.value >= i
  {
    RFindFrom(s, pattern, |s|)
  }

  function Substr(s: string, pos: nat, count: nat): string
    requires pos <= |s|
  {
    if pos + count <= |s| then s[pos..pos + count] else s[pos..]
  }

  /** Every "::", found from the left, becomes "/". */
  function ColonsToSlashes(s: string): string {
    if s == "" then ""
    else if "::" <= s then "/" + ColonsToSlashes(s[2..])
    else [s[0]] + ColonsToSlashes(s[1..])
  }

  lemma EndsInPattern(s: string, pattern: string)
    ensures OccursAt(s + pattern, pattern, |s|)
    ensures RFind(s + pattern, pattern) == Some(|s|)
  {
    hide RFind;
    assert (s + pattern)[|s|..|s| + |pattern|] == pattern;
    assert OccursAt(s + pattern, pattern, |s|);
  }
}
