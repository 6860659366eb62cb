/** 64-bit sequence numbers carried as a signed high and an unsigned low word (DDSI-RTPS 2.2, section 9.3.2). */
module RequestIdentity {

  const TWO_32 := 0x1_0000_0000
  const TWO_64 := 0x1_0000_0000_0000_0000

  /** The words of a sequence number as bit patterns: the high word is read as signed, the low one as unsigned. */
  datatype SequenceNumber = SequenceNumber(high: bv32, low: bv32)

  /** The number a pattern stands for when it is read as signed: the top bit counts negatively. */
  function Signed(negative: bool, pattern: int, modulus: int): int {
    if negative then pattern - modulus else pattern
  }

  function Signed32(word: bv32): int {
    Signed(word >= 0x8000_0000, word as int, TWO_32)
  }

  function Signed64(word: bv64): int {
    Signed(word >= 0x8000_0000_0000_0000, word as int, TWO_64)
  }

  /** Conversion of a signed 32-bit word to 64 bits repeats its sign bit. */
  function SignExtend(word: bv32): (extended: bv64)
    ensures extended << 32 == (word as bv64) << 32
  {
    if word < 0x8000_0000 then word as bv64 else 0xFFFF_FFFF_0000_0000 | (word as bv64)
  }

  /** The high word is shifted up and the low word or'ed in; the repeated sign bits are shifted out again. */
  function JoinWords(high: bv32, low: bv32): (id: bv64)
    ensures id == ((high as bv64) << 32) | (low as bv64)
  {
    (SignExtend(high) << 32) | (low as bv64)
  }

  /** The id a client or a service sees. */
  function Join(n: SequenceNumber): bv64 {
    JoinWords(n.high, n.low)
  }

  /** The two words a reply is related to: the id masked and shifted. */
  function Split(id: bv64): SequenceNumber {
    SequenceNumber(((id & 0xFFFF_FFFF_0000_0000) >> 32) as bv32, (id & 0xFFFF_FFFF) as bv32)
  }

  // ---------- facts about words ----------

  lemma HalvesOfJoined(high: bv32, low: bv32)
    ensures (((((high as bv64) << 32) | (low as bv64)) & 0xFFFF_FFFF_0000_0000) >> 32) as bv32 == high
    ensures ((((high as bv64) << 32) | (low as bv64)) & 0xFFFF_FFFF) as bv32 == low
  {
  }

  lemma JoinedHalves(id: bv64)
    ensures ((((id & 0xFFFF_FFFF_0000_0000) >> 32) as bv32 as bv64) << 32) | ((id & 0xFFFF_FFFF) as bv32 as bv64) == id
  {
  }

  lemma JoinedNumber(high: bv32, low: bv32)
    ensures (((high as bv64) << 32) | (low as bv64)) as int == high as int * TWO_32 + low as int
  {
  }

  lemma SignOfJoined(high: bv32, low: bv32)
    ensures (((high as bv64) << 32) | (low as bv64)) >= 0x8000_0000_0000_0000 <==> high >= 0x8000_0000
  {
  }

  /** The one number in the signed range that is congruent to the pattern. */
  lemma SignedMeans(narrow: bv32, wide: bv64)
    ensures -0x8000_0000 <= Signed32(narrow) < 0x8000_0000
    ensures Signed32(narrow) == narrow as int || Signed32(narrow) == narrow as int - 0x1_0000_0000
    ensures -0x8000_0000_0000_0000 <= Signed64(wide) < 0x8000_0000_0000_0000
    ensures Signed64(wide) == wide as int || Signed64(wide) == wide as int - 0x1_0000_0000_0000_0000
  {
    assert narrow >= 0x8000_0000 <==> narrow as int >= 0x8000_0000;
    assert wide >= 0x8000_0000_0000_0000 <==> wide as int >= 0x8000_0000_0000_0000;
  }

  lemma ExtendedWord(word: bv32, high: bv32)
    requires high == if word < 0x8000_0000 then 0 else 0xFFFF_FFFF
    ensures SignExtend(word) == ((high as bv64) << 32) | (word as bv64)
  {
  }

  lemma ExtendedSign(word: bv32, high: bv32)
    requires high == if word < 0x8000_0000 then 0 else 0xFFFF_FFFF
    ensures high >= 0x8000_0000 <==> word >= 0x8000_0000
  {
  }

  lemma HighAsNumber(high: bv32)
    ensures high == 0 ==> high as int == 0
    ensures high == 0xFFFF_FFFF ==> high as int == 0xFFFF_FFFF
  {
  }

  /** A conversion to 64 bits keeps the signed number. */
  lemma ExtendedNumber(word: bv32)
    ensures Signed64(SignExtend(word)) == Signed32(word)
  {
    var high: bv32 := if word < 0x8000_0000 then 0 else 0xFFFF_FFFF;
    ExtendedWord(word, high);
    ExtendedSign(word, high);
    HighAsNumber(high);
    JoinedNumber(high, word);
    SignOfJoined(high, word);
    hide SignExtend;
  }

  lemma SignedSum(negative: bool, high: int, low: int)
    ensures Signed(negative, high * TWO_32 + low, TWO_64) == Signed(negative, high, TWO_32) * TWO_32 + low
  {
  }

  lemma FloorOf(n: int, q: int, r: int)
    requires n == q * TWO_32 + r && 0 <= r < 0x1_0000_0000
    ensures n / TWO_32 == q && n % TWO_32 == r
  {
  }

  // ---------- join and split ----------

  lemma JoinIgnoresSign(n: SequenceNumber)
    ensures Join(n) == ((n.high as bv64) << 32) | (n.low as bv64)
  {
    hide JoinWords;
  }

  lemma SplitJoin(n: SequenceNumber)
    ensures Split(Join(n)) == n
  {
    JoinIgnoresSign(n);
    HalvesOfJoined(n.high, n.low);
    hide Join;
  }

  lemma JoinSplit(id: bv64)
    ensures Join(Split(id)) == id
  {
    JoinIgnoresSign(Split(id));
    JoinedHalves(id);
    hide Join;
  }

  /** As numbers: the shift multiplies the signed high word, and or'ing in the low word adds it. */
  lemma JoinIsSum(n: SequenceNumber)
    ensures Signed64(Join(n)) == Signed32(n.high) * TWO_32 + n.low as int
  {
    JoinIgnoresSign(n);
    JoinedNumber(n.high, n.low);
    SignOfJoined(n.high, n.low);
    SignedSum(n.high >= 0x8000_0000, n.high as int, n.low as int);
    hide Join;
    hide Signed;
  }

  /** As numbers: the high word is the floor of the quotient and the low word the remainder, negative ids included. */
  lemma SplitIsFloor(id: bv64)
    ensures Signed32(Split(id).high) == Signed64(id) / TWO_32
    ensures Split(id).low as int == Signed64(id) % TWO_32
  {
    hide *;
    JoinSplit(id);
    JoinIsSum(Split(id));
    FloorOf(Signed64(id), Signed32(Split(id).high), Split(id).low as int);
  }

  /**
   * The client's id of a request is the one it finds on the reply: the words on the wire are joined by the client
   * and by the service, split by the service for the reply, and joined again by the client.
   */
  lemma IdSurvives(onWire: SequenceNumber)
    ensures Join(Split(Join(onWire))) == Join(onWire)
    ensures forall other: SequenceNumber :: Join(other) == Join(onWire) ==> other == onWire
  {
    hide *;
    SplitJoin(onWire);
    forall other: SequenceNumber | Join(other) == Join(onWire)
      ensures other == onWire
    {
      SplitJoin(other);
    }
  }
}
