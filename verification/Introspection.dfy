/** Message descriptions as the introspection type supports give them, and the message values they describe. */
module Introspection {

  const INT32_MAX: nat := 0x7FFF_FFFF
  const UINT32_MAX: nat := 0xFFFF_FFFF

  /** The introspection package in use: it decides how a sequence is stored and resized. */
  datatype Language = Cpp | C

  datatype Primitive =
    | Bool | Byte | Char | Float32 | Float64
    | Int8 | UInt8 | Int16 | UInt16 | Int32 | UInt32 | Int64 | UInt64

  datatype Kind =
    | Prim(p: Primitive)
    | Str(upperBound: nat)       // 0 means no bound
    | Message(schema: Schema)
    | Unsupported(typeId: nat)   // any type id the switch statements do not list

  datatype Schema = Schema(namespace_: string, name: string, members: seq<Member>)

  datatype Member = Member(name: string, kind: Kind, isArray: bool, arraySize: nat, isUpperBound: bool) {
    /** A fixed-size array, as opposed to a bounded or unbounded sequence. */
    predicate Fixed() {
      arraySize != 0 && !isUpperBound
    }
  }

  /** A message in memory. A bool is 0 or 1, a float is its bit pattern. */
  datatype Value = Number(n: int) | Text(s: string) | Record(fields: seq<Value>) | List(elems: seq<Value>)

  predicate InRange(p: Primitive, n: int) {
    match p
    case Bool => 0 <= n <= 1
    case Byte | UInt8 => 0 <= n < 0x100
    case Char | Int8 => -0x80 <= n < 0x80
    case Int16 => -0x8000 <= n < 0x8000
    case UInt16 => 0 <= n < 0x1_0000
    case Int32 => -0x8000_0000 <= n < 0x8000_0000
    case UInt32 | Float32 => 0 <= n < 0x1_0000_0000
    case Int64 => -0x8000_0000_0000_0000 <= n < 0x8000_0000_0000_0000
    case UInt64 | Float64 => 0 <= n < 0x1_0000_0000_0000_0000
  }

  predicate HasKind(k: Kind, v: Value)
    decreases k
  {
    match k
    case Prim(p) => v.Number? && InRange(p, v.n)
    case Str(_) => v.Text?
    case Message(schema) => v.Record? && HasTypes(schema.members, v.fields)
    case Unsupported(_) => true
  }

  predicate HasTypes(ms: seq<Member>, vs: seq<Value>)
    decreases ms
  {
    |ms| == |vs| && forall i | 0 <= i < |ms| :: HasType(ms[i], vs[i])
  }

  /** A sequence has at most as many elements as the 32-bit DDS length type can count. */
  predicate HasType(m: Member, v: Value)
    decreases m
  {
    if m.isArray then
      && v.List?
      && (if m.Fixed() then |v.elems| == m.arraySize else |v.elems| <= INT32_MAX)
      && forall j | 0 <= j < |v.elems| :: HasKind(m.kind, v.elems[j])
    else
      HasKind(m.kind, v)
  }

  /** A freshly initialised value: zeros, empty strings and empty sequences. */
  function DefaultKind(k: Kind): (v: Value)
    ensures HasKind(k, v)
    decreases k
  {
    match k
    case Prim(_) => Number(0)
    case Str(_) => Text("")
    case Message(schema) =>
      Record(seq(|schema.members|, i requires 0 <= i < |schema.members| => DefaultMember(schema.members[i])))
    case Unsupported(_) => Number(0)
  }

  function DefaultMember(m: Member): (v: Value)
    ensures HasType(m, v)
    decreases m
  {
    if !m.isArray then DefaultKind(m.kind)
    else if m.Fixed() then List(seq(m.arraySize, _ => DefaultKind(m.kind)))
    else List([])
  }

  /** What c_str() hands over: the characters before the first NUL. */
  function CString(s: string): (t: string)
    ensures t <= s
    ensures forall i | 0 <= i < |t| :: t[i] != '\0'
    ensures |t| < |s| ==> s[|t|] == '\0'
  {
    if s == [] || s[0] == '\0' then [] else [s[0]] + CString(s[1..])
  }

  predicate NulFree(s: string) {
    '\0' !in s
  }

  lemma CStringKeepsAll(s: string)
    ensures CString(s) == s <==> NulFree(s)
  {
    var t := CString(s);
    if |t| < |s| {
      assert s[|t|] in s;
    } else {
      assert t == s;
    }
  }
}
