/** What publishing a message leaves in a cleared tree, and what taking a tree makes of a destination message. */
module Transport {
  import opened Wrappers
  import opened Introspection
  import opened DynamicTree

  /** The kind in the name of the accessor each introspection type is routed to. */
  function AccessorKind(p: Primitive): TcKind {
    match p
    case Bool => BOOLEAN
    case Byte | Int8 | UInt8 => OCTET
    case Char => CHAR
    case Float32 => FLOAT
    case Float64 => DOUBLE
    case Int16 => SHORT
    case UInt16 => USHORT
    case Int32 => LONG
    case UInt32 => ULONG
    case Int64 => LONGLONG
    case UInt64 => ULONGLONG
  }

  /** Conversion to the DDS type: only int8_t changes its value, into an unsigned octet. */
  function ToDds(p: Primitive, n: int): int {
    if p == Int8 then n % 0x100 else n
  }

  /** Conversion back: an octet read as int8_t is reinterpreted, a DDS_Boolean is compared with true. */
  function FromDds(p: Primitive, n: int): int {
    if p == Int8 then (if n >= 0x80 then n - 0x100 else n)
    else if p == Bool then (if n == 1 then 1 else 0)
    else n
  }

  // ---------- publish ----------

  /** Publishing reports success exactly when it meets no type id outside its switch statement. */
  predicate PublishableKind(k: Kind, v: Value)
    requires HasKind(k, v)
    decreases k
  {
    match k
    case Message(schema) => PublishableMembers(schema.members, v.fields)
    case Unsupported(_) => false
    case _ => true
  }

  predicate PublishableMembers(ms: seq<Member>, vs: seq<Value>)
    requires HasTypes(ms, vs)
    decreases ms
  {
    forall i | 0 <= i < |ms| :: PublishableMember(ms[i], vs[i])
  }

  predicate PublishableMember(m: Member, v: Value)
    requires HasType(m, v)
    decreases m
  {
    if m.isArray then !m.kind.Unsupported? && forall j | 0 <= j < |v.elems| :: PublishableKind(m.kind, v.elems[j])
    else PublishableKind(m.kind, v)
  }

  function EncodeKind(pub: Language, k: Kind, v: Value): Data
    requires HasKind(k, v)
    decreases k
  {
    match k
    case Prim(p) => Leaf(AccessorKind(p), ToDds(p, v.n))
    case Str(_) => CharString(CString(v.s))
    case Message(schema) => Node(EncodeMembers(pub, schema.members, v.fields))
    case Unsupported(_) => Node(map[])
  }

  function EncodeMembers(pub: Language, ms: seq<Member>, vs: seq<Value>): map<nat, Data>
    requires HasTypes(ms, vs)
    decreases ms, 1
  {
    Indexed(EncodedMembers(pub, ms, vs))
  }

  function EncodedMembers(pub: Language, ms: seq<Member>, vs: seq<Value>): seq<Option<Data>>
    requires HasTypes(ms, vs)
    decreases ms, 0
  {
    seq(|ms|, i requires 0 <= i < |ms| => EncodeMember(pub, ms[i], vs[i]))
  }

  /** An empty vector<bool> of the C++ type support is the one member that is not written at all. */
  function EncodeMember(pub: Language, m: Member, v: Value): Option<Data>
    requires HasType(m, v)
    decreases m
  {
    if !m.isArray then Some(EncodeKind(pub, m.kind, v))
    else if pub.Cpp? && m.kind == Prim(Bool) && v.elems == [] then None
    else Some(Node(Indexed(EncodedElements(pub, m, v.elems))))
  }

  function EncodedElements(pub: Language, m: Member, vs: seq<Value>): seq<Option<Data>>
    requires forall j | 0 <= j < |vs| :: HasKind(m.kind, vs[j])
    decreases m, 0
  {
    seq(|vs|, j requires 0 <= j < |vs| => Some(EncodeKind(pub, m.kind, vs[j])))
  }

  // ---------- take ----------

  /** The number of elements a take reads: the declared size of an array, else what the tree holds. */
  function Count(m: Member, d: Option<Data>): nat {
    if m.Fixed() then m.arraySize else |View(d)|
  }

  predicate AcceptsKind(k: Kind, d: Option<Data>)
    decreases k
  {
    match k
    case Prim(p) => d.Some? && d.value.Leaf? && d.value.kind == AccessorKind(p)
    case Str(_) => d.Some? && d.value.CharString?
    case Message(schema) => Bindable(d) && AcceptsMembers(schema.members, View(d))
    case Unsupported(_) => false
  }

  /**
   * When taking reports success. An array of messages is reported as taken even if one of its elements is not:
   * the error flag beside that loop is never set.
   */
  predicate AcceptsMembers(ms: seq<Member>, view: map<nat, Data>)
    decreases ms
  {
    forall i | 0 <= i < |ms| :: AcceptsMember(ms[i], Item(view, i))
  }

  predicate AcceptsMember(m: Member, d: Option<Data>)
    decreases m
  {
    if !m.isArray then AcceptsKind(m.kind, d)
    else
      match m.kind
      case Prim(p) => (m.Fixed() || Bindable(d)) && HasLeaves(View(d), AccessorKind(p), Count(m, d))
      case Str(_) => Bindable(d) && forall j | 0 <= j < Count(m, d) :: AcceptsKind(m.kind, Item(View(d), j))
      case Message(_) => Bindable(d)
      case Unsupported(_) => false
  }

  /** A tree in which taking finds all it asks for, elements of message arrays included. */
  predicate ReadableKind(k: Kind, d: Option<Data>)
    decreases k
  {
    match k
    case Message(schema) => Bindable(d) && ReadableMembers(schema.members, View(d))
    case _ => AcceptsKind(k, d)
  }

  predicate ReadableMembers(ms: seq<Member>, view: map<nat, Data>)
    decreases ms
  {
    forall i | 0 <= i < |ms| :: ReadableMember(ms[i], Item(view, i))
  }

  predicate ReadableMember(m: Member, d: Option<Data>)
    decreases m
  {
    if !m.isArray then ReadableKind(m.kind, d)
    else
      && AcceptsMember(m, d)
      && forall j | 0 <= j < Count(m, d) :: ReadableKind(m.kind, Item(View(d), j))
  }

  /** The sequence a destination offers for count elements, before they are written. */
  function Resized(sub: Language, m: Member, old_: seq<Value>, count: nat): (r: seq<Value>)
    ensures m.Fixed() ==> r == old_
    ensures !m.Fixed() ==> |r| >= count
  {
    if m.Fixed() then old_
    else if m.kind.Message? && sub.C? then seq(count, _ => DefaultKind(m.kind))
    else if sub.C? then (if |old_| < count then seq(count, _ => DefaultKind(m.kind)) else old_)
    else if m.kind == Prim(Bool) && count == 0 then old_
    else if count <= |old_| then old_[..count]
    else old_ + seq(count - |old_|, _ => DefaultKind(m.kind))
  }

  function DecodeKind(sub: Language, k: Kind, d: Option<Data>, dest: Value): Value
    requires ReadableKind(k, d) && HasKind(k, dest)
    decreases k
  {
    match k
    case Prim(p) => Number(FromDds(p, d.value.n))
    case Str(_) => Text(d.value.s)
    case Message(schema) => Record(DecodeMembers(sub, schema.members, View(d), dest.fields))
  }

  function DecodeMembers(sub: Language, ms: seq<Member>, view: map<nat, Data>, dests: seq<Value>): seq<Value>
    requires ReadableMembers(ms, view) && HasTypes(ms, dests)
    decreases ms
  {
    seq(|ms|, i requires 0 <= i < |ms| => DecodeMember(sub, ms[i], Item(view, i), dests[i]))
  }

  function DecodeMember(sub: Language, m: Member, d: Option<Data>, dest: Value): Value
    requires ReadableMember(m, d) && HasType(m, dest)
    decreases m
  {
    if !m.isArray then DecodeKind(sub, m.kind, d, dest)
    else
      var room := Resized(sub, m, dest.elems, Count(m, d));
      ResizedKeepsKind(sub, m, dest.elems, Count(m, d));
      List(DecodeElements(sub, m, d, room))
  }

  function DecodeElements(sub: Language, m: Member, d: Option<Data>, room: seq<Value>): (r: seq<Value>)
    requires m.isArray && ReadableMember(m, d) && |room| >= Count(m, d)
    requires forall j | 0 <= j < |room| :: HasKind(m.kind, room[j])
    ensures |r| == |room|
    decreases m, 0
  {
    seq(|room|, j requires 0 <= j < |room| =>
      if j < Count(m, d) then DecodeKind(sub, m.kind, Item(View(d), j), room[j]) else room[j])
  }

  lemma ResizedKeepsKind(sub: Language, m: Member, old_: seq<Value>, count: nat)
    requires forall j | 0 <= j < |old_| :: HasKind(m.kind, old_[j])
    ensures forall j | 0 <= j < |Resized(sub, m, old_, count)| :: HasKind(m.kind, Resized(sub, m, old_, count)[j])
  {
  }
}
