/** The DDS type built from a message description, and its agreement with the data that publish writes. */
module TypeCodes {
  import opened Wrappers
  import opened Introspection
  import opened DynamicTree
  import TypeNames

  datatype TypeCode =
    | PrimitiveTc(kind: TcKind)
    | StringTc(maxLength: nat)
    | ArrayTc(length: nat, element: TypeCode)
    | SequenceTc(bound: nat, element: TypeCode)
    | StructTc(name: string, members: seq<TcMember>)

  datatype TcMember = TcMember(name: string, tc: TypeCode)

  const DUMMY := TcMember("_dummy", PrimitiveTc(BOOLEAN))

  // ---------- the type of a schema ----------

  /** The primitive type codes, as the switch of create_type_code lists them. */
  function PrimitiveKind(p: Primitive): TcKind {
    match p
    case Bool => BOOLEAN
    case Byte => OCTET
    case Char => CHAR
    case Float32 => FLOAT
    case Float64 => DOUBLE
    case Int8 => OCTET
    case UInt8 => OCTET
    case Int16 => SHORT
    case UInt16 => USHORT
    case Int32 => LONG
    case UInt32 => ULONG
    case Int64 => LONGLONG
    case UInt64 => ULONGLONG
  }

  function TypeName(schema: Schema): string {
    TypeNames.CreateTypeName(schema.namespace_, schema.name)
  }

  function TypeOfKind(k: Kind): Option<TypeCode>
    decreases k
  {
    match k
    case Prim(p) => Some(PrimitiveTc(PrimitiveKind(p)))
    case Str(upperBound) =>
      if upperBound > UINT32_MAX then None
      else Some(StringTc(if upperBound != 0 then upperBound else INT32_MAX))
    case Message(schema) => TypeOf(TypeName(schema), schema)
    case Unsupported(_) => None
  }

  function TypeOfMember(m: Member): Option<TypeCode>
    decreases m
  {
    match TypeOfKind(m.kind)
    case None => None
    case Some(tc) =>
      if !m.isArray then Some(tc)
      else if m.arraySize > UINT32_MAX then None
      else if m.Fixed() then Some(ArrayTc(m.arraySize, tc))
      else Some(SequenceTc(if m.arraySize != 0 then m.arraySize else INT32_MAX, tc))
  }

  function TypeOf(name: string, schema: Schema): Option<TypeCode>
    decreases schema
  {
    if exists i | 0 <= i < |schema.members| :: TypeOfMember(schema.members[i]).None? then None
    else Some(StructTc(name, TypedMembers(schema)))
  }

  function TypedMembers(schema: Schema): seq<TcMember>
    requires forall i | 0 <= i < |schema.members| :: TypeOfMember(schema.members[i]).Some?
    decreases schema, 0
  {
    if schema.members == [] then
      [DUMMY]
    else
      seq(|schema.members|, i requires 0 <= i < |schema.members| =>
        TcMember(schema.members[i].name + "_", TypeOfMember(schema.members[i]).value))
  }

  lemma MemberWithoutType(name: string, schema: Schema, i: nat)
    requires i < |schema.members| && TypeOfMember(schema.members[i]).None?
    ensures TypeOf(name, schema) == None
  {
  }

  lemma MemberType(m: Member)
    ensures TypeOfMember(m) ==
            if TypeOfKind(m.kind).None? then None
            else if !m.isArray then TypeOfKind(m.kind)
            else if m.arraySize > UINT32_MAX then None
            else if m.Fixed() then Some(ArrayTc(m.arraySize, TypeOfKind(m.kind).value))
            else Some(SequenceTc(if m.arraySize != 0 then m.arraySize else INT32_MAX, TypeOfKind(m.kind).value))
  {
  }

  lemma AllTyped(name: string, schema: Schema, members: seq<TcMember>)
    requires |members| == |schema.members|
    requires forall k | 0 <= k < |members| ::
               TypeOfMember(schema.members[k]) == Some(members[k].tc) && members[k].name == schema.members[k].name + "_"
    ensures TypeOf(name, schema) == Some(StructTc(name, if members == [] then [DUMMY] else members))
  {
    assert forall k | 0 <= k < |members| ::
        members[k] == TcMember(schema.members[k].name + "_", TypeOfMember(schema.members[k]).value);
    assert TypedMembers(schema) == if members == [] then [DUMMY] else members;
  }

  /** create_type_code: adds the members one by one, and the dummy member to an empty message. */
  method CreateTypeCode(name: string, schema: Schema) returns (tc: Option<TypeCode>)
    ensures tc == TypeOf(name, schema)
    decreases schema
  {
    hide TypeOf;
    hide TypeOfMember;
    hide TypedMembers;
    var members: seq<TcMember> := [];
    for i := 0 to |schema.members|
      invariant |members| == i
      invariant forall k | 0 <= k < i :: TypeOfMember(schema.members[k]) == Some(members[k].tc)
      invariant forall k | 0 <= k < i :: members[k].name == schema.members[k].name + "_"
    {
      var m := schema.members[i];
      MemberType(m);
      if TypeOfMember(m).None? {
        MemberWithoutType(name, schema, i);
      }
      var memberTc;
      match m.kind {
        case Prim(p) =>
          memberTc := PrimitiveTc(PrimitiveKind(p));
        case Str(upperBound) =>
          var maxStringSize := INT32_MAX;
          if upperBound != 0 {
            if upperBound > UINT32_MAX {
              return None;
            }
            maxStringSize := upperBound;
          }
          memberTc := StringTc(maxStringSize);
        case Message(sub) =>
          var subTc := CreateTypeCode(TypeName(sub), sub);
          if subTc.None? {
            return None;
          }
          memberTc := subTc.value;
        case Unsupported(_) =>
          return None;
      }
      if m.isArray {
        if m.arraySize != 0 {
          if m.arraySize > UINT32_MAX {
            return None;
          }
          if !m.isUpperBound {
            memberTc := ArrayTc(m.arraySize, memberTc);
          } else {
            memberTc := SequenceTc(m.arraySize, memberTc);
          }
        } else {
          memberTc := SequenceTc(INT32_MAX, memberTc);
        }
      }
      members := members + [TcMember(m.name + "_", memberTc)];
    }
    AllTyped(name, schema, members);
    if |schema.members| == 0 {
      members := members + [DUMMY];
      assert members == [DUMMY];
    }
    tc := Some(StructTc(name, members));
  }

  // ---------- conformance of data to a type ----------

  /** Only a sequence (then empty) and the dummy member of an empty message may be left unwritten. */
  predicate Fits(d: Option<Data>, tc: TypeCode)
    decreases tc, 0
  {
    match tc
    case PrimitiveTc(kind) => d.Some? && d.value.Leaf? && d.value.kind == kind && InTcRange(kind, d.value.n)
    case StringTc(maxLength) => d.Some? && d.value.CharString? && |d.value.s| <= maxLength
    case ArrayTc(length, element) => d.Some? && d.value.Node? && AllFit(d.value.members, length, element)
    case SequenceTc(bound, element) =>
      Bindable(d) && |View(d)| <= bound && AllFit(View(d), |View(d)|, element)
    case StructTc(_, members) => d.Some? && d.value.Node? && Conforms(d.value.members, members)
  }

  predicate AllFit(view: map<nat, Data>, count: nat, element: TypeCode)
    decreases element, 1
  {
    && (forall id <- view :: 1 <= id <= count)
    && forall j: nat | j < count :: Item(view, j).Some? && Fits(Item(view, j), element)
  }

  predicate Conforms(view: map<nat, Data>, members: seq<TcMember>)
    decreases members
  {
    && (forall id <- view :: 1 <= id <= |members|)
    && forall i | 0 <= i < |members| ::
         (Item(view, i).None? && members[i].name == DUMMY.name) || Fits(Item(view, i), members[i].tc)
  }

  predicate InTcRange(kind: TcKind, n: int) {
    match kind
    case BOOLEAN => 0 <= n <= 1
    case OCTET => 0 <= n < 0x100
    case CHAR => -0x80 <= n < 0x80
    case SHORT => -0x8000 <= n < 0x8000
    case USHORT => 0 <= n < 0x1_0000
    case LONG => -0x8000_0000 <= n < 0x8000_0000
    case ULONG | FLOAT => 0 <= n < 0x1_0000_0000
    case LONGLONG => -0x8000_0000_0000_0000 <= n < 0x8000_0000_0000_0000
    case ULONGLONG | DOUBLE => 0 <= n < 0x1_0000_0000_0000_0000
  }
}
