/** The names of the struct types inside a created type, which remote graph queries see and demangle. */
module NestedTypes {
  import opened Wrappers
  import opened StringSearch
  import opened Introspection
  import opened TypeNames
  import opened Transport
  import opened TypeCodes
  import opened TypeLaws
  import opened TypeDemangling

  /** What is under an array or a sequence. */
  function Element(tc: TypeCode): TypeCode {
    match tc
    case ArrayTc(_, element) => element
    case SequenceTc(_, element) => element
    case _ => tc
  }

  /**
   * The type of a nested message, alone or in an array or a sequence: its struct type bears the DDS name of its own
   * namespace and name, and is the type created from its schema, so that the same holds at every depth below.
   */
  lemma NestedTypeIs(name: string, schema: Schema, i: nat)
    requires TypeOf(name, schema).Some? && i < |schema.members| && schema.members[i].kind.Message?
    ensures var m, tc := schema.members[i], TypeOf(name, schema).value; var sub := m.kind.schema;
            && tc.StructTc? && tc.name == name && |tc.members| == |schema.members| && tc.members[i].name == m.name + "_"
            && (m.isArray <==> tc.members[i].tc.ArrayTc? || tc.members[i].tc.SequenceTc?)
            && var inner := Element(tc.members[i].tc);
            && inner.StructTc? && TypeOf(inner.name, sub) == Some(inner)
            && inner.name == (if sub.namespace_ == "" then "" else sub.namespace_ + "::") + "dds_::" + sub.name + "_"
  {
    var m := schema.members[i];
    assert TypeOfMember(m).Some? && TypeOfKind(m.kind).Some?;
    assert TypedMembers(schema)[i] == TcMember(m.name + "_", TypeOfMember(m).value);
    MemberType(m);
    SubTypeIs(m.kind.schema);
  }

  /** The name and the type of every member, and the numbers in them. */
  lemma MemberTypeIs(name: string, schema: Schema, i: nat)
    requires TypeOf(name, schema).Some? && i < |schema.members|
    ensures var m, tc := schema.members[i], TypeOf(name, schema).value; var unbounded := 0x7FFF_FFFF;
            && tc.StructTc? && tc.name == name && |tc.members| == |schema.members| && tc.members[i].name == m.name + "_"
            && var inner := Element(tc.members[i].tc);
            && (m.kind.Str? ==> inner == StringTc(if m.kind.upperBound == 0 then unbounded else m.kind.upperBound))
            && (m.kind.Prim? ==> inner == PrimitiveTc(AccessorKind(m.kind.p)))
            && tc.members[i].tc == if !m.isArray then inner
                                   else if m.arraySize == 0 then SequenceTc(unbounded, inner)
                                   else if m.isUpperBound then SequenceTc(m.arraySize, inner)
                                   else ArrayTc(m.arraySize, inner)
  {
    var m := schema.members[i];
    assert TypeOfMember(m).Some? && TypeOfKind(m.kind).Some?;
    assert TypedMembers(schema)[i] == TcMember(m.name + "_", TypeOfMember(m).value);
    MemberType(m);
    if m.kind.Prim? {
      PrimitiveFits(m.kind.p, 0);
    }
    if m.kind.Message? {
      SubTypeIs(m.kind.schema);
    }
  }

  /** A type is created if and only if every member, at every depth, has a known type id and bounds of 32 bits. */
  lemma CreatedExactly(name: string, schema: Schema)
    ensures TypeOf(name, schema).Some? <==>
            forall i | 0 <= i < |schema.members| :: var m := schema.members[i];
              && !m.kind.Unsupported?
              && (m.isArray ==> m.arraySize < 0x1_0000_0000)
              && (m.kind.Str? ==> m.kind.upperBound < 0x1_0000_0000)
              && (m.kind.Message? ==> TypeOf(name, m.kind.schema).Some?)
  {
    forall m: Member
      ensures TypeOfMember(m).Some? <==>
              && !m.kind.Unsupported?
              && (m.isArray ==> m.arraySize < 0x1_0000_0000)
              && (m.kind.Str? ==> m.kind.upperBound < 0x1_0000_0000)
              && (m.kind.Message? ==> TypeOf(name, m.kind.schema).Some?)
    {
      MemberType(m);
    }
  }

  lemma SubTypeIs(sub: Schema)
    requires TypeOfKind(Message(sub)).Some?
    ensures var inner := TypeOfKind(Message(sub)).value;
            && inner.StructTc? && TypeOf(inner.name, sub) == Some(inner)
            && inner.name == (if sub.namespace_ == "" then "" else sub.namespace_ + "::") + "dds_::" + sub.name + "_"
  {
    assert "" + "dds_::" == "dds_::";
  }

  /**
   * The name of a nested struct type demangles to namespace/name of its own message if and only if no component of that
   * namespace ends in "dds_".
   */
  lemma NestedTypeDemangles(name: string, schema: Schema, i: nat, components: seq<string>)
    requires TypeOf(name, schema).Some? && i < |schema.members| && schema.members[i].kind.Message?
    requires schema.members[i].kind.schema.namespace_ == Join(components)
    requires ProperNamespace(components) && ColonFree(schema.members[i].kind.schema.name)
    requires |Join(components)| + |schema.members[i].kind.schema.name| + 9 < SIZE_MODULUS
    ensures TypeOf(name, schema).value.StructTc? && i < |TypeOf(name, schema).value.members|
    ensures var inner := Element(TypeOf(name, schema).value.members[i].tc);
            && inner.StructTc? && inner.name != ""
            && (DemangleType(inner.name) == EachWith(components, "/") + schema.members[i].kind.schema.name
                <==> NoneEndsInDds(components))
  {
    hide *;
    var sub := schema.members[i].kind.schema;
    NestedTypeIs(name, schema, i);
    DdsName(sub.namespace_, sub.name);
    TypeRoundTrip(components, sub.name);
  }

  lemma DdsName(namespace_: string, name: string)
    ensures CreateTypeName(namespace_, name) == (if namespace_ == "" then "" else namespace_ + "::") + "dds_::" + name + "_"
    ensures |CreateTypeName(namespace_, name)| <= |namespace_| + |name| + 9
  {
  }
}
