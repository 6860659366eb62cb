/** Type soundness: the data publish writes and the type create_type_code builds come from one schema and agree. */
module TypeLaws {
  import opened Wrappers
  import opened Introspection
  import opened DynamicTree
  import opened Transport
  import opened TransportLaws
  import opened TypeCodes

  predicate RespectsKind(k: Kind, v: Value)
    requires HasKind(k, v)
    decreases k
  {
    match k
    case Str(upperBound) => |CString(v.s)| <= (if upperBound != 0 then upperBound else INT32_MAX)
    case Message(schema) => RespectsMembers(schema.members, v.fields)
    case _ => true
  }

  /** Every bounded string and every bounded sequence of the message is within its bound. */
  predicate RespectsMembers(ms: seq<Member>, vs: seq<Value>)
    requires HasTypes(ms, vs)
    decreases ms
  {
    forall i | 0 <= i < |ms| :: RespectsMember(ms[i], vs[i])
  }

  predicate RespectsMember(m: Member, v: Value)
    requires HasType(m, v)
    decreases m
  {
    if m.isArray then
      && (m.isUpperBound && m.arraySize != 0 ==> |v.elems| <= m.arraySize)
      && forall j | 0 <= j < |v.elems| :: RespectsKind(m.kind, v.elems[j])
    else RespectsKind(m.kind, v)
  }

  lemma {:induction false} TypedKindIsPublishable(k: Kind, v: Value)
    requires HasKind(k, v) && TypeOfKind(k).Some?
    ensures PublishableKind(k, v)
    decreases k
  {
    if k.Message? {
      TypedIsPublishable(TypeName(k.schema), k.schema, v.fields);
    }
  }

  /** A message whose type could be created is never refused by publish. */
  lemma {:induction false} TypedIsPublishable(name: string, schema: Schema, vs: seq<Value>)
    requires HasTypes(schema.members, vs) && TypeOf(name, schema).Some?
    ensures PublishableMembers(schema.members, vs)
    decreases schema, 0
  {
    forall i | 0 <= i < |schema.members|
      ensures PublishableMember(schema.members[i], vs[i])
    {
      TypedMemberIsPublishable(schema.members[i], vs[i]);
    }
  }

  lemma {:induction false} TypedMemberIsPublishable(m: Member, v: Value)
    requires HasType(m, v) && TypeOfMember(m).Some?
    ensures PublishableMember(m, v)
    decreases m
  {
    if !m.isArray {
      TypedKindIsPublishable(m.kind, v);
    } else {
      forall j | 0 <= j < |v.elems|
        ensures PublishableKind(m.kind, v.elems[j])
      {
        TypedKindIsPublishable(m.kind, v.elems[j]);
      }
    }
  }

  lemma PrimitiveFits(p: Primitive, n: int)
    requires InRange(p, n)
    ensures AccessorKind(p) == PrimitiveKind(p)
    ensures InTcRange(PrimitiveKind(p), ToDds(p, n))
    ensures ToDds(p, n) == if p == Int8 && n < 0 then n + 0x100 else n
  {
  }

  /** Which primitives travel as which kind: the three octet types share one, every other has its own. */
  lemma KindsOfPrimitives(p: Primitive)
    ensures PrimitiveKind(p) == OCTET <==> p == Byte || p == Int8 || p == UInt8
    ensures PrimitiveKind(p) == BOOLEAN <==> p == Bool
    ensures PrimitiveKind(p) == CHAR <==> p == Char
    ensures PrimitiveKind(p) == FLOAT <==> p == Float32
    ensures PrimitiveKind(p) == DOUBLE <==> p == Float64
    ensures PrimitiveKind(p) == SHORT <==> p == Int16
    ensures PrimitiveKind(p) == USHORT <==> p == UInt16
    ensures PrimitiveKind(p) == LONG <==> p == Int32
    ensures PrimitiveKind(p) == ULONG <==> p == UInt32
    ensures PrimitiveKind(p) == LONGLONG <==> p == Int64
    ensures PrimitiveKind(p) == ULONGLONG <==> p == UInt64
  {
  }

  /** The range of a kind is exactly what the primitives that travel as it are converted into. */
  lemma RangeIsExact(kind: TcKind, n: int)
    ensures InTcRange(kind, n) <==>
            exists p, v :: PrimitiveKind(p) == kind && InRange(p, v) && ToDds(p, v) == n
  {
    var p := match kind
      case BOOLEAN => Bool
      case OCTET => UInt8
      case CHAR => Char
      case FLOAT => Float32
      case DOUBLE => Float64
      case SHORT => Int16
      case USHORT => UInt16
      case LONG => Int32
      case ULONG => UInt32
      case LONGLONG => Int64
      case ULONGLONG => UInt64;
    assert PrimitiveKind(p) == kind && ToDds(p, n) == n && (InTcRange(kind, n) <==> InRange(p, n));
  }

  /** Whoever wrote the octet: as int8 it is read modulo 256, and as bool only 1 is true. */
  lemma ReadBack(p: Primitive, n: int)
    requires InTcRange(PrimitiveKind(p), n) || p == Bool
    ensures p == Int8 ==> -0x80 <= FromDds(p, n) < 0x80 && (FromDds(p, n) - n) % 0x100 == 0
    ensures p == Bool ==> FromDds(p, n) == if n == 1 then 1 else 0
    ensures p != Int8 && p != Bool ==> FromDds(p, n) == n
  {
  }

  lemma {:induction false} KindSoundness(pub: Language, k: Kind, v: Value)
    requires HasKind(k, v) && TypeOfKind(k).Some?
    ensures Fits(Some(EncodeKind(pub, k, v)), TypeOfKind(k).value) <==> RespectsKind(k, v)
    decreases k
  {
    match k
    case Prim(p) => PrimitiveFits(p, v.n);
    case Str(_) =>
    case Message(schema) => TypeSoundness(pub, TypeName(schema), schema, v.fields);
  }

  /**
   * The tree publish writes conforms to the type created from the same schema if and only if the message respects
   * its bounds: kinds, array lengths, sequence bounds and nesting agree member by member.
   */
  lemma {:induction false} TypeSoundness(pub: Language, name: string, schema: Schema, vs: seq<Value>)
    requires HasTypes(schema.members, vs) && TypeOf(name, schema).Some?
    ensures Conforms(EncodeMembers(pub, schema.members, vs), TypeOf(name, schema).value.members)
       <==> RespectsMembers(schema.members, vs)
    ensures schema.members == [] ==>
              EncodeMembers(pub, schema.members, vs) == map[] && TypeOf(name, schema).value.members == [DUMMY]
    decreases schema, 0
  {
    var ms, view, members := schema.members, EncodeMembers(pub, schema.members, vs), TypedMembers(schema);
    forall id <- view
      ensures 1 <= id <= |members|
    {
      IndexedKeys(EncodedMembers(pub, ms, vs), id);
    }
    forall i | 0 <= i < |ms|
      ensures members[i].name != DUMMY.name
      ensures Fits(Item(view, i), members[i].tc) <==> RespectsMember(ms[i], vs[i])
    {
      EncodedItem(pub, ms, vs, i);
      MemberSoundness(pub, ms[i], vs[i]);
      assert members[i].name[|ms[i].name|] == '_';
      assert DUMMY.name[|DUMMY.name| - 1] == 'y';
    }
  }

  lemma {:induction false} MemberSoundness(pub: Language, m: Member, v: Value)
    requires HasType(m, v) && TypeOfMember(m).Some?
    ensures Fits(EncodeMember(pub, m, v), TypeOfMember(m).value) <==> RespectsMember(m, v)
    decreases m
  {
    if !m.isArray {
      KindSoundness(pub, m.kind, v);
    } else {
      ElementsSoundness(pub, m, v);
      hide AllFit;
      hide TypeOfKind;
      hide HasKind;
    }
  }

  /** The written elements are all there, under the ids 1 to n, and fit exactly when they respect their bounds. */
  lemma {:induction false} ElementsSoundness(pub: Language, m: Member, v: Value)
    requires m.isArray && HasType(m, v) && TypeOfKind(m.kind).Some?
    ensures var view := View(EncodeMember(pub, m, v));
            && |view| == |v.elems|
            && (AllFit(view, |v.elems|, TypeOfKind(m.kind).value) <==>
                forall j | 0 <= j < |v.elems| :: RespectsKind(m.kind, v.elems[j]))
    decreases m, 0
  {
    var d, written := EncodeMember(pub, m, v), EncodedElements(pub, m, v.elems);
    var tc := TypeOfKind(m.kind).value;
    IndexedCount(written);
    assert View(d) == Indexed(written);
    forall id <- View(d)
      ensures 1 <= id <= |v.elems|
    {
      IndexedKeys(written, id);
    }
    forall j: nat | j < |v.elems|
      ensures Item(View(d), j).Some?
      ensures Fits(Item(View(d), j), tc) <==> RespectsKind(m.kind, v.elems[j])
    {
      EncodedElement(pub, m, v, j);
      KindSoundness(pub, m.kind, v.elems[j]);
    }
  }

  // ---------- every conforming tree is taken ----------

  lemma {:induction false} FittingKindIsReadable(k: Kind, d: Option<Data>)
    requires TypeOfKind(k).Some? && Fits(d, TypeOfKind(k).value)
    ensures ReadableKind(k, d)
    decreases k
  {
    if k.Message? {
      ConformingIsReadable(TypeName(k.schema), k.schema, View(d));
    }
  }

  /**
   * The dual of type soundness: take finds all it asks for in every tree that conforms to the registered type, not
   * only in those publish writes.
   */
  lemma {:induction false} ConformingIsReadable(name: string, schema: Schema, view: map<nat, Data>)
    requires TypeOf(name, schema).Some? && Conforms(view, TypeOf(name, schema).value.members)
    ensures ReadableMembers(schema.members, view)
    decreases schema, 0
  {
    hide Fits;
    hide ReadableMember;
    hide TypeOfMember;
    var ms, members := schema.members, TypedMembers(schema);
    forall i | 0 <= i < |ms|
      ensures ReadableMember(ms[i], Item(view, i))
    {
      assert members[i].name[|ms[i].name|] == '_';
      assert DUMMY.name[|DUMMY.name| - 1] == 'y';
      FittingMemberIsReadable(ms[i], Item(view, i));
    }
  }

  lemma {:induction false} FittingMemberIsReadable(m: Member, d: Option<Data>)
    requires TypeOfMember(m).Some? && Fits(d, TypeOfMember(m).value)
    ensures ReadableMember(m, d)
    decreases m
  {
    if !m.isArray {
      FittingKindIsReadable(m.kind, d);
    } else {
      var tc, n := TypeOfKind(m.kind).value, Count(m, d);
      assert AllFit(View(d), n, tc);
      forall j | 0 <= j < n
        ensures Item(View(d), j).Some? && Fits(Item(View(d), j), tc) && ReadableKind(m.kind, Item(View(d), j))
      {
        FittingKindIsReadable(m.kind, Item(View(d), j));
      }
      FittingElements(m, d);
    }
  }

  lemma FittingElements(m: Member, d: Option<Data>)
    requires m.isArray && TypeOfMember(m).Some? && Bindable(d)
    requires forall j | 0 <= j < Count(m, d) ::
               Item(View(d), j).Some? && Fits(Item(View(d), j), TypeOfKind(m.kind).value)
    requires forall j | 0 <= j < Count(m, d) :: ReadableKind(m.kind, Item(View(d), j))
    ensures AcceptsMember(m, d)
  {
    if m.kind.Prim? {
      forall id: nat | 1 <= id <= Count(m, d)
        ensures id in View(d) && View(d)[id].Leaf? && View(d)[id].kind == AccessorKind(m.kind.p)
      {
        assert Item(View(d), id - 1).Some?;
      }
    }
  }
}
