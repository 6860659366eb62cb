/** Taking a published message: always possible, and exactly when it gives the message back. */
module TransportLaws {
  import opened Wrappers
  import opened Introspection
  import opened DynamicTree
  import opened Transport

  // ---------- what publish writes, take can read ----------

  lemma EncodedItem(pub: Language, ms: seq<Member>, vs: seq<Value>, i: nat)
    requires HasTypes(ms, vs) && i < |ms|
    ensures Item(EncodeMembers(pub, ms, vs), i) == EncodeMember(pub, ms[i], vs[i])
  {
    IndexedItem(EncodedMembers(pub, ms, vs), i);
  }

  /** A member is refused for an unknown type id, its own or one in an element, at any depth. */
  lemma PublishedExactly(m: Member, v: Value)
    requires HasType(m, v)
    ensures PublishableMember(m, v) <==>
            && !m.kind.Unsupported?
            && (m.kind.Message? && !m.isArray ==>
                HasKind(m.kind, v) && PublishableMembers(m.kind.schema.members, v.fields))
            && (m.kind.Message? && m.isArray ==>
                forall j | 0 <= j < |v.elems| ::
                  HasKind(m.kind, v.elems[j]) && PublishableMembers(m.kind.schema.members, v.elems[j].fields))
  {
  }

  lemma EncodedElement(pub: Language, m: Member, v: Value, j: nat)
    requires m.isArray && HasType(m, v) && j < |v.elems|
    ensures Item(View(EncodeMember(pub, m, v)), j) == Some(EncodeKind(pub, m.kind, v.elems[j]))
  {
    IndexedItem(EncodedElements(pub, m, v.elems), j);
  }

  lemma {:induction false} EncodedKindIsReadable(pub: Language, k: Kind, v: Value)
    requires HasKind(k, v) && PublishableKind(k, v)
    ensures ReadableKind(k, Some(EncodeKind(pub, k, v)))
    decreases k
  {
    if k.Message? {
      EncodedIsReadable(pub, k.schema.members, v.fields);
    }
  }

  /** Every member take asks for is in the tree that publish wrote, whichever type supports the two ends use. */
  lemma {:induction false} EncodedIsReadable(pub: Language, ms: seq<Member>, vs: seq<Value>)
    requires HasTypes(ms, vs) && PublishableMembers(ms, vs)
    ensures ReadableMembers(ms, EncodeMembers(pub, ms, vs))
    decreases ms
  {
    var view := EncodeMembers(pub, ms, vs);
    forall i | 0 <= i < |ms|
      ensures ReadableMember(ms[i], Item(view, i))
    {
      EncodedItem(pub, ms, vs, i);
      EncodedMemberIsReadable(pub, ms[i], vs[i]);
    }
  }

  lemma {:induction false} EncodedMemberIsReadable(pub: Language, m: Member, v: Value)
    requires HasType(m, v) && PublishableMember(m, v)
    ensures ReadableMember(m, EncodeMember(pub, m, v))
    ensures m.isArray ==> Count(m, EncodeMember(pub, m, v)) == |v.elems|
    decreases m
  {
    var d := EncodeMember(pub, m, v);
    if !m.isArray {
      EncodedKindIsReadable(pub, m.kind, v);
    } else {
      IndexedCount(EncodedElements(pub, m, v.elems));
      forall j | 0 <= j < |v.elems|
        ensures ReadableKind(m.kind, Item(View(d), j))
      {
        EncodedElement(pub, m, v, j);
        EncodedKindIsReadable(pub, m.kind, v.elems[j]);
      }
      if m.kind.Prim? {
        forall id: nat | 1 <= id <= |v.elems|
          ensures id in View(d) && View(d)[id].Leaf? && View(d)[id].kind == AccessorKind(m.kind.p)
        {
          assert ReadableKind(m.kind, Item(View(d), id - 1));
        }
      }
    }
  }

  // ---------- the exact condition for a round trip ----------

  lemma PrimitiveRoundTrip(p: Primitive, n: int)
    requires InRange(p, n)
    ensures FromDds(p, ToDds(p, n)) == n
  {
  }

  predicate SettlesKind(sub: Language, k: Kind, v: Value, dest: Value)
    requires HasKind(k, v) && HasKind(k, dest)
    decreases k
  {
    match k
    case Str(_) => NulFree(v.s)
    case Message(schema) => SettlesMembers(sub, schema.members, v.fields, dest.fields)
    case _ => true
  }

  predicate SettlesMembers(sub: Language, ms: seq<Member>, vs: seq<Value>, dests: seq<Value>)
    requires HasTypes(ms, vs) && HasTypes(ms, dests)
    decreases ms
  {
    forall i | 0 <= i < |ms| :: SettlesMember(sub, ms[i], vs[i], dests[i])
  }

  /**
   * No string is cut at a NUL, and nothing stale stays behind in the destination: a C sequence is never shrunk, and a
   * vector<bool> is not touched when the sequence taken is empty. Nested elements are read into the destination's own
   * ones where these survive the resize, which in C they never do in a sequence of messages; further ones are fresh.
   */
  predicate SettlesMember(sub: Language, m: Member, v: Value, dest: Value)
    requires HasType(m, v) && HasType(m, dest)
    decreases m
  {
    if !m.isArray then SettlesKind(sub, m.kind, v, dest)
    else
      && NoStaleTail(sub, m, |v.elems|, |dest.elems|)
      && forall j | 0 <= j < |v.elems| ::
           if j < |dest.elems| && (m.Fixed() || sub.Cpp?) then SettlesKind(sub, m.kind, v.elems[j], dest.elems[j])
           else SettlesKind(sub, m.kind, v.elems[j], DefaultKind(m.kind))
  }

  predicate NoStaleTail(sub: Language, m: Member, count: nat, old_: nat) {
    m.Fixed() || m.kind.Message? || old_ <= count || (sub.Cpp? && (m.kind == Prim(Bool) ==> count > 0))
  }

  predicate SettlesElements(sub: Language, m: Member, vs: seq<Value>, room: seq<Value>)
    requires |room| >= |vs|
    requires forall j | 0 <= j < |vs| :: HasKind(m.kind, vs[j])
    requires forall j | 0 <= j < |room| :: HasKind(m.kind, room[j])
    decreases m, 0
  {
    forall j | 0 <= j < |vs| :: SettlesKind(sub, m.kind, vs[j], room[j])
  }

  /** The room that resizing makes, against the destination's own elements. */
  lemma RoomOfDestination(sub: Language, m: Member, v: Value, dest: Value)
    requires m.isArray && HasType(m, v) && HasType(m, dest)
    ensures var room := Resized(sub, m, dest.elems, |v.elems|);
            && |room| >= |v.elems| && (forall j | 0 <= j < |room| :: HasKind(m.kind, room[j]))
            && (SettlesMember(sub, m, v, dest) <==>
                |room| == |v.elems| && SettlesElements(sub, m, v.elems, room))
  {
    var room := Resized(sub, m, dest.elems, |v.elems|);
    ResizedKeepsKind(sub, m, dest.elems, |v.elems|);
    RoomIsExact(sub, m, dest.elems, |v.elems|);
    forall j | 0 <= j < |v.elems|
      ensures SettlesKind(sub, m.kind, v.elems[j], room[j]) <==>
              if j < |dest.elems| && (m.Fixed() || sub.Cpp?) then SettlesKind(sub, m.kind, v.elems[j], dest.elems[j])
              else SettlesKind(sub, m.kind, v.elems[j], DefaultKind(m.kind))
    {
    }
  }

  lemma RoomIsExact(sub: Language, m: Member, old_: seq<Value>, count: nat)
    requires m.Fixed() ==> |old_| == count
    ensures |Resized(sub, m, old_, count)| == count <==> NoStaleTail(sub, m, count, |old_|)
  {
  }

  lemma {:induction false} KindRoundTrip(pub: Language, sub: Language, k: Kind, v: Value, dest: Value)
    requires HasKind(k, v) && HasKind(k, dest) && PublishableKind(k, v)
    ensures ReadableKind(k, Some(EncodeKind(pub, k, v)))
    ensures DecodeKind(sub, k, Some(EncodeKind(pub, k, v)), dest) == v <==> SettlesKind(sub, k, v, dest)
    decreases k
  {
    EncodedKindIsReadable(pub, k, v);
    match k
    case Prim(p) => PrimitiveRoundTrip(p, v.n);
    case Str(_) => CStringKeepsAll(v.s);
    case Message(schema) => RoundTrip(pub, sub, schema.members, v.fields, dest.fields);
  }

  /**
   * The message taken from a published tree is the message published, through all nesting and whichever type
   * supports the two ends use, if and only if no string has a NUL and nothing stale stays in the destination.
   */
  lemma {:induction false} RoundTrip(
      pub: Language, sub: Language, ms: seq<Member>, vs: seq<Value>, dests: seq<Value>)
    requires HasTypes(ms, vs) && HasTypes(ms, dests) && PublishableMembers(ms, vs)
    ensures ReadableMembers(ms, EncodeMembers(pub, ms, vs))
    ensures DecodeMembers(sub, ms, EncodeMembers(pub, ms, vs), dests) == vs <==> SettlesMembers(sub, ms, vs, dests)
    decreases ms
  {
    EncodedIsReadable(pub, ms, vs);
    var view := EncodeMembers(pub, ms, vs);
    var got := DecodeMembers(sub, ms, view, dests);
    forall i | 0 <= i < |ms|
      ensures got[i] == vs[i] <==> SettlesMember(sub, ms[i], vs[i], dests[i])
    {
      EncodedItem(pub, ms, vs, i);
      MemberRoundTrip(pub, sub, ms[i], vs[i], dests[i]);
    }
    SameElements(got, vs);
  }

  lemma SameElements(a: seq<Value>, b: seq<Value>)
    requires |a| == |b|
    ensures a == b <==> forall i | 0 <= i < |a| :: a[i] == b[i]
  {
  }

  lemma {:induction false} MemberRoundTrip(pub: Language, sub: Language, m: Member, v: Value, dest: Value)
    requires HasType(m, v) && HasType(m, dest) && PublishableMember(m, v)
    ensures ReadableMember(m, EncodeMember(pub, m, v))
    ensures DecodeMember(sub, m, EncodeMember(pub, m, v), dest) == v <==> SettlesMember(sub, m, v, dest)
    decreases m
  {
    var d := EncodeMember(pub, m, v);
    EncodedMemberIsReadable(pub, m, v);
    if !m.isArray {
      KindRoundTrip(pub, sub, m.kind, v, dest);
    } else {
      var room := Resized(sub, m, dest.elems, |v.elems|);
      RoomOfDestination(sub, m, v, dest);
      ElementsRoundTrip(pub, sub, m, v, d, room);
    }
  }

  lemma {:induction false} ElementsRoundTrip(
      pub: Language, sub: Language, m: Member, v: Value, d: Option<Data>, room: seq<Value>)
    requires m.isArray && HasType(m, v) && PublishableMember(m, v)
    requires d == EncodeMember(pub, m, v) && ReadableMember(m, d) && Count(m, d) == |v.elems|
    requires |room| >= |v.elems| && forall j | 0 <= j < |room| :: HasKind(m.kind, room[j])
    ensures DecodeElements(sub, m, d, room) == v.elems
       <==> |room| == |v.elems| && SettlesElements(sub, m, v.elems, room)
    decreases m, 0
  {
    var got := DecodeElements(sub, m, d, room);
    forall j | 0 <= j < |v.elems|
      ensures got[j] == v.elems[j] <==> SettlesKind(sub, m.kind, v.elems[j], room[j])
    {
      EncodedElement(pub, m, v, j);
      KindRoundTrip(pub, sub, m.kind, v.elems[j], room[j]);
    }
  }

  // ---------- what a take leaves in an array or a sequence ----------

  /**
   * Element by element, for every tree that has all that is asked for. A C++ vector is as long as the sequence taken,
   * unless it is an empty one of bools, and its elements are read into the old ones as far as these go; so are the
   * elements of a fixed array. A C sequence of messages starts afresh. Any other C sequence keeps what is behind the
   * elements taken.
   */
  lemma TakenSequence(sub: Language, m: Member, d: Option<Data>, dest: Value)
    requires m.isArray && ReadableMember(m, d) && HasType(m, dest)
    ensures var old_, got := dest.elems, DecodeMember(sub, m, d, dest).elems;
            var n := if m.arraySize != 0 && !m.isUpperBound then m.arraySize else |View(d)|;
            && |got| == (if sub.Cpp? && !m.Fixed() && m.kind == Prim(Bool) && n == 0 then |old_|
                         else if sub.C? && !m.kind.Message? && |old_| > n then |old_|
                         else n)
            && (forall j | 0 <= j < n ::
                  got[j] == if j < |old_| && (m.Fixed() || sub.Cpp?) then DecodeKind(sub, m.kind, Item(View(d), j), old_[j])
                            else DecodeKind(sub, m.kind, Item(View(d), j), DefaultKind(m.kind)))
            && forall j | n <= j < |got| :: got[j] == old_[j]
  {
    var n, room := Count(m, d), Resized(sub, m, dest.elems, Count(m, d));
    ResizedKeepsKind(sub, m, dest.elems, n);
    forall j | 0 <= j < n
      ensures DecodeKind(sub, m.kind, Item(View(d), j), room[j]) ==
              if j < |dest.elems| && (m.Fixed() || sub.Cpp?) then DecodeKind(sub, m.kind, Item(View(d), j), dest.elems[j])
              else DecodeKind(sub, m.kind, Item(View(d), j), DefaultKind(m.kind))
    {
    }
  }
}
