/** What a take that reports success leaves in the destination, and when success means that everything was read. */
module TakeOutcomes {
  import opened Wrappers
  import opened Introspection
  import opened DynamicTree
  import opened Transport

  // ---------- the destination after a take ----------

  /** Where the loop over an array stops: at the first element from j on that is refused, or at the end. */
  function FirstRefused(m: Member, d: Option<Data>, j: nat): (f: nat)
    requires j <= Count(m, d)
    ensures j <= f <= Count(m, d)
    ensures forall k | j <= k < f :: AcceptsKind(m.kind, Item(View(d), k))
    ensures f < Count(m, d) ==> !AcceptsKind(m.kind, Item(View(d), f))
    decreases Count(m, d) - j
  {
    if j == Count(m, d) || !AcceptsKind(m.kind, Item(View(d), j)) then j else FirstRefused(m, d, j + 1)
  }

  ghost predicate TakenKind(sub: Language, k: Kind, d: Option<Data>, dest: Value, value: Value)
    requires AcceptsKind(k, d) && HasKind(k, dest)
    decreases k
  {
    match k
    case Prim(p) => value == Number(FromDds(p, d.value.n))
    case Str(_) => value == Text(d.value.s)
    case Message(schema) => value.Record? && TakenMembers(sub, schema.members, View(d), dest.fields, value.fields)
  }

  /** The fields a take that reports success may leave in a destination. */
  ghost predicate TakenMembers(sub: Language, ms: seq<Member>, view: map<nat, Data>, dests: seq<Value>,
      fields: seq<Value>)
    requires AcceptsMembers(ms, view) && HasTypes(ms, dests)
    decreases ms
  {
    |fields| == |ms| && forall i | 0 <= i < |ms| :: TakenMember(sub, ms[i], Item(view, i), dests[i], fields[i])
  }

  ghost predicate TakenMember(sub: Language, m: Member, d: Option<Data>, dest: Value, value: Value)
    requires AcceptsMember(m, d) && HasType(m, dest)
    decreases m
  {
    if !m.isArray then TakenKind(sub, m.kind, d, dest, value)
    else
      var room := Resized(sub, m, dest.elems, Count(m, d));
      ResizedKeepsKind(sub, m, dest.elems, Count(m, d));
      value.List? && TakenElements(sub, m, d, room, value.elems)
  }

  /**
   * Elements before the first refused one are taken; those behind it are what resizing left there. Nothing is said
   * about the refused element itself, which may be partly overwritten.
   */
  ghost predicate TakenElements(sub: Language, m: Member, d: Option<Data>, room: seq<Value>, elems: seq<Value>)
    requires |room| >= Count(m, d) && forall j | 0 <= j < |room| :: HasKind(m.kind, room[j])
    decreases m, 0
  {
    var f := FirstRefused(m, d, 0);
    && |elems| == |room|
    && (forall j | 0 <= j < f :: TakenKind(sub, m.kind, Item(View(d), j), room[j], elems[j]))
    && forall j | f <= j < |room| && !(j == f < Count(m, d)) :: elems[j] == room[j]
  }

  lemma TakenElementsIs(sub: Language, m: Member, d: Option<Data>, room: seq<Value>, elems: seq<Value>)
    requires |room| >= Count(m, d) && forall j | 0 <= j < |room| :: HasKind(m.kind, room[j])
    ensures var f := FirstRefused(m, d, 0);
            TakenElements(sub, m, d, room, elems) <==>
              && |elems| == |room|
              && (forall j | 0 <= j < f :: TakenKind(sub, m.kind, Item(View(d), j), room[j], elems[j]))
              && forall j | f <= j < |room| && !(j == f < Count(m, d)) :: elems[j] == room[j]
  {
    hide TakenKind;
    hide FirstRefused;
  }

  // ---------- everything readable is read ----------

  lemma {:induction false} ReadableKindIsAccepted(k: Kind, d: Option<Data>)
    requires ReadableKind(k, d)
    ensures AcceptsKind(k, d)
    decreases k
  {
    if k.Message? {
      ReadableIsAccepted(k.schema.members, View(d));
    }
  }

  lemma {:induction false} ReadableIsAccepted(ms: seq<Member>, view: map<nat, Data>)
    requires ReadableMembers(ms, view)
    ensures AcceptsMembers(ms, view)
    decreases ms
  {
    forall i | 0 <= i < |ms|
      ensures AcceptsMember(ms[i], Item(view, i))
    {
      ReadableMemberIsAccepted(ms[i], Item(view, i));
    }
  }

  lemma {:induction false} ReadableMemberIsAccepted(m: Member, d: Option<Data>)
    requires ReadableMember(m, d)
    ensures AcceptsMember(m, d)
    ensures m.isArray ==> FirstRefused(m, d, 0) == Count(m, d)
    decreases m
  {
    if !m.isArray {
      ReadableKindIsAccepted(m.kind, d);
    } else if FirstRefused(m, d, 0) < Count(m, d) {
      ReadableKindIsAccepted(m.kind, Item(View(d), FirstRefused(m, d, 0)));
    }
  }

  lemma {:induction false} TakenKindIsDecoded(sub: Language, k: Kind, d: Option<Data>, dest: Value, value: Value)
    requires ReadableKind(k, d) && AcceptsKind(k, d) && HasKind(k, dest)
    ensures TakenKind(sub, k, d, dest, value) <==> value == DecodeKind(sub, k, d, dest)
    decreases k
  {
    if k.Message? && value.Record? {
      TakenIsDecoded(sub, k.schema.members, View(d), dest.fields, value.fields);
    }
  }

  /** Where the tree has all that is asked for, a take that reports success leaves exactly the decoding. */
  lemma {:induction false} TakenIsDecoded(sub: Language, ms: seq<Member>, view: map<nat, Data>, dests: seq<Value>,
      fields: seq<Value>)
    requires ReadableMembers(ms, view) && AcceptsMembers(ms, view) && HasTypes(ms, dests)
    ensures TakenMembers(sub, ms, view, dests, fields) <==> fields == DecodeMembers(sub, ms, view, dests)
    decreases ms
  {
    hide TakenMember;
    hide DecodeMember;
    hide ReadableMember;
    hide AcceptsMember;
    var decoded := DecodeMembers(sub, ms, view, dests);
    if |fields| == |ms| {
      forall i | 0 <= i < |ms|
        ensures TakenMember(sub, ms[i], Item(view, i), dests[i], fields[i]) <==> fields[i] == decoded[i]
      {
        TakenMemberIsDecoded(sub, ms[i], Item(view, i), dests[i], fields[i]);
      }
    }
  }

  lemma {:induction false} TakenMemberIsDecoded(sub: Language, m: Member, d: Option<Data>, dest: Value, value: Value)
    requires ReadableMember(m, d) && AcceptsMember(m, d) && HasType(m, dest)
    ensures TakenMember(sub, m, d, dest, value) <==> value == DecodeMember(sub, m, d, dest)
    decreases m
  {
    if !m.isArray {
      TakenKindIsDecoded(sub, m.kind, d, dest, value);
    } else if value.List? {
      hide Resized;
      hide TakenElements;
      hide DecodeElements;
      var room := Resized(sub, m, dest.elems, Count(m, d));
      ResizedKeepsKind(sub, m, dest.elems, Count(m, d));
      TakenElementsAreDecoded(sub, m, d, room, value.elems);
    }
  }

  lemma {:induction false} TakenElementsAreDecoded(sub: Language, m: Member, d: Option<Data>, room: seq<Value>,
      elems: seq<Value>)
    requires m.isArray && ReadableMember(m, d)
    requires |room| >= Count(m, d) && forall j | 0 <= j < |room| :: HasKind(m.kind, room[j])
    ensures TakenElements(sub, m, d, room, elems) <==> elems == DecodeElements(sub, m, d, room)
    decreases m, 0
  {
    hide TakenKind;
    hide DecodeKind;
    hide HasKind;
    hide Resized;
    ReadableMemberIsAccepted(m, d);
    if |elems| == |room| {
      var decoded := DecodeElements(sub, m, d, room);
      forall j | 0 <= j < Count(m, d)
        ensures TakenKind(sub, m.kind, Item(View(d), j), room[j], elems[j]) <==> elems[j] == decoded[j]
      {
        TakenKindIsDecoded(sub, m.kind, Item(View(d), j), room[j], elems[j]);
      }
    }
  }

  lemma TakenWhenReadable(sub: Language, m: Member, d: Option<Data>, dest: Value, value: Value)
    requires HasType(m, dest) && AcceptsMember(m, d) && TakenMember(sub, m, d, dest, value)
    ensures ReadableMember(m, d) ==> value == DecodeMember(sub, m, d, dest)
  {
    if ReadableMember(m, d) {
      TakenMemberIsDecoded(sub, m, d, dest, value);
    }
  }
}
