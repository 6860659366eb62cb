/** The round trip into a freshly initialised destination. */
module FreshDestinations {
  import opened Introspection
  import opened Transport
  import opened TransportLaws

  predicate NulFreeKind(k: Kind, v: Value)
    requires HasKind(k, v)
    decreases k
  {
    match k
    case Str(_) => NulFree(v.s)
    case Message(schema) => NulFreeMembers(schema.members, v.fields)
    case _ => true
  }

  predicate NulFreeMembers(ms: seq<Member>, vs: seq<Value>)
    requires HasTypes(ms, vs)
    decreases ms
  {
    forall i | 0 <= i < |ms| :: NulFreeMember(ms[i], vs[i])
  }

  predicate NulFreeMember(m: Member, v: Value)
    requires HasType(m, v)
    decreases m
  {
    if m.isArray then forall j | 0 <= j < |v.elems| :: NulFreeKind(m.kind, v.elems[j])
    else NulFreeKind(m.kind, v)
  }

  predicate FreshKind(k: Kind, dest: Value)
    requires HasKind(k, dest)
    decreases k
  {
    k.Message? ==> FreshMembers(k.schema.members, dest.fields)
  }

  /** Every sequence in the destination is empty, at any depth. */
  predicate FreshMembers(ms: seq<Member>, dests: seq<Value>)
    requires HasTypes(ms, dests)
    decreases ms
  {
    forall i | 0 <= i < |ms| :: FreshMember(ms[i], dests[i])
  }

  predicate FreshMember(m: Member, dest: Value)
    requires HasType(m, dest)
    decreases m
  {
    if !m.isArray then FreshKind(m.kind, dest)
    else if !m.Fixed() then dest.elems == []
    else forall j | 0 <= j < |dest.elems| :: FreshKind(m.kind, dest.elems[j])
  }

  lemma {:induction false} DefaultKindIsFresh(k: Kind)
    ensures FreshKind(k, DefaultKind(k))
    decreases k
  {
    if k.Message? {
      forall i | 0 <= i < |k.schema.members|
        ensures FreshMember(k.schema.members[i], DefaultMember(k.schema.members[i]))
      {
        DefaultMemberIsFresh(k.schema.members[i]);
      }
    }
  }

  lemma {:induction false} DefaultMemberIsFresh(m: Member)
    ensures FreshMember(m, DefaultMember(m))
    decreases m
  {
    DefaultKindIsFresh(m.kind);
  }

  lemma {:induction false} FreshKindSettles(sub: Language, k: Kind, v: Value, dest: Value)
    requires HasKind(k, v) && HasKind(k, dest) && FreshKind(k, dest)
    ensures SettlesKind(sub, k, v, dest) <==> NulFreeKind(k, v)
    decreases k
  {
    if k.Message? {
      FreshSettles(sub, k.schema.members, v.fields, dest.fields);
    }
  }

  lemma {:induction false} FreshSettles(sub: Language, ms: seq<Member>, vs: seq<Value>, dests: seq<Value>)
    requires HasTypes(ms, vs) && HasTypes(ms, dests) && FreshMembers(ms, dests)
    ensures SettlesMembers(sub, ms, vs, dests) <==> NulFreeMembers(ms, vs)
    decreases ms
  {
    forall i | 0 <= i < |ms|
      ensures SettlesMember(sub, ms[i], vs[i], dests[i]) <==> NulFreeMember(ms[i], vs[i])
    {
      FreshMemberSettles(sub, ms[i], vs[i], dests[i]);
    }
  }

  lemma {:induction false} FreshMemberSettles(sub: Language, m: Member, v: Value, dest: Value)
    requires HasType(m, v) && HasType(m, dest) && FreshMember(m, dest)
    ensures SettlesMember(sub, m, v, dest) <==> NulFreeMember(m, v)
    decreases m
  {
    if !m.isArray {
      FreshKindSettles(sub, m.kind, v, dest);
    } else {
      DefaultKindIsFresh(m.kind);
      forall j | 0 <= j < |v.elems|
        ensures SettlesKind(sub, m.kind, v.elems[j], DefaultKind(m.kind)) <==> NulFreeKind(m.kind, v.elems[j])
        ensures j < |dest.elems| ==>
                  (SettlesKind(sub, m.kind, v.elems[j], dest.elems[j]) <==> NulFreeKind(m.kind, v.elems[j]))
      {
        FreshKindSettles(sub, m.kind, v.elems[j], DefaultKind(m.kind));
        if j < |dest.elems| {
          FreshKindSettles(sub, m.kind, v.elems[j], dest.elems[j]);
        }
      }
    }
  }

  /** Into a fresh destination, exactly the messages whose strings have no NUL survive the trip. */
  lemma FreshRoundTrip(pub: Language, sub: Language, ms: seq<Member>, vs: seq<Value>, dests: seq<Value>)
    requires HasTypes(ms, vs) && PublishableMembers(ms, vs)
    requires HasTypes(ms, dests) && FreshMembers(ms, dests)
    ensures ReadableMembers(ms, EncodeMembers(pub, ms, vs))
    ensures DecodeMembers(sub, ms, EncodeMembers(pub, ms, vs), dests) == vs <==> NulFreeMembers(ms, vs)
  {
    RoundTrip(pub, sub, ms, vs, dests);
    FreshSettles(sub, ms, vs, dests);
  }
}
