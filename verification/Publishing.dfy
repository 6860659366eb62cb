/** Writing a message into dynamic data, member by member. */
module Publishing {
  import opened Introspection
  import opened DynamicTree
  import opened Transport

  /** Clears the reused sample first, as every publisher does, then writes the message into it. */
  method PublishMessage(pub: Language, schema: Schema, fields: seq<Value>, dd: DynamicData) returns (ok: bool)
    requires HasTypes(schema.members, fields)
    modifies dd
    ensures ok <==> PublishableMembers(schema.members, fields)
    ensures ok ==> dd.members == EncodeMembers(pub, schema.members, fields)
  {
    dd.ClearAllMembers();
    ok := Publish(pub, schema.members, fields, dd);
  }

  method Publish(pub: Language, ms: seq<Member>, vs: seq<Value>, dd: DynamicData) returns (ok: bool)
    requires HasTypes(ms, vs)
    requires dd.members == map[]
    modifies dd
    ensures ok <==> PublishableMembers(ms, vs)
    ensures ok ==> dd.members == EncodeMembers(pub, ms, vs)
    decreases ms
  {
    ghost var written := EncodedMembers(pub, ms, vs);
    for i := 0 to |ms|
      invariant dd.members == Indexed(written[..i])
      invariant forall k | 0 <= k < i :: PublishableMember(ms[k], vs[k])
    {
      IndexedStep(written, i);
      match ms[i].kind {
        case Prim(_) =>
          SetValue(pub, ms[i], vs[i], dd, i);
        case Str(_) =>
          SetStringValue(pub, ms[i], vs[i], dd, i);
        case Message(_) =>
          var published := SetMessageValue(pub, ms[i], vs[i], dd, i);
          if !published {
            return false;
          }
        case Unsupported(_) =>
          assert !PublishableMember(ms[i], vs[i]);
          return false;
      }
    }
    assert written[..|ms|] == written;
    return true;
  }

  /** set_value and set_value_with_different_types: arrays are converted into a temporary, element by element. */
  method SetValue(pub: Language, m: Member, v: Value, dd: DynamicData, i: nat)
    requires m.kind.Prim? && HasType(m, v)
    modifies dd
    ensures dd.members == Put(old(dd.members), i + 1, EncodeMember(pub, m, v))
  {
    var p := m.kind.p;
    if m.isArray {
      var values := new int[|v.elems|];
      for j := 0 to |v.elems|
        invariant dd.members == old(dd.members)
        invariant forall k | 0 <= k < j :: values[k] == ToDds(p, v.elems[k].n)
      {
        values[j] := ToDds(p, v.elems[j].n);
      }
      if !(pub.Cpp? && p == Bool && |v.elems| == 0) {
        EncodedNumbers(pub, m, v.elems, values[..]);
        dd.SetArray(i + 1, AccessorKind(p), values[..]);
      }
    } else {
      dd.SetPrimitive(i + 1, AccessorKind(p), ToDds(p, v.n));
    }
  }

  lemma EncodedNumbers(pub: Language, m: Member, vs: seq<Value>, values: seq<int>)
    requires m.kind.Prim? && |values| == |vs|
    requires forall j | 0 <= j < |vs| :: HasKind(m.kind, vs[j]) && vs[j].Number?
    requires forall j | 0 <= j < |vs| :: values[j] == ToDds(m.kind.p, vs[j].n)
    ensures Leaves(AccessorKind(m.kind.p), values) == EncodedElements(pub, m, vs)
  {
    forall j | 0 <= j < |values|
      ensures Leaves(AccessorKind(m.kind.p), values)[j] == EncodedElements(pub, m, vs)[j]
    {
      assert EncodeKind(pub, m.kind, vs[j]) == Leaf(AccessorKind(m.kind.p), values[j]);
    }
  }

  method SetStringValue(pub: Language, m: Member, v: Value, dd: DynamicData, i: nat)
    requires m.kind.Str? && HasType(m, v)
    requires i + 1 !in dd.members
    modifies dd
    ensures dd.members == Put(old(dd.members), i + 1, EncodeMember(pub, m, v))
  {
    if m.isArray {
      var bound, arrayData := dd.BindComplexMember(i + 1);
      ghost var written := EncodedElements(pub, m, v.elems);
      for j := 0 to |v.elems|
        invariant arrayData.members == Indexed(written[..j])
        invariant dd.members == old(dd.members)
      {
        IndexedStep(written, j);
        assert EncodeKind(pub, m.kind, v.elems[j]) == CharString(CString(v.elems[j].s));
        arrayData.SetString(j + 1, CString(v.elems[j].s));
      }
      assert written[..|v.elems|] == written;
      dd.UnbindComplexMember(arrayData, i + 1);
    } else {
      dd.SetString(i + 1, CString(v.s));
    }
  }

  method SetMessageValue(pub: Language, m: Member, v: Value, dd: DynamicData, i: nat) returns (ok: bool)
    requires m.kind.Message? && HasType(m, v)
    requires i + 1 !in dd.members
    modifies dd
    ensures ok <==> PublishableMember(m, v)
    ensures ok ==> dd.members == Put(old(dd.members), i + 1, EncodeMember(pub, m, v))
    decreases m
  {
    if m.isArray {
      var bound, arrayData := dd.BindComplexMember(i + 1);
      ghost var written := EncodedElements(pub, m, v.elems);
      for j := 0 to |v.elems|
        invariant arrayData.members == Indexed(written[..j])
        invariant dd.members == old(dd.members)
        invariant forall k | 0 <= k < j :: PublishableKind(m.kind, v.elems[k])
      {
        IndexedStep(written, j);
        var published := SetSubmessageValue(pub, m, v.elems[j], arrayData, j);
        if !published {
          return false;
        }
      }
      assert written[..|v.elems|] == written;
      dd.UnbindComplexMember(arrayData, i + 1);
      ok := true;
    } else {
      ok := SetSubmessageValue(pub, m, v, dd, i);
    }
  }

  method SetSubmessageValue(pub: Language, m: Member, v: Value, dd: DynamicData, i: nat) returns (ok: bool)
    requires m.kind.Message? && HasKind(m.kind, v)
    requires i + 1 !in dd.members
    modifies dd
    ensures ok <==> PublishableKind(m.kind, v)
    ensures ok ==> dd.members == old(dd.members)[i + 1 := EncodeKind(pub, m.kind, v)]
    decreases m, 0
  {
    var bound, sub := dd.BindComplexMember(i + 1);
    ok := Publish(pub, m.kind.schema.members, v.fields, sub);
    dd.UnbindComplexMember(sub, i + 1);
  }
}
