/** Reading dynamic data into a destination message, member by member. */
module Taking {
  import opened Wrappers
  import opened Introspection
  import opened DynamicTree
  import opened Transport
  import opened TakeOutcomes

  /** From a position on, the members are as they were. */
  ghost predicate SameFrom(before: map<nat, Data>, after: map<nat, Data>, i: nat) {
    forall k: nat | k >= i :: Item(after, k) == Item(before, k)
  }

  lemma SameItem(before: map<nat, Data>, after: map<nat, Data>, i: nat)
    requires SameFrom(before, after, i)
    ensures Item(after, i) == Item(before, i)
  {
  }

  lemma SameFurther(a: map<nat, Data>, b: map<nat, Data>, c: map<nat, Data>, i: nat)
    requires SameFrom(a, b, i) && SameFrom(b, c, i + 1)
    ensures SameFrom(a, c, i + 1)
  {
    hide Item;
  }

  lemma SameAsItself(a: map<nat, Data>)
    ensures SameFrom(a, a, 0)
  {
  }

  method Take(sub: Language, ms: seq<Member>, dd: DynamicData, dests: seq<Value>)
    returns (ok: bool, fields: seq<Value>)
    requires HasTypes(ms, dests)
    modifies dd
    ensures ok <==> AcceptsMembers(ms, old(dd.members))
    ensures ok ==> TakenMembers(sub, ms, old(dd.members), dests, fields)
    ensures ReadableMembers(ms, old(dd.members)) ==>
              ok && fields == DecodeMembers(sub, ms, old(dd.members), dests)
    decreases ms
  {
    ghost var view := dd.members;
    fields := dests;
    for i := 0 to |ms|
      invariant SameFrom(view, dd.members, i)
      invariant |fields| == |ms| && forall k | i <= k < |ms| :: fields[k] == dests[k]
      invariant forall k | 0 <= k < i :: AcceptsMember(ms[k], Item(view, k))
      invariant forall k | 0 <= k < i :: TakenMember(sub, ms[k], Item(view, k), dests[k], fields[k])
    {
      assert Item(dd.members, i) == Item(view, i);
      var got, value := false, fields[i];
      match ms[i].kind {
        case Prim(_) =>
          got, value := GetValue(sub, ms[i], dd, i, fields[i]);
          if got {
            TakenMemberIsDecoded(sub, ms[i], Item(view, i), dests[i], value);
          }
        case Str(_) =>
          got, value := GetStringValue(sub, ms[i], dd, i, fields[i]);
          if got {
            TakenMemberIsDecoded(sub, ms[i], Item(view, i), dests[i], value);
          }
        case Message(_) =>
          got, value := GetMessageValue(sub, ms[i], dd, i, fields[i]);
        case Unsupported(_) =>
          assert !AcceptsMember(ms[i], Item(view, i));
      }
      fields := fields[i := value];
      if !got {
        if ReadableMembers(ms, view) {
          ReadableMemberIsAccepted(ms[i], Item(view, i));
        }
        return false, fields;
      }
    }
    ok := true;
    if ReadableMembers(ms, view) {
      TakenIsDecoded(sub, ms, view, dests, fields);
    }
  }

  method GetArraySize(m: Member, dd: DynamicData, i: nat) returns (ok: bool, n: nat)
    modifies dd
    ensures ok <==> m.Fixed() || Bindable(Item(old(dd.members), i))
    ensures ok ==> n == Count(m, Item(old(dd.members), i))
    ensures SameFrom(old(dd.members), dd.members, i + 1)
    ensures View(Item(dd.members, i)) == View(Item(old(dd.members), i))
    ensures Bindable(Item(dd.members, i)) == Bindable(Item(old(dd.members), i))
  {
    if m.Fixed() {
      return true, m.arraySize;
    }
    n := 0;
    var bound, member := dd.BindComplexMember(i + 1);
    if !bound {
      return false, n;
    }
    n := member.GetMemberCount();
    dd.UnbindComplexMember(member, i + 1);
    ok := true;
  }

  /** get_value and get_value_with_different_types: arrays are converted element by element. */
  method GetValue(sub: Language, m: Member, dd: DynamicData, i: nat, dest: Value) returns (ok: bool, value: Value)
    requires m.kind.Prim? && HasType(m, dest)
    modifies dd
    ensures ok <==> AcceptsMember(m, Item(old(dd.members), i))
    ensures ok ==> ReadableMember(m, Item(old(dd.members), i)) &&
                   value == DecodeMember(sub, m, Item(old(dd.members), i), dest)
    ensures ok ==> SameFrom(old(dd.members), dd.members, i + 1)
  {
    var p := m.kind.p;
    value := dest;
    if m.isArray {
      ghost var d := Item(dd.members, i);
      var n;
      ok, n := GetArraySize(m, dd, i);
      if !ok {
        return;
      }
      var room := Resized(sub, m, dest.elems, n);
      var values;
      ok, values := dd.GetArray(i + 1, AccessorKind(p), n);
      if !ok {
        return;
      }
      ResizedKeepsKind(sub, m, dest.elems, n);
      ghost var room0 := room;
      ghost var done := DecodeElements(sub, m, d, room0);
      for j := 0 to n
        invariant |room| == |done| && forall k | 0 <= k < j || n <= k < |done| :: room[k] == done[k]
      {
        assert DecodeKind(sub, m.kind, Item(View(d), j), room0[j]) == Number(FromDds(p, values[j]));
        room := room[j := Number(FromDds(p, values[j]))];
      }
      assert room == done;
      value := List(room);
    } else {
      var n;
      ok, n := dd.GetPrimitive(i + 1, AccessorKind(p));
      if ok {
        value := Number(FromDds(p, n));
      }
    }
  }

  method GetStringValue(sub: Language, m: Member, dd: DynamicData, i: nat, dest: Value)
    returns (ok: bool, value: Value)
    requires m.kind.Str? && HasType(m, dest)
    modifies dd
    ensures ok <==> AcceptsMember(m, Item(old(dd.members), i))
    ensures ok ==> ReadableMember(m, Item(old(dd.members), i)) &&
                   value == DecodeMember(sub, m, Item(old(dd.members), i), dest)
    ensures ok ==> SameFrom(old(dd.members), dd.members, i + 1)
  {
    value := dest;
    if m.isArray {
      ghost var d := Item(dd.members, i);
      var n;
      ok, n := GetArraySize(m, dd, i);
      if !ok {
        return;
      }
      var room := Resized(sub, m, dest.elems, n);
      var arrayData;
      ok, arrayData := dd.BindComplexMember(i + 1);
      if !ok {
        return;
      }
      ResizedKeepsKind(sub, m, dest.elems, n);
      var strings;
      ok, strings := GetStrings(m, arrayData, n, room, d);
      if !ok {
        return;
      }
      dd.UnbindComplexMember(arrayData, i + 1);
      assert strings == DecodeElements(sub, m, d, room);
      value := List(strings);
    } else {
      var s;
      ok, s := dd.GetString(i + 1);
      if ok {
        value := Text(s);
      }
    }
  }

  /** The loop over the elements of a string array. */
  method GetStrings(m: Member, arrayData: DynamicData, n: nat, room: seq<Value>, ghost d: Option<Data>)
    returns (ok: bool, elems: seq<Value>)
    requires m.kind.Str? && arrayData.members == View(d) && |room| >= n
    ensures ok <==> forall j | 0 <= j < n :: AcceptsKind(m.kind, Item(View(d), j))
    ensures ok ==> |elems| == |room| && forall j | 0 <= j < |room| ::
                     elems[j] == if j < n then Text(Item(View(d), j).value.s) else room[j]
  {
    elems := room;
    for j := 0 to n
      invariant |elems| == |room|
      invariant forall k | 0 <= k < j :: AcceptsKind(m.kind, Item(View(d), k)) &&
                                         elems[k] == Text(Item(View(d), k).value.s)
      invariant forall k | j <= k < |room| :: elems[k] == room[k]
    {
      var s;
      ok, s := arrayData.GetString(j + 1);
      if !ok {
        assert !AcceptsKind(m.kind, Item(View(d), j));
        return;
      }
      elems := elems[j := Text(s)];
    }
    ok := true;
  }

  method GetMessageValue(sub: Language, m: Member, dd: DynamicData, i: nat, dest: Value)
    returns (ok: bool, value: Value)
    requires m.kind.Message? && HasType(m, dest)
    modifies dd
    ensures ok <==> AcceptsMember(m, Item(old(dd.members), i))
    ensures ok ==> TakenMember(sub, m, Item(old(dd.members), i), dest, value)
    ensures ReadableMember(m, Item(old(dd.members), i)) ==>
              ok && value == DecodeMember(sub, m, Item(old(dd.members), i), dest)
    ensures ok ==> SameFrom(old(dd.members), dd.members, i + 1)
    decreases m
  {
    value := dest;
    if m.isArray {
      ghost var d := Item(dd.members, i);
      var n;
      ok, n := GetArraySize(m, dd, i);
      if !ok {
        return;
      }
      var arrayData;
      ok, arrayData := dd.BindComplexMember(i + 1);
      if !ok {
        return;
      }
      var room := Resized(sub, m, dest.elems, n);
      ResizedKeepsKind(sub, m, dest.elems, n);
      var elems := GetElements(sub, m, arrayData, n, room, d);
      dd.UnbindComplexMember(arrayData, i + 1);
      value := List(elems);
      TakenWhenReadable(sub, m, d, dest, value);
    } else {
      ok, value := GetSubmessageValue(sub, m, dd, i, dest);
    }
  }

  /** The loop over the elements of a message array; an element that fails ends it. */
  method GetElements(sub: Language, m: Member, arrayData: DynamicData, n: nat, room: seq<Value>, ghost d: Option<Data>)
    returns (elems: seq<Value>)
    requires m.kind.Message? && arrayData.members == View(d) && n == Count(m, d)
    requires |room| >= n && forall j | 0 <= j < |room| :: HasKind(m.kind, room[j])
    modifies arrayData
    ensures TakenElements(sub, m, d, room, elems)
    decreases m, 1
  {
    hide *;
    elems := room;
    SameAsItself(View(d));
    for j := 0 to n
      invariant SameFrom(View(d), arrayData.members, j)
      invariant |elems| == |room| && forall k | j <= k < |room| :: elems[k] == room[k]
      invariant FirstRefused(m, d, 0) >= j
      invariant forall k | 0 <= k < j :: TakenKind(sub, m.kind, Item(View(d), k), room[k], elems[k])
    {
      ghost var before := arrayData.members;
      SameItem(View(d), before, j);
      var taken, element := GetSubmessageValue(sub, m, arrayData, j, elems[j]);
      SameFurther(View(d), before, arrayData.members, j);
      elems := elems[j := element];
      if !taken {
        break;
      }
    }
    TakenElementsIs(sub, m, d, room, elems);
  }

  method GetSubmessageValue(sub: Language, m: Member, dd: DynamicData, i: nat, dest: Value)
    returns (ok: bool, value: Value)
    requires m.kind.Message? && HasKind(m.kind, dest)
    modifies dd
    ensures ok <==> AcceptsKind(m.kind, Item(old(dd.members), i))
    ensures ok ==> TakenKind(sub, m.kind, Item(old(dd.members), i), dest, value)
    ensures ReadableKind(m.kind, Item(old(dd.members), i)) ==>
              ok && value == DecodeKind(sub, m.kind, Item(old(dd.members), i), dest)
    ensures SameFrom(old(dd.members), dd.members, i + 1)
    decreases m, 0
  {
    value := dest;
    var subData;
    ok, subData := dd.BindComplexMember(i + 1);
    if ok {
      var fields;
      ok, fields := Take(sub, m.kind.schema.members, subData, dest.fields);
      value := Record(fields);
      dd.UnbindComplexMember(subData, i + 1);
    }
  }
}
