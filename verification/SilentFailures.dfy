/** When a take that reports success has read everything: the flag beside the loop over a message array is never set. */
module SilentFailures {
  import opened Wrappers
  import opened Introspection
  import opened DynamicTree
  import opened Transport

  // ---------- conditions on a schema ----------

  /** Some tree is accepted: no type id outside the switch statement is met outside a message array. */
  predicate AcceptableKind(k: Kind)
    decreases k
  {
    match k
    case Message(schema) => AcceptableMembers(schema.members)
    case Unsupported(_) => false
    case _ => true
  }

  predicate AcceptableMembers(ms: seq<Member>)
    decreases ms
  {
    forall i | 0 <= i < |ms| :: AcceptableMember(ms[i])
  }

  predicate AcceptableMember(m: Member)
    decreases m
  {
    if m.isArray then !m.kind.Unsupported? else AcceptableKind(m.kind)
  }

  predicate NoArraysInKind(k: Kind)
    decreases k
  {
    k.Message? ==> NoMessageArrays(k.schema.members)
  }

  /** No array or sequence of messages, nested messages included. */
  predicate NoMessageArrays(ms: seq<Member>)
    decreases ms
  {
    forall i | 0 <= i < |ms| :: NoArrayInMember(ms[i])
  }

  predicate NoArrayInMember(m: Member)
    decreases m
  {
    if m.isArray then !m.kind.Message? else NoArraysInKind(m.kind)
  }

  // ---------- without message arrays, success means that everything was read ----------

  lemma {:induction false} AcceptedKindIsRead(k: Kind, d: Option<Data>)
    requires AcceptsKind(k, d)
    ensures AcceptableKind(k)
    ensures NoArraysInKind(k) ==> ReadableKind(k, d)
    decreases k
  {
    if k.Message? {
      AcceptedIsRead(k.schema.members, View(d));
    }
  }

  lemma {:induction false} AcceptedIsRead(ms: seq<Member>, view: map<nat, Data>)
    requires AcceptsMembers(ms, view)
    ensures AcceptableMembers(ms)
    ensures NoMessageArrays(ms) ==> ReadableMembers(ms, view)
    decreases ms
  {
    hide AcceptsMember;
    hide AcceptableMember;
    hide NoArrayInMember;
    hide ReadableMember;
    forall i | 0 <= i < |ms|
      ensures AcceptableMember(ms[i])
      ensures NoArrayInMember(ms[i]) ==> ReadableMember(ms[i], Item(view, i))
    {
      AcceptedMemberIsRead(ms[i], Item(view, i));
    }
  }

  lemma {:induction false} AcceptedMemberIsRead(m: Member, d: Option<Data>)
    requires AcceptsMember(m, d)
    ensures AcceptableMember(m)
    ensures NoArrayInMember(m) ==> ReadableMember(m, d)
    decreases m
  {
    if !m.isArray {
      AcceptedKindIsRead(m.kind, d);
    }
  }

  // ---------- with one, some tree is taken in part only ----------

  /** A tree that take accepts, with a leaf where the first element of each message array should be. */
  function BrokenMembers(ms: seq<Member>): seq<Option<Data>>
    decreases ms, 0
  {
    seq(|ms|, i requires 0 <= i < |ms| => Some(BrokenMember(ms[i])))
  }

  function BrokenKind(k: Kind): Data
    decreases k
  {
    match k
    case Prim(p) => Leaf(AccessorKind(p), 0)
    case Str(_) => CharString("")
    case Message(schema) => Node(Indexed(BrokenMembers(schema.members)))
    case Unsupported(_) => Node(map[])
  }

  function BrokenMember(m: Member): Data
    decreases m
  {
    if !m.isArray then BrokenKind(m.kind)
    else if m.kind.Message? then Node(map[1 := Leaf(BOOLEAN, 0)])
    else Node(Indexed(BrokenElements(m)))
  }

  /** Complete, for anything but messages. */
  function BrokenElements(m: Member): seq<Option<Data>>
    decreases m, 0
  {
    seq(if m.Fixed() then m.arraySize else 0, _ => Some(BrokenKind(m.kind)))
  }

  lemma BrokenItem(ms: seq<Member>, i: nat)
    requires i < |ms|
    ensures Item(Indexed(BrokenMembers(ms)), i) == Some(BrokenMember(ms[i]))
  {
    IndexedItem(BrokenMembers(ms), i);
  }

  lemma {:induction false} BrokenKindIsAccepted(k: Kind)
    requires AcceptableKind(k)
    ensures AcceptsKind(k, Some(BrokenKind(k)))
    decreases k
  {
    if k.Message? {
      BrokenIsAccepted(k.schema.members);
    }
  }

  lemma {:induction false} BrokenIsAccepted(ms: seq<Member>)
    requires AcceptableMembers(ms)
    ensures AcceptsMembers(ms, Indexed(BrokenMembers(ms)))
    decreases ms
  {
    forall i | 0 <= i < |ms|
      ensures AcceptsMember(ms[i], Item(Indexed(BrokenMembers(ms)), i))
    {
      BrokenItem(ms, i);
      BrokenMemberIsAccepted(ms[i]);
    }
  }

  lemma {:induction false} BrokenMemberIsAccepted(m: Member)
    requires AcceptableMember(m)
    ensures AcceptsMember(m, Some(BrokenMember(m)))
    decreases m
  {
    if !m.isArray {
      BrokenKindIsAccepted(m.kind);
    } else if !m.kind.Message? {
      var elements := BrokenElements(m);
      IndexedCount(elements);
      forall id: nat | 1 <= id <= |elements|
        ensures id in Indexed(elements) && Indexed(elements)[id] == BrokenKind(m.kind)
      {
        IndexedItem(elements, id - 1);
      }
      assert View(Some(BrokenMember(m))) == Indexed(elements) && Count(m, Some(BrokenMember(m))) == |elements|;
      assert m.kind.Prim? ==> BrokenKind(m.kind) == Leaf(AccessorKind(m.kind.p), 0);
    }
  }

  lemma {:induction false} BrokenKindIsUnreadable(k: Kind)
    requires !NoArraysInKind(k)
    ensures !ReadableKind(k, Some(BrokenKind(k)))
    decreases k
  {
    BrokenIsUnreadable(k.schema.members);
  }

  lemma {:induction false} BrokenIsUnreadable(ms: seq<Member>)
    requires !NoMessageArrays(ms)
    ensures !ReadableMembers(ms, Indexed(BrokenMembers(ms)))
    decreases ms
  {
    var i :| 0 <= i < |ms| && !NoArrayInMember(ms[i]);
    BrokenItem(ms, i);
    BrokenMemberIsUnreadable(ms[i]);
  }

  lemma {:induction false} BrokenMemberIsUnreadable(m: Member)
    requires !NoArrayInMember(m)
    ensures !ReadableMember(m, Some(BrokenMember(m)))
    decreases m
  {
    if !m.isArray {
      BrokenKindIsUnreadable(m.kind);
    } else {
      var d := Some(BrokenMember(m));
      assert |map[1 := Leaf(BOOLEAN, 0)]| == 1;
      assert Count(m, d) >= 1 && Item(View(d), 0) == Some(Leaf(BOOLEAN, 0));
      assert !ReadableKind(m.kind, Item(View(d), 0));
    }
  }

  /**
   * Success means that everything was read, for every tree, if and only if the schema has no array or sequence of
   * messages at any depth, or no tree is accepted at all.
   */
  lemma SuccessMeansRead(ms: seq<Member>)
    ensures (forall view :: AcceptsMembers(ms, view) ==> ReadableMembers(ms, view))
       <==> NoMessageArrays(ms) || !AcceptableMembers(ms)
  {
    hide AcceptsMembers;
    hide ReadableMembers;
    hide NoMessageArrays;
    hide AcceptableMembers;
    if NoMessageArrays(ms) || !AcceptableMembers(ms) {
      forall view | AcceptsMembers(ms, view)
        ensures ReadableMembers(ms, view)
      {
        AcceptedIsRead(ms, view);
      }
    } else {
      BrokenIsAccepted(ms);
      BrokenIsUnreadable(ms);
    }
  }

  /** Two messages of one int32 each, of which only the first was written: reported as taken, but not read. */
  lemma HalfWrittenArray()
    ensures var point := Message(Schema("", "Point", [Member("x", Prim(Int32), false, 0, false)]));
            var ms := [Member("points", point, true, 2, false)];
            var view := map[1 := Node(map[1 := Node(map[1 := Leaf(LONG, 7)])])];
            AcceptsMembers(ms, view) && !ReadableMembers(ms, view)
  {
    var x := Member("x", Prim(Int32), false, 0, false);
    var point := Message(Schema("", "Point", [x]));
    var m := Member("points", point, true, 2, false);
    var array_ := map[1 := Node(map[1 := Leaf(LONG, 7)])];
    var view := map[1 := Node(array_)];
    assert Item(view, 0) == Some(Node(array_));
    assert Item(array_, 1) == None;
    assert View(None) == map[];
    assert !ReadableMember(x, Item(map[], 0));
    assert [x][0] == x;
    assert !ReadableMembers([x], map[]);
    assert !ReadableKind(point, Item(array_, 1));
    assert View(Item(view, 0)) == array_ && Count(m, Item(view, 0)) == 2;
    assert !ReadableKind(m.kind, Item(View(Item(view, 0)), 1));
    assert !ReadableMember(m, Item(view, 0));
    assert [m][0] == m;
  }
}
