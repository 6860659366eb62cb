/**
 * The part of the DDS dynamic data interface the program uses: a tree whose nodes are indexed by 1-based member id.
 * An array or a sequence of n elements is a node with the ids 1 to n. Library calls succeed when the data asked for
 * is there.
 */
module DynamicTree {
  import opened Wrappers

  datatype TcKind =
    | BOOLEAN | OCTET | CHAR | FLOAT | DOUBLE | SHORT | USHORT | LONG | ULONG | LONGLONG | ULONGLONG

  datatype Data = Leaf(kind: TcKind, n: int) | CharString(s: string) | Node(members: map<nat, Data>)

  function Lookup(members: map<nat, Data>, id: nat): Option<Data> {
    if id in members then Some(members[id]) else None
  }

  /** The member at a 0-based position. */
  function Item(members: map<nat, Data>, i: nat): Option<Data> {
    Lookup(members, i + 1)
  }

  predicate Bindable(d: Option<Data>) {
    d.None? || d.value.Node?
  }

  /** What one sees through a binding: a member nobody wrote is empty. */
  function View(d: Option<Data>): map<nat, Data> {
    if d.Some? && d.value.Node? then d.value.members else map[]
  }

  function Put(members: map<nat, Data>, id: nat, d: Option<Data>): map<nat, Data> {
    if d.None? then members else members[id := d.value]
  }

  /** The members with ids 1, 2, ... as listed; None leaves an id out. */
  function Indexed(ds: seq<Option<Data>>): map<nat, Data> {
    if ds == [] then map[] else Put(Indexed(ds[..|ds| - 1]), |ds|, ds[|ds| - 1])
  }

  lemma IndexedStep(ds: seq<Option<Data>>, i: nat)
    requires i < |ds|
    ensures Indexed(ds[..i + 1]) == Put(Indexed(ds[..i]), i + 1, ds[i])
    ensures i + 1 !in Indexed(ds[..i])
  {
    assert ds[..i + 1][..i] == ds[..i];
    IndexedKeys(ds[..i], i + 1);
  }

  lemma {:induction false} IndexedKeys(ds: seq<Option<Data>>, id: nat)
    ensures id in Indexed(ds) <==> 1 <= id <= |ds| && ds[id - 1].Some?
  {
    if ds != [] {
      IndexedKeys(ds[..|ds| - 1], id);
    }
  }

  lemma {:induction false} IndexedItem(ds: seq<Option<Data>>, i: nat)
    requires i < |ds|
    ensures Item(Indexed(ds), i) == ds[i]
  {
    if i == |ds| - 1 {
      IndexedKeys(ds[..i], i + 1);
    } else {
      IndexedItem(ds[..|ds| - 1], i);
    }
  }

  lemma {:induction false} IndexedCount(ds: seq<Option<Data>>)
    requires forall j | 0 <= j < |ds| :: ds[j].Some?
    ensures |Indexed(ds)| == |ds|
  {
    if ds != [] {
      var n := |ds| - 1;
      IndexedCount(ds[..n]);
      IndexedKeys(ds[..n], n + 1);
      assert |Indexed(ds[..n])[n + 1 := ds[n].value]| == n + 1;
    }
  }

  function Leaves(kind: TcKind, values: seq<int>): seq<Option<Data>> {
    seq(|values|, j requires 0 <= j < |values| => Some(Leaf(kind, values[j])))
  }

  predicate HasLeaves(view: map<nat, Data>, kind: TcKind, count: nat) {
    forall id: nat | 1 <= id <= count :: id in view && view[id].Leaf? && view[id].kind == kind
  }

  class DynamicData {
    var members: map<nat, Data>

    constructor (members: map<nat, Data>)
      ensures this.members == members
    {
      this.members := members;
    }

    method ClearAllMembers()
      modifies this
      ensures members == map[]
    {
      members := map[];
    }

    method SetPrimitive(id: nat, kind: TcKind, n: int)
      modifies this
      ensures members == old(members)[id := Leaf(kind, n)]
    {
      members := members[id := Leaf(kind, n)];
    }

    method SetArray(id: nat, kind: TcKind, values: seq<int>)
      modifies this
      ensures members == old(members)[id := Node(Indexed(Leaves(kind, values)))]
    {
      members := members[id := Node(Indexed(Leaves(kind, values)))];
    }

    method SetString(id: nat, s: string)
      modifies this
      ensures members == old(members)[id := CharString(s)]
    {
      members := members[id := CharString(s)];
    }

    method GetPrimitive(id: nat, kind: TcKind) returns (ok: bool, n: int)
      ensures ok <==> id in members && members[id].Leaf? && members[id].kind == kind
      ensures ok ==> members[id].n == n
    {
      n := 0;
      ok := id in members && members[id].Leaf? && members[id].kind == kind;
      if ok {
        n := members[id].n;
      }
    }

    method GetArray(id: nat, kind: TcKind, count: nat) returns (ok: bool, values: seq<int>)
      ensures ok <==> HasLeaves(View(Lookup(members, id)), kind, count)
      ensures ok ==> |values| == count && forall j | 0 <= j < count :: values[j] == View(Lookup(members, id))[j + 1].n
    {
      var view := View(Lookup(members, id));
      values := [];
      ok := HasLeaves(view, kind, count);
      if ok {
        values := seq(count, j requires 0 <= j < count => view[j + 1].n);
      }
    }

    method GetString(id: nat) returns (ok: bool, s: string)
      ensures ok <==> id in members && members[id].CharString?
      ensures ok ==> members[id].s == s
    {
      s := "";
      ok := id in members && members[id].CharString?;
      if ok {
        s := members[id].s;
      }
    }

    method GetMemberCount() returns (n: nat)
      ensures n == |members|
    {
      n := |members|;
    }

    /** Binds another handle to a member; a member nobody wrote yet is bound as an empty one. */
    method BindComplexMember(id: nat) returns (ok: bool, sub: DynamicData)
      ensures fresh(sub)
      ensures ok <==> Bindable(Lookup(members, id))
      ensures sub.members == View(Lookup(members, id))
    {
      ok := id !in members || members[id].Node?;
      sub := new DynamicData(View(Lookup(members, id)));
    }

    /** Ends a binding; the member then exists, even when nothing was written through the binding. */
    method UnbindComplexMember(sub: DynamicData, id: nat)
      modifies this
      ensures members == old(members)[id := Node(old(sub.members))]
    {
      members := members[id := Node(sub.members)];
    }
  }
}
