/** Arrays of subscriptions, services, clients and guards: attaching their conditions, then filtering and detaching. */
module WaitSets {
  import opened Wrappers
  import opened DdsWaitSets

  datatype RmwCode = OK | ERROR | TIMEOUT | INVALID_ARGUMENT | INCORRECT_IMPLEMENTATION

  /** A slot of the subscription, service or client array; only a client has a response reader to check. */
  datatype Entry = NullEntry | Info(hasReader: bool, condition: Option<int>)

  datatype WaitSetHandle = NullWaitSet | WaitSet(implementation: string, info: Option<WaitSetInfo>)

  datatype WaitSetInfo = WaitSetInfo(hasWaitSet: bool, hasActive: bool, hasAttached: bool)

  /** A null array is as good as an empty one. */
  function Slots<T>(a: array?<T>): seq<T>
    reads a
  {
    if a == null then [] else a[..]
  }

  // ---------- arrays of read conditions ----------

  predicate HasCondition(e: Entry) {
    e.Info? && e.condition.Some?
  }

  predicate AllHaveConditions(es: seq<Entry>) {
    forall i | 0 <= i < |es| :: HasCondition(es[i])
  }

  function ConditionOf(e: Entry): Condition
    requires HasCondition(e)
  {
    ReadCondition(e.condition.value)
  }

  function ConditionsOf(es: seq<Entry>): set<Condition> {
    set i | 0 <= i < |es| && HasCondition(es[i]) :: ConditionOf(es[i])
  }

  predicate Distinct<T(==)>(s: seq<T>) {
    forall i, j | 0 <= i < j < |s| :: s[i] != s[j]
  }

  predicate DistinctConditions(es: seq<Entry>) {
    forall i, j | 0 <= i < j < |es| :: es[i].Info? && es[j].Info? ==> es[i].condition != es[j].condition
  }

  predicate Attachable(es: seq<Entry>, client: bool, refused: set<Condition>) {
    forall i | 0 <= i < |es| :: HasCondition(es[i]) && (client ==> es[i].hasReader) && ConditionOf(es[i]) !in refused
  }

  /** Each slot keeps its handle if and only if its condition is active; no slot moves. */
  function Kept(es: seq<Entry>, active: seq<Condition>): seq<Entry> {
    seq(|es|, i requires 0 <= i < |es| => if HasCondition(es[i]) && ConditionOf(es[i]) in active then es[i] else NullEntry)
  }

  /** Slot by slot. */
  lemma KeptSlots(es: seq<Entry>, active: seq<Condition>)
    ensures |Kept(es, active)| == |es|
    ensures forall i | 0 <= i < |es| ::
              Kept(es, active)[i] ==
              if es[i].Info? && es[i].condition.Some? && ReadCondition(es[i].condition.value) in active then es[i]
              else NullEntry
  {
  }

  lemma OneMoreEntry(es: seq<Entry>, i: nat)
    requires i < |es| && HasCondition(es[i])
    ensures ConditionsOf(es[..i + 1]) == ConditionsOf(es[..i]) + {ConditionOf(es[i])}
  {
    var more := es[..i + 1];
    assert more[i] == es[i] && forall k | 0 <= k < i :: more[k] == es[..i][k];
  }

  method AttachEntries(dds: Dds, entries: array?<Entry>, client: bool) returns (code: RmwCode)
    modifies dds`attached
    ensures code == OK || code == ERROR
    ensures code == OK <==> Attachable(Slots(entries), client, dds.oracle.refused)
    ensures code == OK ==> dds.attached == old(dds.attached) + ConditionsOf(Slots(entries))
  {
    if entries != null {
      ghost var es := entries[..];
      assert ConditionsOf(es[..0]) == {};
      for i := 0 to entries.Length
        invariant Attachable(es[..i], client, dds.oracle.refused)
        invariant dds.attached == old(dds.attached) + ConditionsOf(es[..i])
      {
        var entry := entries[i];
        if entry.NullEntry? {
          return ERROR;
        }
        if client && !entry.hasReader {
          return ERROR;
        }
        if entry.condition.None? {
          return ERROR;
        }
        var attachCode := dds.AttachCondition(ReadCondition(entry.condition.value));
        if attachCode != DDS_OK {
          return ERROR;
        }
        OneMoreEntry(es, i);
      }
      assert es[..entries.Length] == es;
    }
    code := OK;
  }

  method DetachEntries(dds: Dds, entries: array?<Entry>, active: seq<Condition>) returns (code: RmwCode)
    modifies dds`attached, entries
    ensures code == OK || code == ERROR
    ensures code == OK <==>
            AllHaveConditions(old(Slots(entries))) && DistinctConditions(old(Slots(entries))) &&
            ConditionsOf(old(Slots(entries))) <= old(dds.attached)
    ensures code == OK ==> Slots(entries) == Kept(old(Slots(entries)), active)
    ensures code == OK && entries != null ==> forall i | 0 <= i < entries.Length ::
              entries[i] == if old(entries[i]).Info? && old(entries[i]).condition.Some?
                               && ReadCondition(old(entries[i]).condition.value) in active
                            then old(entries[i]) else NullEntry
    ensures code == OK ==> dds.attached == old(dds.attached) - ConditionsOf(old(Slots(entries)))
  {
    if entries != null {
      ghost var es := entries[..];
      for i := 0 to entries.Length
        invariant AllHaveConditions(es[..i]) && DistinctConditions(es[..i])
        invariant ConditionsOf(es[..i]) <= old(dds.attached)
        invariant dds.attached == old(dds.attached) - ConditionsOf(es[..i])
        invariant forall k | i <= k < entries.Length :: entries[k] == es[k]
        invariant forall k | 0 <= k < i :: entries[k] == Kept(es, active)[k]
      {
        var entry := entries[i];
        if entry.NullEntry? {
          return ERROR;
        }
        if entry.condition.None? {
          return ERROR;
        }
        var condition := ReadCondition(entry.condition.value);
        var j := 0;
        while j < |active| && active[j] != condition
          invariant 0 <= j <= |active| && condition !in active[..j]
        {
          j := j + 1;
        }
        if !(j < |active|) {
          entries[i] := NullEntry;
        }
        OneMoreEntry(es, i);
        NewCondition(es, i);
        var detachCode := dds.DetachCondition(condition);
        if detachCode != DDS_OK {
          NotDetachable(es, i, old(dds.attached));
          return ERROR;
        }
      }
      assert es[..entries.Length] == es;
    }
    code := OK;
  }

  /** A condition is new at a position exactly when it repeats none before. */
  lemma NewCondition(es: seq<Entry>, i: nat)
    requires i < |es| && AllHaveConditions(es[..i]) && HasCondition(es[i]) && DistinctConditions(es[..i])
    ensures DistinctConditions(es[..i + 1]) <==> ConditionOf(es[i]) !in ConditionsOf(es[..i])
  {
    var front, more := es[..i], es[..i + 1];
    assert more[i] == es[i] && forall k | 0 <= k < i :: more[k] == front[k] == es[k];
    if ConditionOf(es[i]) in ConditionsOf(front) {
      var k :| 0 <= k < |front| && HasCondition(front[k]) && ConditionOf(front[k]) == ConditionOf(es[i]);
      assert more[k].condition == more[i].condition;
    } else {
      forall k | 0 <= k < i
        ensures more[k].condition != more[i].condition
      {
        assert HasCondition(front[k]);
        assert ConditionOf(front[k]) in ConditionsOf(front);
      }
    }
  }

  lemma NotDetachable(es: seq<Entry>, i: nat, attached: set<Condition>)
    requires i < |es| && HasCondition(es[i]) && ConditionOf(es[i]) !in attached - ConditionsOf(es[..i])
    requires DistinctConditions(es[..i + 1]) ==> ConditionOf(es[i]) !in ConditionsOf(es[..i])
    ensures !(DistinctConditions(es) && ConditionsOf(es) <= attached)
  {
    if DistinctConditions(es) {
      assert DistinctConditions(es[..i + 1]);
      assert ConditionOf(es[i]) in ConditionsOf(es);
    }
  }

  // ---------- guard conditions ----------

  function GuardsOf(gs: seq<Option<int>>): set<Condition> {
    set i | 0 <= i < |gs| && gs[i].Some? :: GuardCondition(gs[i].value)
  }

  predicate AttachableGuards(gs: seq<Option<int>>, refused: set<Condition>) {
    forall i | 0 <= i < |gs| :: gs[i].Some? && GuardCondition(gs[i].value) !in refused
  }

  function KeptGuards(gs: seq<Option<int>>, active: seq<Condition>): seq<Option<int>> {
    seq(|gs|, i requires 0 <= i < |gs| => if gs[i].Some? && GuardCondition(gs[i].value) in active then gs[i] else None)
  }

  lemma KeptGuardSlots(gs: seq<Option<int>>, active: seq<Condition>)
    ensures |KeptGuards(gs, active)| == |gs|
    ensures forall i | 0 <= i < |gs| ::
              KeptGuards(gs, active)[i] == if gs[i].Some? && GuardCondition(gs[i].value) in active then gs[i] else None
    ensures forall g :: g in ActiveGuards(gs, active) <==>
              GuardCondition(g) in active && exists i :: 0 <= i < |gs| && gs[i] == Some(g)
  {
    forall g | GuardCondition(g) in active && exists i :: 0 <= i < |gs| && gs[i] == Some(g)
      ensures g in ActiveGuards(gs, active)
    {
      var i :| 0 <= i < |gs| && gs[i] == Some(g);
      assert gs[i].value == g;
    }
  }

  /** The guards among the slots that are active: those to be reset. */
  function ActiveGuards(gs: seq<Option<int>>, active: seq<Condition>): set<int> {
    set i | 0 <= i < |gs| && gs[i].Some? && GuardCondition(gs[i].value) in active :: gs[i].value
  }

  lemma OneMoreGuard(gs: seq<Option<int>>, i: nat, active: seq<Condition>)
    requires i < |gs| && gs[i].Some?
    ensures GuardsOf(gs[..i + 1]) == GuardsOf(gs[..i]) + {GuardCondition(gs[i].value)}
    ensures ActiveGuards(gs[..i + 1], active) ==
            ActiveGuards(gs[..i], active) + if GuardCondition(gs[i].value) in active then {gs[i].value} else {}
  {
    var more := gs[..i + 1];
    assert more[i] == gs[i] && forall k | 0 <= k < i :: more[k] == gs[..i][k];
  }

  method AttachGuards(dds: Dds, guards: array?<Option<int>>) returns (code: RmwCode)
    modifies dds`attached
    ensures code == OK || code == ERROR
    ensures code == OK <==> AttachableGuards(Slots(guards), dds.oracle.refused)
    ensures code == OK ==> dds.attached == old(dds.attached) + GuardsOf(Slots(guards))
  {
    if guards != null {
      ghost var gs := guards[..];
      assert GuardsOf(gs[..0]) == {};
      for i := 0 to guards.Length
        invariant AttachableGuards(gs[..i], dds.oracle.refused)
        invariant dds.attached == old(dds.attached) + GuardsOf(gs[..i])
      {
        if guards[i].None? {
          return ERROR;
        }
        var attachCode := dds.AttachCondition(GuardCondition(guards[i].value));
        if attachCode != DDS_OK {
          return ERROR;
        }
        OneMoreGuard(gs, i, []);
      }
      assert gs[..guards.Length] == gs;
    }
    code := OK;
  }

  predicate DetachableGuards(gs: seq<Option<int>>, active: seq<Condition>, attached: set<Condition>, stuck: set<int>) {
    && (forall i | 0 <= i < |gs| :: gs[i].Some?)
    && Distinct(gs) && GuardsOf(gs) <= attached && ActiveGuards(gs, active) !! stuck
  }

  method DetachGuards(dds: Dds, guards: array?<Option<int>>, active: seq<Condition>) returns (code: RmwCode)
    modifies dds`attached, dds`triggered, guards
    ensures code == OK || code == ERROR
    ensures code == OK <==> DetachableGuards(old(Slots(guards)), active, old(dds.attached), dds.oracle.stuck)
    ensures code == OK ==> Slots(guards) == KeptGuards(old(Slots(guards)), active)
    ensures code == OK && guards != null ==> forall i | 0 <= i < guards.Length ::
              guards[i] == if old(guards[i]).Some? && GuardCondition(old(guards[i]).value) in active
                           then old(guards[i]) else None
    ensures code == OK ==> dds.attached == old(dds.attached) - GuardsOf(old(Slots(guards)))
    ensures code == OK ==> dds.triggered == old(dds.triggered) - ActiveGuards(old(Slots(guards)), active)
  {
    hide ActiveGuards;
    hide GuardsOf;
    hide Distinct;
    NoGuards(active);
    if guards != null {
      ghost var gs := guards[..];
      for i := 0 to guards.Length
        invariant DetachableGuards(gs[..i], active, old(dds.attached), dds.oracle.stuck)
        invariant dds.attached == old(dds.attached) - GuardsOf(gs[..i])
        invariant dds.triggered == old(dds.triggered) - ActiveGuards(gs[..i], active)
        invariant forall k | i <= k < guards.Length :: guards[k] == gs[k]
        invariant forall k | 0 <= k < i :: guards[k] == KeptGuards(gs, active)[k]
      {
        if guards[i].None? {
          return ERROR;
        }
        var guard := guards[i].value;
        OneMoreGuard(gs, i, active);
        NewGuard(gs, i);
        var j := 0;
        while j < |active| && active[j] != GuardCondition(guard)
          invariant 0 <= j <= |active| && GuardCondition(guard) !in active[..j]
        {
          j := j + 1;
        }
        if j < |active| {
          var resetCode := dds.ResetGuard(guard);
          if resetCode != DDS_OK {
            IsActive(gs, i, active);
            return ERROR;
          }
        } else {
          guards[i] := None;
        }
        var detachCode := dds.DetachCondition(GuardCondition(guard));
        if detachCode != DDS_OK {
          GuardNotDetachable(gs, i, old(dds.attached));
          return ERROR;
        }
      }
      assert gs[..guards.Length] == gs;
    }
    code := OK;
  }

  lemma NoGuards(active: seq<Condition>)
    ensures GuardsOf([]) == {} && ActiveGuards([], active) == {} && Distinct<Option<int>>([])
  {
  }

  lemma IsActive(gs: seq<Option<int>>, i: nat, active: seq<Condition>)
    requires i < |gs| && gs[i].Some? && GuardCondition(gs[i].value) in active
    ensures gs[i].value in ActiveGuards(gs, active)
  {
  }

  lemma NewGuard(gs: seq<Option<int>>, i: nat)
    requires i < |gs| && gs[i].Some? && Distinct(gs[..i])
    ensures Distinct(gs[..i + 1]) <==> GuardCondition(gs[i].value) !in GuardsOf(gs[..i])
  {
    var front, more := gs[..i], gs[..i + 1];
    assert more[i] == gs[i] && forall k | 0 <= k < i :: more[k] == front[k] == gs[k];
    if GuardCondition(gs[i].value) in GuardsOf(front) {
      var k :| 0 <= k < |front| && front[k].Some? && front[k].value == gs[i].value;
      assert more[k] == more[i];
    } else {
      forall k | 0 <= k < i
        ensures more[k] != more[i]
      {
        assert front[k].Some? ==> GuardCondition(front[k].value) in GuardsOf(front);
      }
    }
  }

  lemma GuardNotDetachable(gs: seq<Option<int>>, i: nat, attached: set<Condition>)
    requires i < |gs| && gs[i].Some? && GuardCondition(gs[i].value) !in attached - GuardsOf(gs[..i])
    requires Distinct(gs[..i + 1]) ==> GuardCondition(gs[i].value) !in GuardsOf(gs[..i])
    ensures !(Distinct(gs) && GuardsOf(gs) <= attached)
  {
    if Distinct(gs) {
      assert Distinct(gs[..i + 1]);
      assert GuardCondition(gs[i].value) in GuardsOf(gs);
    }
  }
}
