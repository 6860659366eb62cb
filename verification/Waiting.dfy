/** The whole wait call: its event part, its body with all early exits, and the cleanup that runs on every exit. */
module Waiting {
  import opened Wrappers
  import opened EventMasks
  import opened DdsWaitSets
  import opened WaitSets

  // ---------- events ----------

  /** The events of an event array, whose slots the caller fills. */
  function EventsOf(slots: seq<Option<Event>>): seq<Event>
    requires forall i | 0 <= i < |slots| :: slots[i].Some?
  {
    seq(|slots|, i requires 0 <= i < |slots| => slots[i].value)
  }

  predicate AllGatherable(events: seq<Event>) {
    forall i | 0 <= i < |events| :: Gatherable(events[i])
  }

  function StatusConditions(entities: set<Entity>): set<Condition> {
    set e | e in entities :: StatusCondition(e)
  }

  function MasksFor(events: seq<Event>): map<Entity, StatusMask> {
    map e | e in Entities(events) :: MaskFor(events, e)
  }

  /** __gather_event_conditions: every mask is collected before the first one is set. */
  method GatherEventConditions(dds: Dds, slots: array?<Option<Event>>) returns (code: RmwCode, entities: set<Entity>)
    requires forall i | 0 <= i < |Slots(slots)| :: Slots(slots)[i].Some?
    modifies dds`enabled
    ensures code == OK <==> AllGatherable(EventsOf(Slots(slots)))
    ensures code == OK || ((code == INVALID_ARGUMENT || code == ERROR) && dds.enabled == old(dds.enabled))
    ensures code == OK ==> entities == Entities(EventsOf(Slots(slots)))
    ensures code == OK ==> dds.enabled == old(dds.enabled) + MasksFor(EventsOf(Slots(slots)))
  {
    hide StatusFor;
    NoEvents();
    hide MaskFor;
    hide Entities;
    entities := {};
    code := OK;
    ghost var events := EventsOf(Slots(slots));
    if slots != null {
      var masks: map<Entity, StatusMask> := map[];
      for i := 0 to slots.Length
        invariant dds.enabled == old(dds.enabled)
        invariant AllGatherable(events[..i])
        invariant masks.Keys == Entities(events[..i])
        invariant forall e <- masks :: masks[e] == MaskFor(events[..i], e)
      {
        assert slots[i] == Slots(slots)[i];
        var event := slots[i].value;
        assert events[i] == event;
        if !event.hasData {
          return INVALID_ARGUMENT, {};
        }
        if event.entity.None? {
          return ERROR, {};
        }
        if !event.hasCondition {
          return ERROR, {};
        }
        assert events[..i + 1] == events[..i] + [event];
        OneMoreEvent(events[..i], event);
        if StatusFor(event.eventType).Some? {
          var entity := event.entity.value;
          var mask := if entity in masks then masks[entity] else {};
          masks := masks[entity := {StatusFor(event.eventType).value} + mask];
        }
      }
      assert events[..slots.Length] == events;
      EnableStatuses(dds, masks);
      entities := masks.Keys;
      assert masks == MasksFor(events);
    } else {
      assert events == [] && MasksFor(events) == map[];
    }
  }

  lemma NoEvents()
    ensures Entities([]) == {} && forall e :: MaskFor([], e) == {}
  {
  }

  method EnableStatuses(dds: Dds, masks: map<Entity, StatusMask>)
    modifies dds`enabled
    ensures dds.enabled == old(dds.enabled) + masks
  {
    var rest := masks.Keys;
    while rest != {}
      invariant rest <= masks.Keys
      invariant dds.enabled == old(dds.enabled) + (masks - rest)
      decreases |rest|
    {
      SomeEntity(rest);
      var e :| e in rest;
      assert masks - (rest - {e}) == (masks - rest)[e := masks[e]];
      rest := rest - {e};
      dds.SetEnabledStatuses(e, masks[e]);
    }
    assert masks - rest == masks;
  }

  lemma SomeEntity(s: set<Entity>)
    requires s != {}
    ensures exists e: Entity :: e in s
  {
    assert (forall e: Entity :: e !in s) ==> s == {};
  }

  /** Each event slot survives if and only if its own status has changed on its entity. */
  function KeptEvents(slots: seq<Option<Event>>, changes: map<Entity, StatusMask>): seq<Option<Event>> {
    seq(|slots|, i requires 0 <= i < |slots| =>
      if slots[i].Some? && Active(slots[i].value, changes) then slots[i] else None)
  }

  lemma KeptEventSlots(slots: seq<Option<Event>>, changes: map<Entity, StatusMask>)
    ensures |KeptEvents(slots, changes)| == |slots|
    ensures forall i | 0 <= i < |slots| ::
              KeptEvents(slots, changes)[i] ==
              if slots[i].Some? && slots[i].value.entity.Some? && StatusFor(slots[i].value.eventType).Some?
                 && slots[i].value.entity.value in changes
                 && StatusFor(slots[i].value.eventType).value in changes[slots[i].value.entity.value]
              then slots[i] else None
  {
    hide StatusFor;
  }

  method HandleActiveEventConditions(dds: Dds, slots: array?<Option<Event>>) returns (code: RmwCode)
    requires forall i | 0 <= i < |Slots(slots)| :: Slots(slots)[i].Some?
    modifies slots
    ensures (forall i | 0 <= i < |old(Slots(slots))| :: Gatherable(old(Slots(slots))[i].value)) ==> code == OK
    ensures code == OK || code == INVALID_ARGUMENT || code == ERROR
    ensures code == OK ==> Slots(slots) == KeptEvents(old(Slots(slots)), dds.oracle.changes)
    ensures code == OK && slots != null ==> forall i | 0 <= i < slots.Length ::
              var event := old(slots[i]).value;
              slots[i] == if event.entity.Some? && StatusFor(event.eventType).Some?
                             && event.entity.value in dds.oracle.changes
                             && StatusFor(event.eventType).value in dds.oracle.changes[event.entity.value]
                          then old(slots[i]) else None
  {
    if slots != null {
      ghost var before := slots[..];
      assert before == Slots(slots);
      assert forall i | 0 <= i < |before| :: before[i].Some?;
      for i := 0 to slots.Length
        invariant forall k | i <= k < slots.Length :: slots[k] == before[k]
        invariant forall k | 0 <= k < i :: slots[k] == KeptEvents(before, dds.oracle.changes)[k]
      {
        var event := slots[i].value;
        if !event.hasData {
          return INVALID_ARGUMENT;
        }
        if event.entity.None? {
          return ERROR;
        }
        var changes := if event.entity.value in dds.oracle.changes then dds.oracle.changes[event.entity.value] else {};
        var isActive := false;
        if StatusFor(event.eventType).Some? {
          isActive := StatusFor(event.eventType).value in changes;
        }
        if !isActive {
          slots[i] := None;
        }
      }
    }
    code := OK;
  }

  method AttachStatusConditions(dds: Dds, entities: set<Entity>) returns (code: RmwCode)
    modifies dds`attached
    ensures code == OK || code == ERROR
    ensures code == OK <==> StatusConditions(entities) !! dds.oracle.refused
    ensures code == OK ==> dds.attached == old(dds.attached) + StatusConditions(entities)
  {
    var rest := entities;
    while rest != {}
      invariant rest <= entities
      invariant StatusConditions(entities - rest) !! dds.oracle.refused
      invariant dds.attached == old(dds.attached) + StatusConditions(entities - rest)
      decreases |rest|
    {
      SomeEntity(rest);
      var e :| e in rest;
      assert StatusConditions(entities - (rest - {e})) == StatusConditions(entities - rest) + {StatusCondition(e)};
      rest := rest - {e};
      var attachCode := dds.AttachCondition(StatusCondition(e));
      if attachCode != DDS_OK {
        return ERROR;
      }
    }
    assert entities - rest == entities;
    code := OK;
  }

  // ---------- the call ----------

  predicate Usable(handle: WaitSetHandle, implementation: string) {
    handle.WaitSet? && handle.implementation == implementation && handle.info.Some?
    && handle.info.value.hasWaitSet && handle.info.value.hasActive
  }

  predicate Cleanable(handle: WaitSetHandle, implementation: string, oracle: Oracle) {
    handle.WaitSet? && handle.implementation == implementation && handle.info.Some?
    && handle.info.value.hasWaitSet && handle.info.value.hasAttached && oracle.listable
  }

  /** The caller's arrays, as they are when wait is called. */
  datatype Arrays = Arrays(subscriptions: seq<Entry>, guards: seq<Option<int>>, services: seq<Entry>,
                           clients: seq<Entry>, events: seq<Event>)

  predicate AllAttachable(a: Arrays, refused: set<Condition>) {
    && Attachable(a.subscriptions, false, refused) && Attachable(a.services, false, refused)
    && Attachable(a.clients, true, refused) && AttachableGuards(a.guards, refused)
    && AllGatherable(a.events) && StatusConditions(Entities(a.events)) !! refused
  }

  function Explicit(a: Arrays): set<Condition> {
    ConditionsOf(a.subscriptions) + ConditionsOf(a.services) + ConditionsOf(a.clients) + GuardsOf(a.guards)
  }

  function Implicit(a: Arrays): set<Condition> {
    StatusConditions(Entities(a.events))
  }

  /** No condition is passed twice, in one array or in two. */
  predicate PairwiseDistinct(a: Arrays) {
    DistinctConditions(a.subscriptions + a.services + a.clients) && Distinct(a.guards)
  }

  /** Everything that must go well, all of it known before the call. */
  predicate Succeeds(a: Arrays, oracle: Oracle) {
    && AllAttachable(a, oracle.refused) && PairwiseDistinct(a)
    && (oracle.waitCode == DDS_OK || oracle.waitCode == DDS_TIMEOUT)
    && ActiveGuards(a.guards, oracle.active) !! oracle.stuck
  }

  lemma DistinctInParts(a: Arrays)
    requires AllHaveConditions(a.subscriptions) && AllHaveConditions(a.services) && AllHaveConditions(a.clients)
    ensures DistinctConditions(a.subscriptions + a.services + a.clients) <==>
            && DistinctConditions(a.subscriptions) && DistinctConditions(a.services) && DistinctConditions(a.clients)
            && ConditionsOf(a.services) !! ConditionsOf(a.subscriptions)
            && ConditionsOf(a.clients) !! ConditionsOf(a.subscriptions) + ConditionsOf(a.services)
  {
    DistinctAppend(a.subscriptions, a.services);
    DistinctAppend(a.subscriptions + a.services, a.clients);
    ConditionsAppend(a.subscriptions, a.services);
  }

  lemma ConditionsAppend(a: seq<Entry>, b: seq<Entry>)
    ensures ConditionsOf(a + b) == ConditionsOf(a) + ConditionsOf(b)
  {
    assert forall i | 0 <= i < |b| :: (a + b)[|a| + i] == b[i];
    assert forall i | 0 <= i < |a| :: (a + b)[i] == a[i];
    forall c | c in ConditionsOf(a) + ConditionsOf(b)
      ensures c in ConditionsOf(a + b)
    {
      if c in ConditionsOf(a) {
        var i :| 0 <= i < |a| && HasCondition(a[i]) && ConditionOf(a[i]) == c;
        assert HasCondition((a + b)[i]) && ConditionOf((a + b)[i]) == c;
      } else {
        var i :| 0 <= i < |b| && HasCondition(b[i]) && ConditionOf(b[i]) == c;
        assert HasCondition((a + b)[|a| + i]) && ConditionOf((a + b)[|a| + i]) == c;
      }
    }
  }

  lemma DistinctAppend(a: seq<Entry>, b: seq<Entry>)
    requires AllHaveConditions(a) && AllHaveConditions(b)
    ensures DistinctConditions(a + b) <==>
            DistinctConditions(a) && DistinctConditions(b) && ConditionsOf(b) !! ConditionsOf(a)
    ensures AllHaveConditions(a + b)
  {
    var s := a + b;
    assert forall i | 0 <= i < |b| :: s[|a| + i] == b[i];
    assert forall i | 0 <= i < |a| :: s[i] == a[i];
    if DistinctConditions(s) {
      forall i, j | 0 <= i < j < |b|
        ensures b[i].condition != b[j].condition
      {
        assert s[|a| + i].condition != s[|a| + j].condition;
      }
      forall i, j | 0 <= i < |a| && 0 <= j < |b|
        ensures ConditionOf(a[i]) != ConditionOf(b[j])
      {
        assert s[i].condition != s[|a| + j].condition;
      }
    }
    if ConditionsOf(b) !! ConditionsOf(a) && DistinctConditions(a) && DistinctConditions(b) {
      forall i, j | 0 <= i < j < |s|
        ensures s[i].condition != s[j].condition
      {
        if i < |a| <= j {
          assert ConditionOf(a[i]) in ConditionsOf(a) && ConditionOf(b[j - |a|]) in ConditionsOf(b);
        } else if |a| <= i {
          assert s[i] == b[i - |a|] && s[j] == b[j - |a|];
        }
      }
    }
  }

  /** The caller's arrays; the three arrays of read conditions are arrays of their own. */
  class Call {
    const subscriptions: array?<Entry>
    const guards: array?<Option<int>>
    const services: array?<Entry>
    const clients: array?<Entry>
    const events: array?<Option<Event>>

    constructor (subscriptions: array?<Entry>, guards: array?<Option<int>>, services: array?<Entry>,
        clients: array?<Entry>, events: array?<Option<Event>>)
      ensures this.subscriptions == subscriptions && this.guards == guards && this.services == services
      ensures this.clients == clients && this.events == events
    {
      this.subscriptions, this.guards, this.services := subscriptions, guards, services;
      this.clients, this.events := clients, events;
    }

    ghost predicate Valid()
      reads events
    {
      && (subscriptions == null || (subscriptions != services && subscriptions != clients))
      && (services == null || services != clients)
      && forall i | 0 <= i < |Slots(events)| :: Slots(events)[i].Some?
    }

    ghost function Contents(): Arrays
      reads subscriptions, guards, services, clients, events
      requires Valid()
    {
      Arrays(Slots(subscriptions), Slots(guards), Slots(services), Slots(clients), EventsOf(Slots(events)))
    }

    /** The arrays afterwards: every slot kept exactly when its condition is active, none moved. */
    ghost predicate Filtered(before: Arrays, active: seq<Condition>)
      reads subscriptions, guards, services, clients
    {
      && Slots(subscriptions) == Kept(before.subscriptions, active)
      && Slots(guards) == KeptGuards(before.guards, active)
      && Slots(services) == Kept(before.services, active)
      && Slots(clients) == Kept(before.clients, active)
    }
  }

  lemma AttachFacts(a: Arrays, refused: set<Condition>, attached: set<Condition>)
    ensures AllAttachable(a, refused) <==>
            && Attachable(a.subscriptions, false, refused) && Attachable(a.services, false, refused)
            && Attachable(a.clients, true, refused) && AttachableGuards(a.guards, refused)
            && AllGatherable(a.events) && StatusConditions(Entities(a.events)) !! refused
    ensures attached + Explicit(a) + Implicit(a) ==
            attached + ConditionsOf(a.subscriptions) + StatusConditions(Entities(a.events)) + GuardsOf(a.guards)
            + ConditionsOf(a.services) + ConditionsOf(a.clients)
  {
    hide ConditionsOf;
    hide GuardsOf;
    hide StatusConditions;
    hide Attachable;
    hide AttachableGuards;
    hide AllGatherable;
  }

  method AttachAll(dds: Dds, call: Call) returns (code: RmwCode)
    requires call.Valid()
    modifies dds`attached, dds`enabled
    ensures code != TIMEOUT && code != INCORRECT_IMPLEMENTATION
    ensures code == OK <==> AllAttachable(old(call.Contents()), dds.oracle.refused)
    ensures code == OK ==>
              dds.attached == old(dds.attached) + Explicit(old(call.Contents())) + Implicit(old(call.Contents()))
    ensures code == OK ==> dds.enabled == old(dds.enabled) + MasksFor(old(call.Contents()).events)
  {
    hide *;
    ContentsParts(call);
    AttachFacts(call.Contents(), dds.oracle.refused, dds.attached);
    code := AttachEntries(dds, call.subscriptions, false);
    if code != OK {
      return;
    }
    var entities;
    code, entities := GatherEventConditions(dds, call.events);
    if code != OK {
      return;
    }
    code := AttachStatusConditions(dds, entities);
    if code != OK {
      return;
    }
    code := AttachGuards(dds, call.guards);
    if code != OK {
      return;
    }
    code := AttachEntries(dds, call.services, false);
    if code != OK {
      return;
    }
    code := AttachEntries(dds, call.clients, true);
  }

  lemma DetachableParts(gs: seq<Option<int>>, active: seq<Condition>, attached: set<Condition>, stuck: set<int>)
    ensures DetachableGuards(gs, active, attached, stuck) <==>
            && (forall i | 0 <= i < |gs| :: gs[i].Some?)
            && Distinct(gs) && GuardsOf(gs) <= attached && ActiveGuards(gs, active) !! stuck
  {
  }

  method DetachSubscriptionsAndGuards(dds: Dds, call: Call) returns (code: RmwCode)
    requires AllHaveConditions(Slots(call.subscriptions)) && ConditionsOf(Slots(call.subscriptions)) <= dds.attached
    requires forall i | 0 <= i < |Slots(call.guards)| :: Slots(call.guards)[i].Some?
    requires GuardsOf(Slots(call.guards)) <= dds.attached
    requires GuardsOf(Slots(call.guards)) !! ConditionsOf(Slots(call.subscriptions))
    modifies dds`attached, dds`triggered, call.subscriptions, call.guards
    ensures code == OK || code == ERROR
    ensures code == OK <==>
            DistinctConditions(old(Slots(call.subscriptions))) && Distinct(old(Slots(call.guards))) &&
            ActiveGuards(old(Slots(call.guards)), dds.oracle.active) !! dds.oracle.stuck
    ensures code == OK ==>
              dds.attached ==
              old(dds.attached) - ConditionsOf(old(Slots(call.subscriptions))) - GuardsOf(old(Slots(call.guards)))
    ensures code == OK ==>
              dds.triggered == old(dds.triggered) - ActiveGuards(old(Slots(call.guards)), dds.oracle.active)
    ensures code == OK ==> Slots(call.subscriptions) == Kept(old(Slots(call.subscriptions)), dds.oracle.active)
    ensures code == OK ==> Slots(call.guards) == KeptGuards(old(Slots(call.guards)), dds.oracle.active)
  {
    hide *;
    code := DetachEntries(dds, call.subscriptions, dds.oracle.active);
    if code != OK {
      return;
    }
    DetachableParts(Slots(call.guards), dds.oracle.active, dds.attached, dds.oracle.stuck);
    code := DetachGuards(dds, call.guards, dds.oracle.active);
  }

  method DetachServicesAndClients(dds: Dds, call: Call) returns (code: RmwCode)
    requires AllHaveConditions(Slots(call.services)) && AllHaveConditions(Slots(call.clients))
    requires call.services == null || call.services != call.clients
    modifies dds`attached, call.services, call.clients
    ensures code == OK || code == ERROR
    ensures code == OK <==>
            DistinctConditions(old(Slots(call.services))) && DistinctConditions(old(Slots(call.clients))) &&
            ConditionsOf(old(Slots(call.services))) <= old(dds.attached) &&
            ConditionsOf(old(Slots(call.clients))) <= old(dds.attached) - ConditionsOf(old(Slots(call.services)))
    ensures code == OK ==>
              dds.attached ==
              old(dds.attached) - ConditionsOf(old(Slots(call.services))) - ConditionsOf(old(Slots(call.clients)))
    ensures code == OK ==> Slots(call.services) == Kept(old(Slots(call.services)), dds.oracle.active)
    ensures code == OK ==> Slots(call.clients) == Kept(old(Slots(call.clients)), dds.oracle.active)
  {
    hide *;
    code := DetachEntries(dds, call.services, dds.oracle.active);
    if code != OK {
      return;
    }
    code := DetachEntries(dds, call.clients, dds.oracle.active);
  }

  lemma ContentsParts(call: Call)
    requires call.Valid()
    ensures var a := call.Contents();
            && a.subscriptions == Slots(call.subscriptions) && a.guards == Slots(call.guards)
            && a.services == Slots(call.services) && a.clients == Slots(call.clients)
            && forall i | 0 <= i < |Slots(call.events)| :: Slots(call.events)[i].Some?
    ensures forall i | 0 <= i < |Slots(call.events)| :: Slots(call.events)[i].Some?
    ensures call.Contents().events == EventsOf(Slots(call.events))
    ensures call.subscriptions == null || (call.subscriptions != call.services && call.subscriptions != call.clients)
    ensures call.services == null || call.services != call.clients
  {
    hide Slots;
    hide EventsOf;
  }

  /** What must hold before the detaching starts, and what distinctness means for its four steps. */
  lemma DetachFacts(a: Arrays, refused: set<Condition>, attached: set<Condition>)
    requires AllAttachable(a, refused) && Explicit(a) <= attached
    ensures AllHaveConditions(a.subscriptions) && AllHaveConditions(a.services) && AllHaveConditions(a.clients)
    ensures forall i | 0 <= i < |a.guards| :: a.guards[i].Some?
    ensures var s, g := ConditionsOf(a.subscriptions), GuardsOf(a.guards);
            var v, c := ConditionsOf(a.services), ConditionsOf(a.clients);
            && s <= attached && g <= attached && g !! s
            && attached - s - g - v - c == attached - Explicit(a)
            && (PairwiseDistinct(a) <==>
                && DistinctConditions(a.subscriptions) && Distinct(a.guards)
                && DistinctConditions(a.services) && v <= attached - s - g
                && DistinctConditions(a.clients) && c <= attached - s - g - v)
  {
    hide ConditionsOf;
    hide GuardsOf;
    hide DistinctConditions;
    hide Distinct;
    DistinctInParts(a);
    GuardsAreNotReads(a);
    DetachOrder(attached, ConditionsOf(a.subscriptions), GuardsOf(a.guards), ConditionsOf(a.services),
                ConditionsOf(a.clients));
  }

  lemma FilteredParts(call: Call, before: Arrays, active: seq<Condition>)
    ensures call.Filtered(before, active) <==>
            && Slots(call.subscriptions) == Kept(before.subscriptions, active)
            && Slots(call.guards) == KeptGuards(before.guards, active)
            && Slots(call.services) == Kept(before.services, active)
            && Slots(call.clients) == Kept(before.clients, active)
  {
    hide Slots;
    hide Kept;
    hide KeptGuards;
  }

  method DetachAll(dds: Dds, call: Call) returns (code: RmwCode)
    requires call.Valid() && AllAttachable(call.Contents(), dds.oracle.refused)
    requires Explicit(call.Contents()) <= dds.attached
    modifies dds`attached, dds`triggered, call.subscriptions, call.guards, call.services, call.clients
    ensures code == OK || code == ERROR
    ensures code == OK <==> PairwiseDistinct(old(call.Contents())) &&
                            ActiveGuards(old(call.Contents()).guards, dds.oracle.active) !! dds.oracle.stuck
    ensures code == OK ==> dds.attached == old(dds.attached) - Explicit(old(call.Contents()))
    ensures code == OK ==>
              dds.triggered == old(dds.triggered) - ActiveGuards(old(call.Contents()).guards, dds.oracle.active)
    ensures code == OK ==> call.Filtered(old(call.Contents()), dds.oracle.active)
  {
    hide *;
    ghost var a := call.Contents();
    ContentsParts(call);
    DetachFacts(a, dds.oracle.refused, dds.attached);
    code := DetachSubscriptionsAndGuards(dds, call);
    if code != OK {
      return;
    }
    code := DetachServicesAndClients(dds, call);
    FilteredParts(call, a, dds.oracle.active);
  }

  lemma GatherableSlots(call: Call, refused: set<Condition>)
    requires call.Valid() && AllAttachable(call.Contents(), refused)
    ensures forall i | 0 <= i < |Slots(call.events)| ::
              Slots(call.events)[i].Some? && Gatherable(Slots(call.events)[i].value)
  {
    hide Gatherable;
    forall i | 0 <= i < |Slots(call.events)|
      ensures Gatherable(Slots(call.events)[i].value)
    {
      assert call.Contents().events[i] == Slots(call.events)[i].value;
    }
  }

  /** Everything wait does once it has been woken up. */
  method FilterAndDetach(dds: Dds, call: Call) returns (code: RmwCode)
    requires call.Valid() && AllAttachable(call.Contents(), dds.oracle.refused)
    requires Explicit(call.Contents()) <= dds.attached
    modifies dds`attached, dds`triggered, call.subscriptions, call.guards, call.services, call.clients, call.events
    ensures code == OK || code == ERROR
    ensures code == OK <==> PairwiseDistinct(old(call.Contents())) &&
                            ActiveGuards(old(call.Contents()).guards, dds.oracle.active) !! dds.oracle.stuck
    ensures code == OK ==> dds.attached == old(dds.attached) - Explicit(old(call.Contents()))
    ensures code == OK ==>
              dds.triggered == old(dds.triggered) - ActiveGuards(old(call.Contents()).guards, dds.oracle.active)
    ensures code == OK ==> call.Filtered(old(call.Contents()), dds.oracle.active)
    ensures code == OK ==> Slots(call.events) == KeptEvents(old(Slots(call.events)), dds.oracle.changes)
  {
    hide *;
    ContentsParts(call);
    GatherableSlots(call, dds.oracle.refused);
    code := DetachAll(dds, call);
    if code != OK {
      return;
    }
    code := HandleActiveEventConditions(dds, call.events);
  }

  /** What is left to detach, in the order subscriptions, guards, services, clients. */
  lemma DetachOrder(attached: set<Condition>, s: set<Condition>, g: set<Condition>, v: set<Condition>, c: set<Condition>)
    requires s + v + c + g <= attached && g !! s + v + c
    ensures v <= attached - s - g <==> v !! s
    ensures c <= attached - s - g - v <==> c !! s + v
    ensures attached - s - g - v - c == attached - (s + v + c + g)
  {
  }

  lemma GuardsAreNotReads(a: Arrays)
    ensures GuardsOf(a.guards) !! ConditionsOf(a.subscriptions) + ConditionsOf(a.services) + ConditionsOf(a.clients)
    ensures Implicit(a) !! Explicit(a)
  {
  }

  /** The cleanup that runs on every exit: all conditions still attached are listed and detached. */
  method AtExit(dds: Dds, handle: WaitSetHandle, implementation: string)
    modifies dds`attached
    ensures dds.attached == if Cleanable(handle, implementation, dds.oracle) then {} else old(dds.attached)
  {
    if handle.NullWaitSet? || handle.implementation != implementation || handle.info.None? {
      return;
    }
    if !handle.info.value.hasWaitSet || !handle.info.value.hasAttached || !dds.oracle.listable {
      return;
    }
    var conditions := dds.attached;
    while conditions != {}
      invariant dds.attached == conditions
      decreases |conditions|
    {
      var c :| c in conditions;
      var code := dds.DetachCondition(c);
      if code != DDS_OK {
        return;
      }
      conditions := conditions - {c};
    }
  }

  lemma UsableParts(handle: WaitSetHandle, implementation: string)
    ensures Usable(handle, implementation) <==>
            handle.WaitSet? && handle.implementation == implementation && handle.info.Some?
            && handle.info.value.hasWaitSet && handle.info.value.hasActive
  {
  }

  lemma SucceedsParts(a: Arrays, oracle: Oracle)
    ensures Succeeds(a, oracle) <==>
            && AllAttachable(a, oracle.refused) && PairwiseDistinct(a)
            && (oracle.waitCode == DDS_OK || oracle.waitCode == DDS_TIMEOUT)
            && ActiveGuards(a.guards, oracle.active) !! oracle.stuck
  {
  }

  lemma AttachedAtExit(attached: set<Condition>, explicit: set<Condition>, implicit: set<Condition>)
    ensures (attached + explicit + implicit) - explicit == attached + implicit - explicit
  {
  }

  /** The body of wait, up to the exit it takes. */
  method WaitUntilExit(dds: Dds, call: Call, handle: WaitSetHandle, implementation: string) returns (code: RmwCode)
    requires call.Valid()
    modifies dds, call.subscriptions, call.guards, call.services, call.clients, call.events
    ensures code == OK || code == TIMEOUT <==>
            Usable(handle, implementation) && Succeeds(old(call.Contents()), dds.oracle)
    ensures code == TIMEOUT ==> dds.oracle.waitCode == DDS_TIMEOUT
    ensures code == OK ==> dds.oracle.waitCode == DDS_OK
    ensures code == OK || code == TIMEOUT ==>
              && call.Filtered(old(call.Contents()), dds.oracle.active)
              && Slots(call.events) == KeptEvents(old(Slots(call.events)), dds.oracle.changes)
              && dds.attached == old(dds.attached) + Implicit(old(call.Contents())) - Explicit(old(call.Contents()))
              && dds.triggered == old(dds.triggered) - ActiveGuards(old(call.Contents()).guards, dds.oracle.active)
              && dds.enabled == old(dds.enabled) + MasksFor(old(call.Contents()).events)
  {
    hide *;
    ghost var a := call.Contents();
    UsableParts(handle, implementation);
    SucceedsParts(a, dds.oracle);
    AttachedAtExit(dds.attached, Explicit(a), Implicit(a));
    ContentsParts(call);
    if handle.NullWaitSet? {
      return INVALID_ARGUMENT;
    }
    if handle.implementation != implementation {
      return INCORRECT_IMPLEMENTATION;
    }
    if handle.info.None? || !handle.info.value.hasWaitSet || !handle.info.value.hasActive {
      return ERROR;
    }
    code := AttachAll(dds, call);
    if code != OK {
      return;
    }
    if dds.oracle.waitCode != DDS_OK && dds.oracle.waitCode != DDS_TIMEOUT {
      return ERROR;
    }
    code := FilterAndDetach(dds, call);
    if code != OK {
      return;
    }
    code := if dds.oracle.waitCode == DDS_TIMEOUT then TIMEOUT else OK;
  }

  /**
   * wait. Whatever exit is taken, a well-formed wait set is empty afterwards. The call succeeds if and only if
   * nothing passed in is null or refused and no condition is passed twice; then every slot keeps its handle exactly
   * when its condition is active, and exactly the active guards passed in are reset.
   */
  method Wait(dds: Dds, call: Call, handle: WaitSetHandle, implementation: string) returns (code: RmwCode)
    requires call.Valid()
    modifies dds, call.subscriptions, call.guards, call.services, call.clients, call.events
    ensures Cleanable(handle, implementation, dds.oracle) ==> dds.attached == {}
    ensures code == OK || code == TIMEOUT <==>
            Usable(handle, implementation) && Succeeds(old(call.Contents()), dds.oracle)
    ensures code == TIMEOUT ==> dds.oracle.waitCode == DDS_TIMEOUT
    ensures code == OK ==> dds.oracle.waitCode == DDS_OK
    ensures code == OK || code == TIMEOUT ==>
              && call.Filtered(old(call.Contents()), dds.oracle.active)
              && Slots(call.events) == KeptEvents(old(Slots(call.events)), dds.oracle.changes)
              && dds.triggered == old(dds.triggered) - ActiveGuards(old(call.Contents()).guards, dds.oracle.active)
              && dds.enabled == old(dds.enabled) + MasksFor(old(call.Contents()).events)
    ensures (code == OK || code == TIMEOUT) && call.subscriptions != null ==>
              forall i | 0 <= i < call.subscriptions.Length ::
                var slot := old(call.subscriptions[i]);
                call.subscriptions[i] == if slot.Info? && slot.condition.Some?
                                            && ReadCondition(slot.condition.value) in dds.oracle.active
                                         then slot else NullEntry
    ensures (code == OK || code == TIMEOUT) && call.services != null ==>
              forall i | 0 <= i < call.services.Length ::
                var slot := old(call.services[i]);
                call.services[i] == if slot.Info? && slot.condition.Some?
                                       && ReadCondition(slot.condition.value) in dds.oracle.active
                                    then slot else NullEntry
    ensures (code == OK || code == TIMEOUT) && call.clients != null ==>
              forall i | 0 <= i < call.clients.Length ::
                var slot := old(call.clients[i]);
                call.clients[i] == if slot.Info? && slot.condition.Some?
                                      && ReadCondition(slot.condition.value) in dds.oracle.active
                                   then slot else NullEntry
    ensures (code == OK || code == TIMEOUT) && call.guards != null ==>
              forall i | 0 <= i < call.guards.Length ::
                var slot := old(call.guards[i]);
                call.guards[i] == if slot.Some? && GuardCondition(slot.value) in dds.oracle.active then slot else None
    ensures code == OK || code == TIMEOUT ==>
              forall g: int :: g in dds.triggered <==>
                && g in old(dds.triggered)
                && !(GuardCondition(g) in dds.oracle.active && call.guards != null
                     && exists i :: 0 <= i < call.guards.Length && old(call.guards[i]) == Some(g))
    ensures (code == OK || code == TIMEOUT) && call.events != null ==>
              forall i | 0 <= i < call.events.Length ::
                var slot := old(call.events[i]);
                call.events[i] == if slot.Some? && slot.value.entity.Some? && StatusFor(slot.value.eventType).Some?
                                     && slot.value.entity.value in dds.oracle.changes
                                     && StatusFor(slot.value.eventType).value
                                        in dds.oracle.changes[slot.value.entity.value]
                                  then slot else None
    ensures (code == OK || code == TIMEOUT) && !Cleanable(handle, implementation, dds.oracle) ==>
              dds.attached == old(dds.attached) + Implicit(old(call.Contents())) - Explicit(old(call.Contents()))
  {
    hide *;
    ContentsParts(call);
    SlotsMean(call);
    ghost var a, events := call.Contents(), Slots(call.events);
    code := WaitUntilExit(dds, call, handle, implementation);
    AtExit(dds, handle, implementation);
    SlotsMean(call);
    FilteredParts(call, a, dds.oracle.active);
    KeptSlots(a.subscriptions, dds.oracle.active);
    KeptSlots(a.services, dds.oracle.active);
    KeptSlots(a.clients, dds.oracle.active);
    KeptGuardSlots(a.guards, dds.oracle.active);
    KeptEventSlots(events, dds.oracle.changes);
  }

  lemma SlotsMean(call: Call)
    ensures call.subscriptions != null ==> Slots(call.subscriptions) == call.subscriptions[..]
    ensures call.services != null ==> Slots(call.services) == call.services[..]
    ensures call.clients != null ==> Slots(call.clients) == call.clients[..]
    ensures Slots(call.guards) == if call.guards != null then call.guards[..] else []
    ensures call.events != null ==> Slots(call.events) == call.events[..]
  {
  }
}
