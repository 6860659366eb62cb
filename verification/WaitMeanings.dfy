/** What the success of a wait and its effects mean, in terms of the single slots that the caller passes in. */
module WaitMeanings {
  import opened Wrappers
  import opened EventMasks
  import opened DdsWaitSets
  import opened WaitSets
  import opened Waiting

  /** What must go well, in terms of the caller's slots. */
  lemma SuccessMeans(a: Arrays, oracle: Oracle)
    ensures Succeeds(a, oracle) <==>
            && (oracle.waitCode == DDS_OK || oracle.waitCode == DDS_TIMEOUT)
            // nothing is null, and nothing is refused when it is attached
            && (forall i | 0 <= i < |a.subscriptions| ::
                  a.subscriptions[i].Info? && a.subscriptions[i].condition.Some?
                  && ReadCondition(a.subscriptions[i].condition.value) !in oracle.refused)
            && (forall i | 0 <= i < |a.services| ::
                  a.services[i].Info? && a.services[i].condition.Some?
                  && ReadCondition(a.services[i].condition.value) !in oracle.refused)
            && (forall i | 0 <= i < |a.clients| ::
                  a.clients[i].Info? && a.clients[i].hasReader && a.clients[i].condition.Some?
                  && ReadCondition(a.clients[i].condition.value) !in oracle.refused)
            && (forall i | 0 <= i < |a.guards| ::
                  a.guards[i].Some? && GuardCondition(a.guards[i].value) !in oracle.refused)
            && (forall i | 0 <= i < |a.events| ::
                  a.events[i].hasData && a.events[i].entity.Some? && a.events[i].hasCondition
                  && (StatusFor(a.events[i].eventType).Some? ==>
                      StatusCondition(a.events[i].entity.value) !in oracle.refused))
            // no condition is passed twice, in one array or in two
            && (forall i, j | 0 <= i < j < |a.subscriptions| :: a.subscriptions[i].condition != a.subscriptions[j].condition)
            && (forall i, j | 0 <= i < j < |a.services| :: a.services[i].condition != a.services[j].condition)
            && (forall i, j | 0 <= i < j < |a.clients| :: a.clients[i].condition != a.clients[j].condition)
            && (forall i, j | 0 <= i < |a.subscriptions| && 0 <= j < |a.services| ::
                  a.subscriptions[i].condition != a.services[j].condition)
            && (forall i, j | 0 <= i < |a.subscriptions| && 0 <= j < |a.clients| ::
                  a.subscriptions[i].condition != a.clients[j].condition)
            && (forall i, j | 0 <= i < |a.services| && 0 <= j < |a.clients| ::
                  a.services[i].condition != a.clients[j].condition)
            && (forall i, j | 0 <= i < j < |a.guards| :: a.guards[i] != a.guards[j])
            // no active guard refuses its reset
            && (forall i | 0 <= i < |a.guards| ::
                  GuardCondition(a.guards[i].value) in oracle.active ==> a.guards[i].value !in oracle.stuck)
  {
    hide StatusFor;
    hide Entities;
    hide StatusConditions;
    hide ConditionsOf;
    hide ActiveGuards;
    hide PairwiseDistinct;
    hide DistinctConditions;
    if forall i | 0 <= i < |a.guards| :: a.guards[i].Some? {
      GuardsMean(a.guards, oracle.active, oracle.stuck);
    }
    if AllGatherable(a.events) {
      EventsMean(a.events, oracle.refused);
    }
    if AllHaveConditions(a.subscriptions) && AllHaveConditions(a.services) && AllHaveConditions(a.clients) {
      DistinctMeans(a);
    }
  }

  /** Which handles a call can use, and which the cleanup can: it needs the list of attached conditions instead. */
  lemma HandlesMean(handle: WaitSetHandle, implementation: string, oracle: Oracle)
    ensures Usable(handle, implementation) <==>
            handle.WaitSet? && handle.implementation == implementation
            && exists info :: handle.info == Some(info) && info.hasWaitSet && info.hasActive
    ensures Cleanable(handle, implementation, oracle) <==>
            handle.WaitSet? && handle.implementation == implementation && oracle.listable
            && exists info :: handle.info == Some(info) && info.hasWaitSet && info.hasAttached
  {
    if Usable(handle, implementation) || Cleanable(handle, implementation, oracle) {
      assert handle.info == Some(handle.info.value);
    }
  }

  /** The conditions that wait itself detaches, and those it leaves to the cleanup. */
  lemma AttachedMeans(a: Arrays, id: int, entity: Entity)
    ensures ReadCondition(id) in Explicit(a) <==>
            || (exists i :: 0 <= i < |a.subscriptions| && a.subscriptions[i].Info? && a.subscriptions[i].condition == Some(id))
            || (exists i :: 0 <= i < |a.services| && a.services[i].Info? && a.services[i].condition == Some(id))
            || (exists i :: 0 <= i < |a.clients| && a.clients[i].Info? && a.clients[i].condition == Some(id))
    ensures GuardCondition(id) in Explicit(a) <==> exists i :: 0 <= i < |a.guards| && a.guards[i] == Some(id)
    ensures StatusCondition(entity) !in Explicit(a)
    ensures StatusCondition(entity) in Implicit(a) <==>
            exists i :: 0 <= i < |a.events| && a.events[i].entity == Some(entity) && StatusFor(a.events[i].eventType).Some?
    ensures ReadCondition(id) !in Implicit(a) && GuardCondition(id) !in Implicit(a)
  {
    EntriesMean(a.subscriptions, id);
    EntriesMean(a.services, id);
    EntriesMean(a.clients, id);
    GuardsAreAttached(a.guards, id);
    EntitiesMean(a.events, entity);
    OnlyReads(a.subscriptions);
    OnlyReads(a.services);
    OnlyReads(a.clients);
    hide ConditionsOf;
    hide Entities;
    hide StatusFor;
  }

  lemma OnlyReads(es: seq<Entry>)
    ensures forall c <- ConditionsOf(es) :: c.ReadCondition?
  {
  }

  lemma EntriesMean(es: seq<Entry>, id: int)
    ensures ReadCondition(id) in ConditionsOf(es) <==>
            exists i :: 0 <= i < |es| && es[i].Info? && es[i].condition == Some(id)
  {
    if i :| 0 <= i < |es| && es[i].Info? && es[i].condition == Some(id) {
      assert HasCondition(es[i]) && ConditionOf(es[i]) == ReadCondition(id);
    }
  }

  lemma GuardsAreAttached(gs: seq<Option<int>>, id: int)
    ensures GuardCondition(id) in GuardsOf(gs) <==> exists i :: 0 <= i < |gs| && gs[i] == Some(id)
    ensures forall c <- GuardsOf(gs) :: c.GuardCondition?
  {
    if i :| 0 <= i < |gs| && gs[i] == Some(id) {
      assert gs[i].Some? && gs[i].value == id;
    }
  }

  lemma EntitiesMean(events: seq<Event>, entity: Entity)
    ensures entity in Entities(events) <==>
            exists i :: 0 <= i < |events| && events[i].entity == Some(entity) && StatusFor(events[i].eventType).Some?
    ensures StatusCondition(entity) in StatusConditions(Entities(events)) <==> entity in Entities(events)
  {
    hide StatusFor;
    if i :| 0 <= i < |events| && events[i].entity == Some(entity) && StatusFor(events[i].eventType).Some? {
      assert events[i].entity.Some? && events[i].entity.value == entity;
    }
  }

  /** The masks that a successful call enables: for each entity with a supported event, exactly what its events ask for. */
  lemma MasksMean(events: seq<Event>, entity: Entity, status: Status)
    ensures entity in MasksFor(events) <==>
            exists i :: 0 <= i < |events| && events[i].entity == Some(entity) && StatusFor(events[i].eventType).Some?
    ensures entity in MasksFor(events) ==>
              (status in MasksFor(events)[entity] <==>
               exists i :: 0 <= i < |events| && events[i].entity == Some(entity)
                           && StatusFor(events[i].eventType) == Some(status))
  {
    EntitiesMean(events, entity);
    hide StatusFor;
    hide Entities;
    if i :| 0 <= i < |events| && events[i].entity == Some(entity) && StatusFor(events[i].eventType) == Some(status) {
      assert StatusFor(events[i].eventType).value == status;
    }
  }

  lemma GuardsMean(gs: seq<Option<int>>, active: seq<Condition>, stuck: set<int>)
    requires forall i | 0 <= i < |gs| :: gs[i].Some?
    ensures ActiveGuards(gs, active) !! stuck <==>
            forall i | 0 <= i < |gs| :: GuardCondition(gs[i].value) in active ==> gs[i].value !in stuck
  {
    KeptGuardSlots(gs, active);
    hide ActiveGuards;
    hide KeptGuards;
    if ActiveGuards(gs, active) !! stuck {
      forall i | 0 <= i < |gs| && GuardCondition(gs[i].value) in active
        ensures gs[i].value !in stuck
      {
        assert gs[i] == Some(gs[i].value) && gs[i].value in ActiveGuards(gs, active);
      }
    }
    if forall i | 0 <= i < |gs| :: GuardCondition(gs[i].value) in active ==> gs[i].value !in stuck {
      forall g | g in ActiveGuards(gs, active)
        ensures g !in stuck
      {
        var i :| 0 <= i < |gs| && gs[i] == Some(g);
        assert gs[i].value == g;
      }
    }
  }

  lemma EventsMean(events: seq<Event>, refused: set<Condition>)
    requires AllGatherable(events)
    ensures StatusConditions(Entities(events)) !! refused <==>
            forall i | 0 <= i < |events| ::
              StatusFor(events[i].eventType).Some? ==> StatusCondition(events[i].entity.value) !in refused
  {
    hide StatusFor;
    if StatusConditions(Entities(events)) !! refused {
      forall i | 0 <= i < |events| && StatusFor(events[i].eventType).Some?
        ensures StatusCondition(events[i].entity.value) !in refused
      {
        assert events[i].entity.value in Entities(events);
        assert StatusCondition(events[i].entity.value) in StatusConditions(Entities(events));
      }
    }
  }

  lemma DisjointMeans(a: seq<Entry>, b: seq<Entry>)
    requires AllHaveConditions(a) && AllHaveConditions(b)
    ensures ConditionsOf(b) !! ConditionsOf(a) <==>
            forall i, j | 0 <= i < |a| && 0 <= j < |b| :: a[i].condition != b[j].condition
  {
    if ConditionsOf(b) !! ConditionsOf(a) {
      forall i, j | 0 <= i < |a| && 0 <= j < |b|
        ensures a[i].condition != b[j].condition
      {
        assert ConditionOf(a[i]) in ConditionsOf(a) && ConditionOf(b[j]) in ConditionsOf(b);
      }
    }
  }

  lemma DistinctMeans(a: Arrays)
    requires AllHaveConditions(a.subscriptions) && AllHaveConditions(a.services) && AllHaveConditions(a.clients)
    ensures PairwiseDistinct(a) <==>
            && (forall i, j | 0 <= i < j < |a.subscriptions| :: a.subscriptions[i].condition != a.subscriptions[j].condition)
            && (forall i, j | 0 <= i < j < |a.services| :: a.services[i].condition != a.services[j].condition)
            && (forall i, j | 0 <= i < j < |a.clients| :: a.clients[i].condition != a.clients[j].condition)
            && (forall i, j | 0 <= i < |a.subscriptions| && 0 <= j < |a.services| ::
                  a.subscriptions[i].condition != a.services[j].condition)
            && (forall i, j | 0 <= i < |a.subscriptions| && 0 <= j < |a.clients| ::
                  a.subscriptions[i].condition != a.clients[j].condition)
            && (forall i, j | 0 <= i < |a.services| && 0 <= j < |a.clients| ::
                  a.services[i].condition != a.clients[j].condition)
            && (forall i, j | 0 <= i < j < |a.guards| :: a.guards[i] != a.guards[j])
  {
    hide ConditionsOf;
    DistinctInParts(a);
    DisjointMeans(a.subscriptions, a.services);
    DisjointMeans(a.subscriptions, a.clients);
    DisjointMeans(a.services, a.clients);
  }
}
