/** Event arrays and the status masks they ask for. A mask is the set of its bits: or is union, and is intersection. */
module EventMasks {
  import opened Wrappers

  type Entity = int

  datatype EventType =
    | LivelinessChanged | RequestedDeadlineMissed | RequestedQosIncompatible | MessageLost
    | LivelinessLost | OfferedDeadlineMissed | OfferedQosIncompatible
    | Other(code: int)

  datatype Status =
    | LIVELINESS_CHANGED | REQUESTED_DEADLINE_MISSED | REQUESTED_INCOMPATIBLE_QOS | SAMPLE_LOST
    | LIVELINESS_LOST | OFFERED_DEADLINE_MISSED | OFFERED_INCOMPATIBLE_QOS | OTHER_STATUS(bit: nat)

  type StatusMask = set<Status>

  /** The converter's table; None for an event type it does not support. */
  function StatusFor(t: EventType): Option<Status> {
    match t
    case LivelinessChanged => Some(LIVELINESS_CHANGED)
    case RequestedDeadlineMissed => Some(REQUESTED_DEADLINE_MISSED)
    case RequestedQosIncompatible => Some(REQUESTED_INCOMPATIBLE_QOS)
    case LivelinessLost => Some(LIVELINESS_LOST)
    case MessageLost => Some(SAMPLE_LOST)
    case OfferedDeadlineMissed => Some(OFFERED_DEADLINE_MISSED)
    case OfferedQosIncompatible => Some(OFFERED_INCOMPATIBLE_QOS)
    case Other(_) => None
  }

  /** Each status is asked for by one event type, and only the types outside the table ask for none. */
  lemma StatusIsAskedBy(t: EventType)
    ensures StatusFor(t) == Some(LIVELINESS_CHANGED) <==> t == LivelinessChanged
    ensures StatusFor(t) == Some(REQUESTED_DEADLINE_MISSED) <==> t == RequestedDeadlineMissed
    ensures StatusFor(t) == Some(REQUESTED_INCOMPATIBLE_QOS) <==> t == RequestedQosIncompatible
    ensures StatusFor(t) == Some(SAMPLE_LOST) <==> t == MessageLost
    ensures StatusFor(t) == Some(LIVELINESS_LOST) <==> t == LivelinessLost
    ensures StatusFor(t) == Some(OFFERED_DEADLINE_MISSED) <==> t == OfferedDeadlineMissed
    ensures StatusFor(t) == Some(OFFERED_INCOMPATIBLE_QOS) <==> t == OfferedQosIncompatible
    ensures StatusFor(t) == None <==> t.Other?
  {
  }

  /** An event as wait sees it: its data pointer, the entity behind it and that entity's status condition. */
  datatype Event = Event(hasData: bool, entity: Option<Entity>, hasCondition: bool, eventType: EventType)

  predicate Gatherable(e: Event) {
    e.hasData && e.entity.Some? && e.hasCondition
  }

  /** The statuses some event asks for. */
  function MaskFor(events: seq<Event>, entity: Entity): StatusMask {
    set i | 0 <= i < |events| && StatusFor(events[i].eventType).Some? && events[i].entity == Some(entity) ::
      StatusFor(events[i].eventType).value
  }

  /** The entities with an event of a supported type. */
  function Entities(events: seq<Event>): set<Entity> {
    set i | 0 <= i < |events| && StatusFor(events[i].eventType).Some? && events[i].entity.Some? :: events[i].entity.value
  }

  /** An event of the slot is active when the status it stands for has changed on its entity. */
  predicate Active(e: Event, changes: map<Entity, StatusMask>) {
    e.entity.Some? && e.entity.value in changes && StatusFor(e.eventType).Some?
    && StatusFor(e.eventType).value in changes[e.entity.value]
  }

  lemma MaskIsExact(events: seq<Event>, entity: Entity, status: Status)
    ensures status in MaskFor(events, entity) <==>
            exists e <- events :: e.entity == Some(entity) && StatusFor(e.eventType) == Some(status)
  {
    if status in MaskFor(events, entity) {
      var i :| 0 <= i < |events| && StatusFor(events[i].eventType).Some? && events[i].entity == Some(entity)
               && StatusFor(events[i].eventType).value == status;
      assert events[i] in events;
    }
  }

  lemma OneMoreEvent(events: seq<Event>, e: Event)
    requires e.entity.Some?
    ensures StatusFor(e.eventType).None? ==> Entities(events + [e]) == Entities(events)
    ensures StatusFor(e.eventType).Some? ==> Entities(events + [e]) == Entities(events) + {e.entity.value}
    ensures forall entity :: MaskFor(events + [e], entity) ==
              MaskFor(events, entity) + if StatusFor(e.eventType).Some? && e.entity == Some(entity)
                                        then {StatusFor(e.eventType).value} else {}
    ensures forall entity :: entity !in Entities(events) ==> MaskFor(events, entity) == {}
  {
    var more := events + [e];
    assert more[|events|] == e && forall i | 0 <= i < |events| :: more[i] == events[i];
    forall entity, status
      ensures status in MaskFor(more, entity) <==>
              status in MaskFor(events, entity) || (e.entity == Some(entity) && StatusFor(e.eventType) == Some(status))
    {
      MaskIsExact(more, entity, status);
      MaskIsExact(events, entity, status);
      assert forall d :: d in more <==> d in events || d == e;
    }
    forall entity
      ensures entity in Entities(more) <==> entity in Entities(events) || (StatusFor(e.eventType).Some? && e.entity == Some(entity))
    {
      if entity in Entities(events) {
        var i :| 0 <= i < |events| && StatusFor(events[i].eventType).Some? && events[i].entity == Some(entity);
        assert more[i] == events[i];
      }
    }
  }

  /** The mask depends on which events there are, not on their order or number. */
  lemma MaskIgnoresOrder(a: seq<Event>, b: seq<Event>, entity: Entity)
    requires forall e :: e in a <==> e in b
    ensures MaskFor(a, entity) == MaskFor(b, entity)
  {
    forall status
      ensures status in MaskFor(a, entity) <==> status in MaskFor(b, entity)
    {
      MaskIsExact(a, entity, status);
      MaskIsExact(b, entity, status);
    }
  }
}
