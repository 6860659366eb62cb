/** The part of a DDS wait set that wait relies on; what the middleware decides is fixed by an oracle. */
module DdsWaitSets {
  import opened EventMasks

  datatype Condition = ReadCondition(id: int) | StatusCondition(entity: Entity) | GuardCondition(id: int)

  datatype DdsCode = DDS_OK | DDS_TIMEOUT | DDS_ERROR

  /**
   * What the middleware will answer: conditions it refuses to attach, the outcome of waiting, the conditions then
   * active, the statuses then changed, guards that cannot be reset, and whether attached conditions can be listed.
   */
  datatype Oracle = Oracle(refused: set<Condition>, waitCode: DdsCode, active: seq<Condition>,
                           changes: map<Entity, StatusMask>, stuck: set<int>, listable: bool)

  class Dds {
    const oracle: Oracle
    var attached: set<Condition>
    var triggered: set<int>
    var enabled: map<Entity, StatusMask>

    constructor (oracle: Oracle, attached: set<Condition>, triggered: set<int>, enabled: map<Entity, StatusMask>)
      ensures this.oracle == oracle && this.attached == attached
      ensures this.triggered == triggered && this.enabled == enabled
    {
      this.oracle, this.attached, this.triggered, this.enabled := oracle, attached, triggered, enabled;
    }

    /** Attaching a condition twice has no further effect. */
    method AttachCondition(c: Condition) returns (code: DdsCode)
      modifies this`attached
      ensures code == if c in oracle.refused then DDS_ERROR else DDS_OK
      ensures attached == if c in oracle.refused then old(attached) else old(attached) + {c}
    {
      if c in oracle.refused {
        return DDS_ERROR;
      }
      attached := attached + {c};
      code := DDS_OK;
    }

    /** Detaching fails exactly for a condition that is not attached. */
    method DetachCondition(c: Condition) returns (code: DdsCode)
      modifies this`attached
      ensures code == if c in old(attached) then DDS_OK else DDS_ERROR
      ensures attached == old(attached) - {c}
    {
      code := if c in attached then DDS_OK else DDS_ERROR;
      attached := attached - {c};
    }

    method ResetGuard(guard: int) returns (code: DdsCode)
      modifies this`triggered
      ensures code == if guard in oracle.stuck then DDS_ERROR else DDS_OK
      ensures triggered == if guard in oracle.stuck then old(triggered) else old(triggered) - {guard}
    {
      if guard in oracle.stuck {
        return DDS_ERROR;
      }
      triggered := triggered - {guard};
      code := DDS_OK;
    }

    method SetEnabledStatuses(entity: Entity, mask: StatusMask)
      modifies this`enabled
      ensures enabled == old(enabled)[entity := mask]
    {
      enabled := enabled[entity := mask];
    }
  }
}
