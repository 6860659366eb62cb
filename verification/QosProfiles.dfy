/** ROS QoS profiles applied to DDS entities, and read back from them. */
module QosProfiles {

  const INT32_MAX: nat := 0x7FFF_FFFF
  const UINT32_MAX: nat := 0xFFFF_FFFF
  const INT64_MAX: nat := 0x7FFF_FFFF_FFFF_FFFF

  newtype Uint64 = n: int | 0 <= n <= 0xFFFF_FFFF_FFFF_FFFF
  newtype Int32 = n: int | -0x8000_0000 <= n <= 0x7FFF_FFFF
  newtype Uint32 = n: int | 0 <= n <= 0xFFFF_FFFF

  // ---------- narrowing casts ----------

  function ToInt32(n: Uint64): Int32 {
    var low := n as int % 0x1_0000_0000;
    (if low <= INT32_MAX then low else low - 0x1_0000_0000) as Int32
  }

  function ToUint32(n: Uint64): Uint32 {
    (n as int % 0x1_0000_0000) as Uint32
  }

  function SignExtend(n: Int32): Uint64 {
    (n as int % 0x1_0000_0000_0000_0000) as Uint64
  }

  lemma CastIsExact(n: Uint64)
    ensures ToInt32(n) as int == n as int <==> n as int <= INT32_MAX
    ensures ToInt32(n) >= 0 ==> ToInt32(n) as int <= n as int
    ensures ToUint32(n) as int == n as int <==> n as int <= UINT32_MAX
    ensures ToUint32(n) as int <= n as int
  {
  }

  /** Casts keep the number modulo the width of the narrower type, or of the wider one. */
  lemma CastsAreModular(n: Uint64, i: Int32)
    ensures (n as int - ToInt32(n) as int) % 0x1_0000_0000 == 0
    ensures (n as int - ToUint32(n) as int) % 0x1_0000_0000 == 0
    ensures SignExtend(i) as int == if i >= 0 then i as int else i as int + 0x1_0000_0000_0000_0000
  {
  }

  // ---------- durations ----------

  datatype Time = Time(sec: Uint64, nsec: Uint64)

  datatype Duration = Duration(sec: Int32, nanosec: Uint32)

  const UNSPECIFIED := Time(0, 0)
  const INFINITE := Time(9223372036, 854775807)
  const DDS_INFINITE := Duration(0x7FFF_FFFF, 0x7FFF_FFFF)

  /** Nanoseconds, saturating, as the rmw package compares times. */
  function TotalNsec(t: Time): nat {
    var total := t.sec as int * 1_000_000_000 + t.nsec as int;
    if total <= INT64_MAX then total else INT64_MAX
  }

  predicate SameTime(a: Time, b: Time) {
    TotalNsec(a) == TotalNsec(b)
  }

  function TimeToDds(t: Time): Duration {
    if SameTime(t, INFINITE) then DDS_INFINITE else Duration(ToInt32(t.sec), ToUint32(t.nsec))
  }

  function DurationToRmw(d: Duration): Time {
    if d == DDS_INFINITE then INFINITE else Time(SignExtend(d.sec), d.nanosec as Uint64)
  }

  /** Times that DDS can carry: infinite ones, and those that fit without looking infinite. */
  predicate Carried(t: Time) {
    SameTime(t, INFINITE) ||
    (t.sec as int <= INT32_MAX && t.nsec as int <= UINT32_MAX
     && !(t.sec as int == INT32_MAX && t.nsec as int == INT32_MAX))
  }

  lemma NegativeSecondsLookInfinite(d: Duration)
    requires d.sec < 0
    ensures SameTime(DurationToRmw(d), INFINITE)
  {
  }

  /** A time comes back from DDS as the same time if and only if DDS can carry it. */
  lemma DurationRoundTrip(t: Time)
    ensures SameTime(DurationToRmw(TimeToDds(t)), t) <==> Carried(t)
  {
    CastIsExact(t.sec);
    CastIsExact(t.nsec);
    var d := TimeToDds(t);
    if !SameTime(t, INFINITE) {
      if d.sec < 0 {
        NegativeSecondsLookInfinite(d);
      } else if d != DDS_INFINITE {
        assert SignExtend(d.sec) as int == d.sec as int;
      }
    }
  }

  // ---------- policies ----------

  datatype History = HistorySystemDefault | KeepLast | KeepAll | HistoryUnknown
  datatype Reliability = ReliabilitySystemDefault | Reliable | BestEffort | ReliabilityUnknown
  datatype Durability = DurabilitySystemDefault | TransientLocal | Volatile | DurabilityUnknown
  datatype Liveliness = LivelinessSystemDefault | Automatic | ManualByTopic | LivelinessUnknown

  datatype Profile = Profile(history: History, depth: Uint64, reliability: Reliability, durability: Durability,
                             deadline: Time, lifespan: Time, liveliness: Liveliness, lease: Time)

  datatype HistoryKind = KEEP_LAST | KEEP_ALL
  datatype ReliabilityKind = BEST_EFFORT | RELIABLE
  datatype DurabilityKind = VOLATILE | TRANSIENT_LOCAL | TRANSIENT | PERSISTENT
  datatype LivelinessKind = AUTOMATIC | MANUAL_BY_PARTICIPANT | MANUAL_BY_TOPIC

  predicate KnownPolicies(p: Profile) {
    !p.history.HistoryUnknown? && !p.reliability.ReliabilityUnknown? && !p.durability.DurabilityUnknown?
    && !p.liveliness.LivelinessUnknown?
  }

  /** What an entity's setting becomes: unchanged when the profile leaves it to the system. */
  function HistoryAfter(policy: History, kept: HistoryKind): HistoryKind {
    match policy case KeepLast => KEEP_LAST case KeepAll => KEEP_ALL case _ => kept
  }

  function ReliabilityAfter(policy: Reliability, kept: ReliabilityKind): ReliabilityKind {
    match policy case BestEffort => BEST_EFFORT case Reliable => RELIABLE case _ => kept
  }

  function DurabilityAfter(policy: Durability, kept: DurabilityKind): DurabilityKind {
    match policy case TransientLocal => TRANSIENT_LOCAL case Volatile => VOLATILE case _ => kept
  }

  function LivelinessAfter(policy: Liveliness, kept: LivelinessKind): LivelinessKind {
    match policy case Automatic => AUTOMATIC case ManualByTopic => MANUAL_BY_TOPIC case _ => kept
  }

  function DurationAfter(t: Time, kept: Duration): Duration {
    if SameTime(t, UNSPECIFIED) then kept else TimeToDds(t)
  }

  lemma KeepsLast(policy: History, kept: HistoryKind)
    requires !policy.HistoryUnknown?
    ensures HistoryAfter(policy, kept) == KEEP_LAST <==>
            if policy.HistorySystemDefault? then kept == KEEP_LAST else policy.KeepLast?
  {
  }

  lemma ZeroTotal(sec: nat, nsec: nat)
    ensures sec * 1_000_000_000 + nsec == 0 <==> sec == 0 && nsec == 0
  {
  }

  lemma TotalIsZero(t: Time)
    ensures TotalNsec(t) == 0 <==> t.sec as int == 0 && t.nsec as int == 0
  {
    ZeroTotal(t.sec as int, t.nsec as int);
  }

  lemma UnspecifiedTotal()
    ensures TotalNsec(UNSPECIFIED) == 0
  {
  }

  /** A duration is set unless both its parts are zero. */
  lemma DurationMeans(t: Time, kept: Duration)
    ensures DurationAfter(t, kept) == if t.sec as int == 0 && t.nsec as int == 0 then kept else TimeToDds(t)
  {
    hide TimeToDds;
    hide TotalNsec;
    hide UNSPECIFIED;
    TotalIsZero(t);
    UnspecifiedTotal();
  }

  /** What is infinite: everything from the greatest 64-bit number of nanoseconds on. */
  lemma InfiniteIsTheGreatest(t: Time)
    ensures SameTime(t, INFINITE) <==> t.sec as int * 1_000_000_000 + t.nsec as int >= 0x7FFF_FFFF_FFFF_FFFF
    ensures TimeToDds(t) == if SameTime(t, INFINITE) then Duration(0x7FFF_FFFF, 0x7FFF_FFFF)
                            else Duration(ToInt32(t.sec), ToUint32(t.nsec))
    ensures DurationToRmw(Duration(0x7FFF_FFFF, 0x7FFF_FFFF)) == Time(9223372036, 854775807)
  {
  }

  lemma PolicyCases(p: Profile, h: HistoryKind, r: ReliabilityKind, d: DurabilityKind, l: LivelinessKind)
    requires KnownPolicies(p)
    ensures HistoryAfter(p.history, h) ==
            if p.history == KeepLast then KEEP_LAST else if p.history == KeepAll then KEEP_ALL else h
    ensures ReliabilityAfter(p.reliability, r) ==
            if p.reliability == Reliable then RELIABLE else if p.reliability == BestEffort then BEST_EFFORT else r
    ensures DurabilityAfter(p.durability, d) ==
            if p.durability == TransientLocal then TRANSIENT_LOCAL else if p.durability == Volatile then VOLATILE else d
    ensures LivelinessAfter(p.liveliness, l) ==
            if p.liveliness == Automatic then AUTOMATIC
            else if p.liveliness == ManualByTopic then MANUAL_BY_TOPIC else l
  {
  }

  lemma DurationCases(t: Time, kept: Duration)
    ensures DurationAfter(t, kept) == if SameTime(t, UNSPECIFIED) then kept else TimeToDds(t)
  {
  }

  function ReportedHistory(kind: HistoryKind): History {
    match kind case KEEP_LAST => KeepLast case KEEP_ALL => KeepAll
  }

  function ReportedReliability(kind: ReliabilityKind): Reliability {
    match kind case BEST_EFFORT => BestEffort case RELIABLE => Reliable
  }

  function ReportedDurability(kind: DurabilityKind): Durability {
    match kind case TRANSIENT_LOCAL => TransientLocal case VOLATILE => Volatile case _ => DurabilityUnknown
  }

  function ReportedLiveliness(kind: LivelinessKind): Liveliness {
    match kind case AUTOMATIC => Automatic case MANUAL_BY_TOPIC => ManualByTopic case _ => LivelinessUnknown
  }

  /** Every policy a profile can set explicitly is reported under the name it was set by. */
  lemma PoliciesReported(p: Profile, h: HistoryKind, r: ReliabilityKind, d: DurabilityKind, l: LivelinessKind)
    requires KnownPolicies(p)
    ensures p.history.HistorySystemDefault? || ReportedHistory(HistoryAfter(p.history, h)) == p.history
    ensures p.reliability.ReliabilitySystemDefault? ||
            ReportedReliability(ReliabilityAfter(p.reliability, r)) == p.reliability
    ensures p.durability.DurabilitySystemDefault? ||
            ReportedDurability(DurabilityAfter(p.durability, d)) == p.durability
    ensures p.liveliness.LivelinessSystemDefault? ||
            ReportedLiveliness(LivelinessAfter(p.liveliness, l)) == p.liveliness
  {
  }

  datatype Outcome = Applied | Rejected | AssertionFailed

  /** The QoS of a data writer or a data reader; only a writer has a lifespan. */
  class EntityQos {
    const isWriter: bool
    var history: HistoryKind
    var depth: Int32
    var reliability: ReliabilityKind
    var durability: DurabilityKind
    var deadline: Duration
    var lifespan: Duration
    var liveliness: LivelinessKind
    var lease: Duration

    constructor (isWriter: bool, depth: Int32)
      ensures this.isWriter == isWriter && this.depth == depth
    {
      this.isWriter, this.depth := isWriter, depth;
      history, reliability, durability, liveliness := KEEP_LAST, BEST_EFFORT, VOLATILE, AUTOMATIC;
      deadline, lifespan, lease := DDS_INFINITE, DDS_INFINITE, DDS_INFINITE;
    }

    method SetHistory(policy: History) returns (known: bool)
      modifies this`history
      ensures known <==> !policy.HistoryUnknown?
      ensures history == HistoryAfter(policy, old(history))
    {
      match policy {
        case KeepLast => history := KEEP_LAST;
        case KeepAll => history := KEEP_ALL;
        case HistorySystemDefault =>
        case HistoryUnknown => return false;
      }
      known := true;
    }

    method SetReliability(policy: Reliability) returns (known: bool)
      modifies this`reliability
      ensures known <==> !policy.ReliabilityUnknown?
      ensures reliability == ReliabilityAfter(policy, old(reliability))
    {
      match policy {
        case BestEffort => reliability := BEST_EFFORT;
        case Reliable => reliability := RELIABLE;
        case ReliabilitySystemDefault =>
        case ReliabilityUnknown => return false;
      }
      known := true;
    }

    method SetDurability(policy: Durability) returns (known: bool)
      modifies this`durability
      ensures known <==> !policy.DurabilityUnknown?
      ensures durability == DurabilityAfter(policy, old(durability))
    {
      match policy {
        case TransientLocal => durability := TRANSIENT_LOCAL;
        case Volatile => durability := VOLATILE;
        case DurabilitySystemDefault =>
        case DurabilityUnknown => return false;
      }
      known := true;
    }

    method SetLiveliness(policy: Liveliness) returns (known: bool)
      modifies this`liveliness
      ensures known <==> !policy.LivelinessUnknown?
      ensures liveliness == LivelinessAfter(policy, old(liveliness))
    {
      match policy {
        case Automatic => liveliness := AUTOMATIC;
        case ManualByTopic => liveliness := MANUAL_BY_TOPIC;
        case LivelinessSystemDefault =>
        case LivelinessUnknown => return false;
      }
      known := true;
    }

    /**
     * The check that the depth is at least the requested one. It is made after the depth was narrowed, and what it
     * catches is exactly a requested depth that does not fit.
     */
    method CheckDepth(requested: Uint64) returns (outcome: Outcome)
      requires requested == 0 || depth == ToInt32(requested)
      ensures outcome == AssertionFailed <==> depth < 0
      ensures outcome == Rejected <==> depth >= 0 && history == KEEP_LAST && requested as int > INT32_MAX
    {
      CastIsExact(requested);
      if depth < 0 {
        return AssertionFailed;
      }
      if history == KEEP_LAST && depth as int < requested as int {
        if requested as int > INT32_MAX {
          return Rejected;
        }
        // a depth that fits was stored already: raising it here is never needed
        assert false;
      }
      outcome := Applied;
    }

    /** set_entity_qos_from_profile: the writer's lifespan, then the part shared with readers. */
    method SetFromProfile(p: Profile) returns (outcome: Outcome)
      modifies this
      ensures outcome == Rejected <==>
              !KnownPolicies(p) ||
              (p.depth as int > INT32_MAX && ToInt32(p.depth) >= 0 &&
               (if p.history.HistorySystemDefault? then old(history) == KEEP_LAST else p.history.KeepLast?))
      ensures outcome == AssertionFailed <==>
              KnownPolicies(p) && (if p.depth == 0 then old(depth) < 0 else ToInt32(p.depth) < 0)
      ensures outcome == Applied ==>
                && depth == (if p.depth == 0 then old(depth) else ToInt32(p.depth)) && depth >= 0
                && history == HistoryAfter(p.history, old(history))
                && reliability == ReliabilityAfter(p.reliability, old(reliability))
                && durability == DurabilityAfter(p.durability, old(durability))
                && liveliness == LivelinessAfter(p.liveliness, old(liveliness))
                && deadline == DurationAfter(p.deadline, old(deadline)) && lease == DurationAfter(p.lease, old(lease))
                && lifespan == if isWriter then DurationAfter(p.lifespan, old(lifespan)) else old(lifespan)
      ensures outcome == Applied && history == KEEP_LAST ==> p.depth == 0 || depth as int == p.depth as int
    {
      hide SameTime;
      hide TimeToDds;
      hide ToInt32;
      hide HistoryAfter;
      hide ReliabilityAfter;
      hide DurabilityAfter;
      hide LivelinessAfter;
      hide DurationAfter;
      CastIsExact(p.depth);
      DurationCases(p.lifespan, lifespan);
      DurationCases(p.deadline, deadline);
      DurationCases(p.lease, lease);
      if !p.history.HistoryUnknown? {
        KeepsLast(p.history, history);
      }
      if isWriter && !SameTime(p.lifespan, UNSPECIFIED) {
        lifespan := TimeToDds(p.lifespan);
      }
      var known := SetHistory(p.history);
      if !known {
        return Rejected;
      }
      known := SetReliability(p.reliability);
      if !known {
        return Rejected;
      }
      known := SetDurability(p.durability);
      if !known {
        return Rejected;
      }
      if p.depth != 0 {
        depth := ToInt32(p.depth);
      }
      if !SameTime(p.deadline, UNSPECIFIED) {
        deadline := TimeToDds(p.deadline);
      }
      known := SetLiveliness(p.liveliness);
      if !known {
        return Rejected;
      }
      if !SameTime(p.lease, UNSPECIFIED) {
        lease := TimeToDds(p.lease);
      }
      outcome := CheckDepth(p.depth);
    }

    /** dds_qos_to_rmw_qos, on top of what dds_remote_qos_to_rmw_qos fills in. */
    method Report(qos: Profile) returns (r: Profile)
      ensures r.history == ReportedHistory(history) && r.reliability == ReportedReliability(reliability)
      ensures r.durability == ReportedDurability(durability) && r.liveliness == ReportedLiveliness(liveliness)
      ensures r.depth == SignExtend(depth) && (depth >= 0 ==> r.depth as int == depth as int)
      ensures r.deadline == DurationToRmw(deadline) && r.lease == DurationToRmw(lease)
      ensures r.lifespan == if isWriter then DurationToRmw(lifespan) else qos.lifespan
      ensures r.durability == DurabilityUnknown <==> durability == TRANSIENT || durability == PERSISTENT
      ensures r.liveliness == LivelinessUnknown <==> liveliness == MANUAL_BY_PARTICIPANT
      ensures r.history != HistoryUnknown && r.reliability != ReliabilityUnknown
    {
      r := qos.(history := HistoryUnknown, depth := 0);
      r := r.(reliability := match reliability case BEST_EFFORT => BestEffort case RELIABLE => Reliable);
      r := r.(durability := match durability
              case TRANSIENT_LOCAL => TransientLocal
              case VOLATILE => Volatile
              case _ => DurabilityUnknown);
      r := r.(deadline := DurationToRmw(deadline));
      if isWriter {
        r := r.(lifespan := DurationToRmw(lifespan));
      }
      r := r.(liveliness := match liveliness
              case AUTOMATIC => Automatic
              case MANUAL_BY_TOPIC => ManualByTopic
              case _ => LivelinessUnknown);
      r := r.(lease := DurationToRmw(lease));
      r := r.(history := match history case KEEP_LAST => KeepLast case KEEP_ALL => KeepAll);
      r := r.(depth := SignExtend(depth));
    }
  }

  // ---------- what was asked for is reported back ----------

  predicate Specified(t: Time) {
    !SameTime(t, UNSPECIFIED)
  }

  /** Every policy the profile sets explicitly, and the entity has, is in the report. */
  predicate ReportsBack(p: Profile, r: Profile, isWriter: bool) {
    && (p.history.HistorySystemDefault? || r.history == p.history)
    && (p.depth == 0 || r.depth == p.depth)
    && (p.reliability.ReliabilitySystemDefault? || r.reliability == p.reliability)
    && (p.durability.DurabilitySystemDefault? || r.durability == p.durability)
    && (p.liveliness.LivelinessSystemDefault? || r.liveliness == p.liveliness)
    && (Specified(p.deadline) ==> SameTime(r.deadline, p.deadline))
    && (Specified(p.lease) ==> SameTime(r.lease, p.lease))
    && (isWriter && Specified(p.lifespan) ==> SameTime(r.lifespan, p.lifespan))
  }

  /** The depth fits in 32 bits and every explicit duration can be carried. */
  predicate Representable(p: Profile, isWriter: bool) {
    && p.depth as int <= INT32_MAX
    && (Specified(p.deadline) ==> Carried(p.deadline))
    && (Specified(p.lease) ==> Carried(p.lease))
    && (isWriter && Specified(p.lifespan) ==> Carried(p.lifespan))
  }

  /** A duration that was set explicitly is reported back exactly when it can be carried. */
  lemma ReportedTime(t: Time, kept: Duration)
    ensures (Specified(t) ==> SameTime(DurationToRmw(DurationAfter(t, kept)), t)) <==> (Specified(t) ==> Carried(t))
  {
    hide SameTime;
    hide Carried;
    hide TimeToDds;
    hide DurationToRmw;
    DurationRoundTrip(t);
  }

  /** Creating an entity from a profile and asking it for its actual QoS. */
  method ApplyAndReport(entity: EntityQos, p: Profile, qos: Profile) returns (outcome: Outcome, r: Profile)
    modifies entity
    ensures outcome == Applied ==> (ReportsBack(p, r, entity.isWriter) <==> Representable(p, entity.isWriter))
    ensures outcome == Applied ==>
              && (p.history == HistorySystemDefault || r.history == p.history)
              && (p.reliability == ReliabilitySystemDefault || r.reliability == p.reliability)
              && (p.durability == DurabilitySystemDefault || r.durability == p.durability)
              && (p.liveliness == LivelinessSystemDefault || r.liveliness == p.liveliness)
              && (p.depth == 0 || r.depth == p.depth <==> p.depth as int <= 0x7FFF_FFFF)
  {
    hide SameTime;
    hide TimeToDds;
    hide DurationToRmw;
    hide ToInt32;
    hide Carried;
    hide KnownPolicies;
    hide SignExtend;
    hide Specified;
    hide HistoryAfter;
    hide ReliabilityAfter;
    hide DurabilityAfter;
    hide LivelinessAfter;
    hide DurationAfter;
    hide ReportedHistory;
    hide ReportedReliability;
    hide ReportedDurability;
    hide ReportedLiveliness;
    r := qos;
    if KnownPolicies(p) {
      PoliciesReported(p, entity.history, entity.reliability, entity.durability, entity.liveliness);
    }
    ReportedTime(p.deadline, entity.deadline);
    ReportedTime(p.lease, entity.lease);
    ReportedTime(p.lifespan, entity.lifespan);
    CastIsExact(p.depth);
    outcome := entity.SetFromProfile(p);
    if outcome == Applied {
      r := entity.Report(qos);
      assert p.depth == 0 || r.depth == p.depth <==> p.depth as int <= INT32_MAX;
    }
  }
}
