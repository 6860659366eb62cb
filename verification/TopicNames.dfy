/** ROS names inside DDS topic names: prefixes, mangling and demangling. */
module TopicNames {
  import opened Wrappers
  import opened StringSearch

  const TOPIC_PREFIX := "rt"
  const REQUESTER_PREFIX := "rq"
  const RESPONSE_PREFIX := "rr"
  const ROS_PREFIXES := [TOPIC_PREFIX, REQUESTER_PREFIX, RESPONSE_PREFIX]

  function PrefixOf(topicName: string): string {
    if "rt/" <= topicName then TOPIC_PREFIX
    else if "rq/" <= topicName then REQUESTER_PREFIX
    else if "rr/" <= topicName then RESPONSE_PREFIX
    else ""
  }

  method GetRosPrefixIfExists(topicName: string) returns (prefix: string)
    ensures prefix == PrefixOf(topicName)
  {
    for i := 0 to |ROS_PREFIXES|
      invariant forall k | 0 <= k < i :: !(ROS_PREFIXES[k] + "/" <= topicName)
    {
      if ROS_PREFIXES[i] + "/" <= topicName {
        PrefixMatch(topicName, i);
        return ROS_PREFIXES[i];
      }
    }
    assert !(ROS_PREFIXES[0] + "/" <= topicName) && !(ROS_PREFIXES[1] + "/" <= topicName);
    assert !(ROS_PREFIXES[2] + "/" <= topicName);
    prefix := "";
  }

  lemma PrefixMatch(topicName: string, i: nat)
    requires i < |ROS_PREFIXES| && ROS_PREFIXES[i] + "/" <= topicName
    ensures PrefixOf(topicName) == ROS_PREFIXES[i]
  {
    assert topicName[..2] == ROS_PREFIXES[i] && topicName[2] == '/';
    assert topicName[..3] == ROS_PREFIXES[i] + "/";
  }

  function DemangleTopic(topicName: string): string {
    if PrefixOf(topicName) != "" then topicName[|TOPIC_PREFIX|..] else topicName
  }

  function SuffixFor(prefix: string): string {
    if prefix == RESPONSE_PREFIX then "Reply" else "Request"
  }

  /** _demangle_service_from_topic; "" when the topic is not a service topic. */
  function DemangleService(topicName: string): string {
    var prefix := PrefixOf(topicName);
    if prefix != RESPONSE_PREFIX && prefix != REQUESTER_PREFIX then ""
    else
      match RFind(topicName, SuffixFor(prefix))
      case None => ""
      case Some(position) =>
        var serviceName := Substr(topicName, 0, position + 1);
        ServiceTopicIsLongEnough(topicName, position);
        Substr(serviceName, |prefix|, Minus(Minus(|serviceName|, 1), |prefix|))
  }

  lemma ServiceTopicIsLongEnough(topicName: string, position: nat)
    requires PrefixOf(topicName) in {RESPONSE_PREFIX, REQUESTER_PREFIX}
    requires OccursAt(topicName, SuffixFor(PrefixOf(topicName)), position)
    ensures position >= 3
  {
    assert topicName[position..position + |SuffixFor(PrefixOf(topicName))|][0] == 'R';
  }

  // ---------- mangling, as done when an entity is created ----------

  predicate Absolute(name: string) {
    name != "" && name[0] == '/'
  }

  function MangleTopic(name: string): string {
    TOPIC_PREFIX + name
  }

  function MangleRequest(name: string): string {
    REQUESTER_PREFIX + name + "Request"
  }

  function MangleReply(name: string): string {
    RESPONSE_PREFIX + name + "Reply"
  }

  // ---------- round trips ----------

  /** A mangled topic name demangles to the name if and only if the name is absolute. */
  lemma TopicRoundTrip(name: string)
    ensures DemangleTopic(MangleTopic(name)) == name <==> Absolute(name)
  {
    var mangled := MangleTopic(name);
    assert mangled[2..] == name;
    if Absolute(name) {
      assert mangled[..3] == "rt/";
    } else {
      assert |mangled| == |name| + 2;
      assert name != "" ==> mangled[2] == name[0] != '/';
    }
  }

  lemma PrefixOfMangled(prefix: string, name: string, suffix: string)
    requires prefix in ROS_PREFIXES && (suffix == "" || suffix[0] != '/')
    ensures PrefixOf(prefix + name + suffix) == if Absolute(name) then prefix else ""
  {
    var s := prefix + name + suffix;
    assert s[..2] == prefix;
    if Absolute(name) {
      assert s[2] == '/';
      assert s[..3] == prefix + "/";
    } else if |s| > 2 {
      assert s[2] != '/';
    }
  }

  /** The two unsigned subtractions never wrap: the suffix is always found after the prefix and its slash. */
  lemma NoWrapInService(topicName: string, position: nat)
    requires PrefixOf(topicName) in {RESPONSE_PREFIX, REQUESTER_PREFIX}
    requires RFind(topicName, SuffixFor(PrefixOf(topicName))) == Some(position)
    requires |topicName| < SIZE_MODULUS
    ensures Minus(Minus(position + 1, 1), 2) == position - 2
    ensures DemangleService(topicName) == topicName[2..position]
  {
    hide RFind;
    hide Minus;
    var prefix := PrefixOf(topicName);
    assert OccursAt(topicName, SuffixFor(prefix), position);
    ServiceTopicIsLongEnough(topicName, position);
    MinusIsExact(position + 1, 1);
    MinusIsExact(position, 2);
    assert |prefix| == 2;
    assert topicName[0..position + 1][2..2 + (position - 2)] == topicName[2..position];
  }

  lemma ServiceNameBetween(prefix: string, name: string)
    requires prefix in {RESPONSE_PREFIX, REQUESTER_PREFIX} && Absolute(name)
    requires |prefix + name + SuffixFor(prefix)| < SIZE_MODULUS
    ensures DemangleService(prefix + name + SuffixFor(prefix)) == name
  {
    hide *;
    var suffix := SuffixFor(prefix);
    ServiceParts(prefix);
    PrefixOfMangled(prefix, name, suffix);
    EndsInPattern(prefix + name, suffix);
    NoWrapInService(prefix + name + suffix, |prefix + name|);
    NameBetween(prefix, name, suffix);
  }

  lemma ServiceParts(prefix: string)
    requires prefix in {RESPONSE_PREFIX, REQUESTER_PREFIX}
    ensures |prefix| == 2 && prefix in ROS_PREFIXES && SuffixFor(prefix) != "" && SuffixFor(prefix)[0] != '/'
  {
  }

  lemma NameBetween(prefix: string, name: string, suffix: string)
    ensures (prefix + name + suffix)[|prefix|..|prefix + name|] == name
  {
  }

  /**
   * Request and reply topics demangle to the service name if and only if it is absolute (or empty), whatever
   * "Request" or "Reply" it contains.
   */
  lemma ServiceRoundTrip(name: string)
    requires |name| + 9 < SIZE_MODULUS
    ensures DemangleService(MangleRequest(name)) == name <==> Absolute(name) || name == ""
    ensures DemangleService(MangleReply(name)) == name <==> Absolute(name) || name == ""
  {
    PrefixOfMangled(REQUESTER_PREFIX, name, "Request");
    PrefixOfMangled(RESPONSE_PREFIX, name, "Reply");
    if Absolute(name) {
      ServiceNameBetween(REQUESTER_PREFIX, name);
      ServiceNameBetween(RESPONSE_PREFIX, name);
    }
  }

  /** No plain topic is taken for a service, absolute or not. */
  lemma TopicIsNoService(name: string)
    ensures DemangleService(MangleTopic(name)) == ""
  {
    assert MangleTopic(name)[1] == 't';
  }

  // ---------- names of other origin ----------

  /** Demangling leaves exactly the names alone that do not start with a ROS prefix and a slash. */
  lemma ForeignTopic(topicName: string)
    ensures DemangleTopic(topicName) == topicName <==>
            !("rt/" <= topicName) && !("rq/" <= topicName) && !("rr/" <= topicName)
  {
    if PrefixOf(topicName) != "" {
      assert |DemangleTopic(topicName)| == |topicName| - 2;
    }
  }

  lemma PrefixesDiffer(topicName: string)
    ensures "rq/" <= topicName <==> PrefixOf(topicName) == REQUESTER_PREFIX
    ensures "rr/" <= topicName <==> PrefixOf(topicName) == RESPONSE_PREFIX
  {
    assert "rt/" <= topicName ==> topicName[1] == 't';
    assert "rq/" <= topicName ==> topicName[1] == 'q';
    assert "rr/" <= topicName ==> topicName[1] == 'r';
    assert TOPIC_PREFIX[1] == 't' && REQUESTER_PREFIX[1] == 'q' && RESPONSE_PREFIX[1] == 'r';
  }

  /** A topic has a service name exactly when it starts with a service prefix and holds the suffix that goes with it. */
  lemma ForeignService(topicName: string)
    requires |topicName| < SIZE_MODULUS
    ensures DemangleService(topicName) != "" <==>
            || ("rq/" <= topicName && RFind(topicName, "Request").Some?)
            || ("rr/" <= topicName && RFind(topicName, "Reply").Some?)
  {
    hide RFind;
    var prefix := PrefixOf(topicName);
    PrefixesDiffer(topicName);
    if prefix == RESPONSE_PREFIX || prefix == REQUESTER_PREFIX {
      var found := RFind(topicName, SuffixFor(prefix));
      if found.Some? {
        ServiceTopicIsLongEnough(topicName, found.value);
        NoWrapInService(topicName, found.value);
        assert |topicName[2..found.value]| >= 1;
      } else {
        assert DemangleService(topicName) == "";
      }
    }
  }
}
