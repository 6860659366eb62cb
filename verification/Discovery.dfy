/** Discovery batches and the graph they leave behind. */
module Discovery {
  import opened Wrappers
  import opened TopicCaches

  /** One sample of a built-in reader: data about an endpoint, or the notice that its instance is gone. */
  datatype Sample = Sample(guid: Guid, validData: bool, alive: bool, participant: Guid,
                           topicName: string, topicType: string, qos: int)

  datatype Event = Announce(info: TopicInfo) | Withdraw(endpoint: Guid)

  function EventOf(s: Sample): Event {
    if s.validData && s.alive then Announce(TopicInfo(s.topicName, s.topicType, s.participant, s.guid, s.qos))
    else Withdraw(s.guid)
  }

  function EventsOf(samples: seq<Sample>): seq<Event> {
    seq(|samples|, i requires 0 <= i < |samples| => EventOf(samples[i]))
  }

  function Subject(e: Event): Guid {
    match e
    case Announce(info) => info.endpoint
    case Withdraw(endpoint) => endpoint
  }

  function Step(graph: Endpoints, e: Event): Endpoints {
    match e
    case Announce(info) => Announced(graph, info)
    case Withdraw(endpoint) => Withdrawn(graph, endpoint)
  }

  /** Whether the event changes the graph, which is what the cache answers. */
  predicate Changes(graph: Endpoints, e: Event) {
    match e
    case Announce(info) => info.endpoint !in graph
    case Withdraw(endpoint) => endpoint in graph
  }

  function Replay(graph: Endpoints, events: seq<Event>): Endpoints {
    if events == [] then graph else Step(Replay(graph, events[..|events| - 1]), events[|events| - 1])
  }

  function Answers(graph: Endpoints, events: seq<Event>): seq<bool> {
    if events == [] then []
    else
      var front := events[..|events| - 1];
      Answers(graph, front) + [Changes(Replay(graph, front), events[|events| - 1])]
  }

  // ---------- what a batch leaves behind, sample by sample ----------

  /**
   * The sample at position i is the announcement of an endpoint that counts after the batch: it is valid and alive, no
   * withdrawal is behind it, and whatever announced the endpoint earlier, in the batch or before it, was withdrawn
   * before this sample.
   */
  predicate CountsAfter(samples: seq<Sample>, g: Guid, known: bool, i: nat) {
    && i < |samples| && samples[i].guid == g && samples[i].validData && samples[i].alive
    && (forall k | i < k < |samples| && samples[k].guid == g :: samples[k].validData && samples[k].alive)
    && (forall k | 0 <= k < i && samples[k].guid == g && samples[k].validData && samples[k].alive ::
          exists j :: k < j < i && samples[j].guid == g && !(samples[j].validData && samples[j].alive))
    && (known ==> exists j :: 0 <= j < i && samples[j].guid == g && !(samples[j].validData && samples[j].alive))
  }

  predicate AnyWithdrawal(samples: seq<Sample>, g: Guid) {
    exists j :: 0 <= j < |samples| && samples[j].guid == g && !(samples[j].validData && samples[j].alive)
  }

  lemma GraphStep(graph: Endpoints, samples: seq<Sample>, g: Guid)
    requires samples != []
    ensures var n := |samples| - 1; var last := samples[n];
            var before, after := Replay(graph, EventsOf(samples[..n])), Replay(graph, EventsOf(samples));
            && (last.guid != g ==> (g in after <==> g in before) && (g in before ==> after[g] == before[g]))
            && (last.guid == g && !(last.validData && last.alive) ==> g !in after)
            && (last.guid == g && last.validData && last.alive ==>
                  && g in after
                  && (g in before ==> after[g] == before[g])
                  && (g !in before ==>
                        && after[g].topicName == last.topicName && after[g].topicType == last.topicType
                        && after[g].participant == last.participant && after[g].endpoint == g && after[g].qos == last.qos))
  {
    var n := |samples| - 1;
    assert EventsOf(samples)[..n] == EventsOf(samples[..n]);
  }

  lemma {:induction false} SomeCounts(samples: seq<Sample>, g: Guid, known: bool, k: nat) returns (i: nat)
    requires k < |samples| && samples[k].guid == g && samples[k].validData && samples[k].alive
    requires forall j | k < j < |samples| && samples[j].guid == g :: samples[j].validData && samples[j].alive
    requires known ==> AnyWithdrawal(samples, g)
    ensures CountsAfter(samples, g, known, i)
  {
    if known {
      var j :| 0 <= j < |samples| && samples[j].guid == g && !(samples[j].validData && samples[j].alive);
      assert j < k;
    }
    if CountsAfter(samples, g, known, k) {
      i := k;
    } else {
      var k' :| 0 <= k' < k && samples[k'].guid == g && samples[k'].validData && samples[k'].alive &&
        !exists j :: k' < j < k && samples[j].guid == g && !(samples[j].validData && samples[j].alive);
      i := SomeCounts(samples, g, known, k');
    }
  }

  lemma OlderCounts(samples: seq<Sample>, g: Guid, known: bool, i: nat)
    requires samples != [] && i < |samples| - 1
    ensures var n := |samples| - 1;
            CountsAfter(samples, g, known, i) <==>
            CountsAfter(samples[..n], g, known, i) && (samples[n].guid != g || (samples[n].validData && samples[n].alive))
  {
    var n := |samples| - 1;
    var front := samples[..n];
    assert forall k | 0 <= k < n :: samples[k] == front[k];
    if CountsAfter(samples, g, known, i) {
      assert samples[n].guid == g ==> samples[n].validData && samples[n].alive;
    }
  }

  lemma NewestCounts(samples: seq<Sample>, g: Guid, known: bool)
    requires samples != []
    ensures var n := |samples| - 1; var front, last := samples[..n], samples[n];
            CountsAfter(samples, g, known, n) <==>
            && last.guid == g && last.validData && last.alive
            && (known ==> AnyWithdrawal(front, g)) && forall i: nat :: !CountsAfter(front, g, known, i)
  {
    var n := |samples| - 1;
    var front, last := samples[..n], samples[n];
    assert forall i | 0 <= i < n :: samples[i] == front[i];
    if last.guid == g && last.validData && last.alive && (known ==> AnyWithdrawal(front, g)) &&
       forall i: nat :: !CountsAfter(front, g, known, i)
    {
      forall k | 0 <= k < n && samples[k].guid == g && samples[k].validData && samples[k].alive
        ensures exists j :: k < j < n && samples[j].guid == g && !(samples[j].validData && samples[j].alive)
      {
        if forall j | k < j < n && front[j].guid == g :: front[j].validData && front[j].alive {
          var i := SomeCounts(front, g, known, k);
        }
      }
    }
  }

  lemma WithdrawalStep(samples: seq<Sample>, g: Guid)
    requires samples != []
    ensures var n := |samples| - 1;
            AnyWithdrawal(samples, g) <==>
            AnyWithdrawal(samples[..n], g) || (samples[n].guid == g && !(samples[n].validData && samples[n].alive))
  {
    var n := |samples| - 1;
    assert forall i | 0 <= i < n :: samples[i] == samples[..n][i];
  }

  lemma CountsInBounds(samples: seq<Sample>, g: Guid, known: bool)
    ensures forall i: nat | CountsAfter(samples, g, known, i) :: i < |samples|
  {
  }

  lemma NothingHappened(graph: Endpoints, g: Guid)
    ensures Replay(graph, EventsOf([])) == graph && !AnyWithdrawal([], g)
    ensures forall known: bool, i: nat :: !CountsAfter([], g, known, i)
  {
  }

  /** After a batch an endpoint is known if and only if some sample of it counts, or it was known and not withdrawn. */
  lemma {:induction false} BatchOfSamples(graph: Endpoints, samples: seq<Sample>, g: Guid)
    ensures var after := Replay(graph, EventsOf(samples));
            && (g in after <==> (g in graph && !AnyWithdrawal(samples, g))
                                || exists i: nat :: CountsAfter(samples, g, g in graph, i))
            && (g in graph && !AnyWithdrawal(samples, g) ==> after[g] == graph[g])
            && forall i: nat | CountsAfter(samples, g, g in graph, i) ::
                 && g in after && after[g].topicName == samples[i].topicName && after[g].topicType == samples[i].topicType
                 && after[g].participant == samples[i].participant && after[g].endpoint == g
                 && after[g].qos == samples[i].qos
  {
    hide *;
    if samples == [] {
      NothingHappened(graph, g);
    } else {
      var n, known := |samples| - 1, g in graph;
      var front := samples[..n];
      BatchOfSamples(graph, front, g);
      GraphStep(graph, samples, g);
      NewestCounts(samples, g, known);
      WithdrawalStep(samples, g);
      CountsInBounds(front, g, known);
      CountsInBounds(samples, g, known);
      forall i: nat | i < n
        ensures CountsAfter(samples, g, known, i) <==>
                CountsAfter(front, g, known, i) && (samples[n].guid != g || (samples[n].validData && samples[n].alive))
        ensures front[i] == samples[i]
      {
        OlderCounts(samples, g, known, i);
      }
    }
  }

  lemma BatchOfAllSamples(graph: Endpoints, samples: seq<Sample>)
    ensures var after := Replay(graph, EventsOf(samples));
            && (forall g: Guid :: g in after <==> (g in graph && !AnyWithdrawal(samples, g))
                                                  || exists i: nat :: CountsAfter(samples, g, g in graph, i))
            && (forall g: Guid | g in graph && !AnyWithdrawal(samples, g) :: g in after && after[g] == graph[g])
            && forall g: Guid, i: nat | CountsAfter(samples, g, g in graph, i) ::
                 && g in after && after[g].topicName == samples[i].topicName && after[g].topicType == samples[i].topicType
                 && after[g].participant == samples[i].participant && after[g].endpoint == g
                 && after[g].qos == samples[i].qos
  {
    hide *;
    forall g: Guid
      ensures var after := Replay(graph, EventsOf(samples));
              && (g in after <==> (g in graph && !AnyWithdrawal(samples, g))
                                  || exists i: nat :: CountsAfter(samples, g, g in graph, i))
              && (g in graph && !AnyWithdrawal(samples, g) ==> g in after && after[g] == graph[g])
              && forall i: nat | CountsAfter(samples, g, g in graph, i) ::
                   && i < |samples|
                   && g in after && after[g].topicName == samples[i].topicName && after[g].topicType == samples[i].topicType
                   && after[g].participant == samples[i].participant && after[g].endpoint == g
                   && after[g].qos == samples[i].qos
    {
      CountsInBounds(samples, g, g in graph);
      BatchOfSamples(graph, samples, g);
    }
  }

  /** on_data_available: one cache update per sample; the graph guard condition is triggered by a non-empty batch. */
  method OnDataAvailable(cache: TopicCache, samples: seq<Sample>) returns (answers: seq<bool>, triggered: bool)
    requires cache.Valid()
    modifies cache
    ensures cache.Valid()
    ensures cache.endpoints == Replay(old(cache.endpoints), EventsOf(samples))
    ensures answers == Answers(old(cache.endpoints), EventsOf(samples))
    ensures triggered <==> samples != []
    ensures forall g: Guid :: g in cache.endpoints <==>
              || (g in old(cache.endpoints) && !AnyWithdrawal(samples, g))
              || exists i: nat :: CountsAfter(samples, g, g in old(cache.endpoints), i)
    ensures forall g: Guid | g in old(cache.endpoints) && !AnyWithdrawal(samples, g) ::
              cache.endpoints[g] == old(cache.endpoints)[g]
    ensures forall g: Guid, i: nat | CountsAfter(samples, g, g in old(cache.endpoints), i) ::
              && g in cache.endpoints && cache.endpoints[g].topicName == samples[i].topicName
              && cache.endpoints[g].topicType == samples[i].topicType
              && cache.endpoints[g].participant == samples[i].participant
              && cache.endpoints[g].endpoint == g && cache.endpoints[g].qos == samples[i].qos
  {
    answers := [];
    ghost var events := EventsOf(samples);
    for i := 0 to |samples|
      invariant cache.Valid()
      invariant cache.endpoints == Replay(old(cache.endpoints), events[..i])
      invariant answers == Answers(old(cache.endpoints), events[..i])
    {
      var changed;
      if samples[i].validData && samples[i].alive {
        var s := samples[i];
        changed := cache.AddTopic(TopicInfo(s.topicName, s.topicType, s.participant, s.guid, s.qos));
      } else {
        changed := cache.RemoveTopic(samples[i].guid);
      }
      assert events[..i + 1][..i] == events[..i] && events[..i + 1][i] == EventOf(samples[i]);
      answers := answers + [changed];
    }
    assert events[..|samples|] == events;
    triggered := |samples| > 0;
    BatchOfAllSamples(old(cache.endpoints), samples);
  }

  // ---------- laws of runs ----------

  /** Cutting a batch into smaller ones changes neither the graph nor the answers. */
  lemma {:induction false} BatchCut(graph: Endpoints, a: seq<Event>, b: seq<Event>)
    ensures Replay(graph, a + b) == Replay(Replay(graph, a), b)
    ensures Answers(graph, a + b) == Answers(graph, a) + Answers(Replay(graph, a), b)
    decreases b
  {
    if b == [] {
      assert a + b == a;
    } else {
      var front := b[..|b| - 1];
      assert (a + b)[..|a + b| - 1] == a + front;
      BatchCut(graph, a, front);
    }
  }

  /** The events about one endpoint, in order. */
  function About(events: seq<Event>, endpoint: Guid): seq<Event> {
    if events == [] then []
    else
      var front, last := About(events[..|events| - 1], endpoint), events[|events| - 1];
      if Subject(last) == endpoint then front + [last] else front
  }

  function At(graph: Endpoints, endpoint: Guid): Option<TopicInfo> {
    if endpoint in graph then Some(graph[endpoint]) else None
  }

  /** What a run says about an endpoint is decided by the events about that endpoint alone. */
  lemma {:induction false} EndpointIndependence(graph: Endpoints, events: seq<Event>, endpoint: Guid)
    ensures At(Replay(graph, events), endpoint) == At(Replay(graph, About(events, endpoint)), endpoint)
  {
    if events != [] {
      var front, last := events[..|events| - 1], events[|events| - 1];
      EndpointIndependence(graph, front, endpoint);
      var about := About(events, endpoint);
      if Subject(last) == endpoint {
        assert about[..|about| - 1] == About(front, endpoint);
      }
    }
  }

  /** Events about different endpoints commute: only the order of the events of each endpoint matters. */
  lemma ReorderingIsHarmless(graph: Endpoints, a: seq<Event>, b: seq<Event>)
    requires forall endpoint :: About(a, endpoint) == About(b, endpoint)
    ensures Replay(graph, a) == Replay(graph, b)
  {
    forall endpoint
      ensures At(Replay(graph, a), endpoint) == At(Replay(graph, b), endpoint)
    {
      EndpointIndependence(graph, a, endpoint);
      EndpointIndependence(graph, b, endpoint);
    }
    SameGraph(Replay(graph, a), Replay(graph, b));
  }

  lemma SameGraph(a: Endpoints, b: Endpoints)
    requires forall endpoint :: At(a, endpoint) == At(b, endpoint)
    ensures a == b
  {
    forall endpoint
      ensures endpoint in a <==> endpoint in b
      ensures endpoint in a ==> a[endpoint] == b[endpoint]
    {
      assert At(a, endpoint) == At(b, endpoint);
    }
  }

  /** Announcing a new endpoint and withdrawing it again restores the graph. */
  lemma AddThenRemove(graph: Endpoints, info: TopicInfo)
    ensures Replay(graph, [Announce(info), Withdraw(info.endpoint)]) == graph <==> info.endpoint !in graph
  {
    var events := [Announce(info), Withdraw(info.endpoint)];
    assert events[..1] == [Announce(info)] && events[..1][..0] == [];
    assert Replay(graph, events[..1]) == Announced(graph, info);
    assert Replay(graph, events) == Withdrawn(Announced(graph, info), info.endpoint);
  }

  /** The announcement at position i is the one in force: the first one since the last withdrawal. */
  predicate InForce(events: seq<Event>, endpoint: Guid, i: nat) {
    && i < |events| && events[i].Announce? && Subject(events[i]) == endpoint
    && (forall k | i < k < |events| :: events[k] != Withdraw(endpoint))
    && forall k | 0 <= k < i && events[k].Announce? && Subject(events[k]) == endpoint ::
         exists j :: k < j < i && events[j] == Withdraw(endpoint)
  }

  lemma AtStep(events: seq<Event>, endpoint: Guid)
    requires events != []
    ensures var n := |events| - 1; var before, last := At(Replay(map[], events[..n]), endpoint), events[n];
            At(Replay(map[], events), endpoint) ==
            if last == Withdraw(endpoint) then None
            else if last.Announce? && Subject(last) == endpoint && before.None? then Some(last.info)
            else before
  {
  }

  /** After any run from an empty cache, the graph holds exactly the announcements in force. */
  lemma {:induction false} FirstAnnouncementWins(events: seq<Event>, endpoint: Guid, info: TopicInfo)
    ensures At(Replay(map[], events), endpoint) == Some(info) <==>
            exists i: nat :: InForce(events, endpoint, i) && events[i] == Announce(info)
    ensures endpoint !in Replay(map[], events) <==> forall i: nat :: !InForce(events, endpoint, i)
  {
    hide *;
    AtNone(Replay(map[], events), endpoint);
    if events == [] {
      NothingYet(endpoint);
    } else {
      var n := |events| - 1;
      var front, last := events[..n], events[n];
      FirstAnnouncementWins(front, endpoint, info);
      AtNone(Replay(map[], front), endpoint);
      AtStep(events, endpoint);
      InForceStep(events, endpoint);
      SubjectOf(info);
      if last.Announce? && Subject(last) == endpoint && At(Replay(map[], front), endpoint).None? {
        assert InForce(events, endpoint, n);
        assert last == Announce(info) <==> last.info == info;
      } else {
        assert !InForce(events, endpoint, n);
        assert forall i: nat | InForce(events, endpoint, i) :: i < n && events[i] == front[i];
        assert forall i: nat | InForce(front, endpoint, i) :: events[i] == front[i];
      }
    }
  }

  lemma AtNone(graph: Endpoints, endpoint: Guid)
    ensures At(graph, endpoint) == None <==> endpoint !in graph
  {
  }

  lemma NothingYet(endpoint: Guid)
    ensures At(Replay(map[], []), endpoint) == None && forall i: nat :: !InForce([], endpoint, i)
  {
  }

  lemma SubjectOf(info: TopicInfo)
    ensures Subject(Announce(info)) == info.endpoint
  {
  }

  /** An announcement that was not withdrawn, or an earlier one, is in force. */
  lemma {:induction false} SomeInForce(events: seq<Event>, endpoint: Guid, k: nat) returns (i: nat)
    requires k < |events| && events[k].Announce? && Subject(events[k]) == endpoint
    requires forall j | k < j < |events| :: events[j] != Withdraw(endpoint)
    ensures InForce(events, endpoint, i)
  {
    if InForce(events, endpoint, k) {
      i := k;
    } else {
      var k' :| 0 <= k' < k && events[k'].Announce? && Subject(events[k']) == endpoint &&
        !exists j :: k' < j < k && events[j] == Withdraw(endpoint);
      i := SomeInForce(events, endpoint, k');
    }
  }

  lemma InForceStep(events: seq<Event>, endpoint: Guid)
    requires events != []
    ensures var n := |events| - 1; var front, last := events[..n], events[n];
            && (forall i: nat | i < n :: InForce(events, endpoint, i) <==> InForce(front, endpoint, i) && last != Withdraw(endpoint))
            && (forall i: nat | InForce(events, endpoint, i) :: i <= n)
            && (forall i: nat | InForce(front, endpoint, i) :: i < n)
            && (InForce(events, endpoint, n) <==>
                last.Announce? && Subject(last) == endpoint && forall i: nat :: !InForce(front, endpoint, i))
  {
    var n := |events| - 1;
    var front, last := events[..n], events[n];
    if last.Announce? && Subject(last) == endpoint && forall i: nat :: !InForce(front, endpoint, i) {
      forall k | 0 <= k < n && events[k].Announce? && Subject(events[k]) == endpoint
        ensures exists j :: k < j < n && events[j] == Withdraw(endpoint)
      {
        if forall j | k < j < n :: front[j] != Withdraw(endpoint) {
          var i := SomeInForce(front, endpoint, k);
        }
      }
    }
    assert forall i | 0 <= i < n :: events[i] == front[i];
  }
}
