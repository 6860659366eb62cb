/** The cache of discovered endpoints: two indexes, updated together, and the queries on them. */
module TopicCaches {

  type Guid = int

  /** What discovery tells about one endpoint; qos stands for its profile. */
  datatype TopicInfo = TopicInfo(topicName: string, topicType: string, participant: Guid, endpoint: Guid, qos: int)

  type TopicsTypes = map<string, set<string>>

  type Endpoints = map<Guid, TopicInfo>

  // ---------- the simple map the cache is meant to be ----------

  /** The first announcement of an endpoint wins until the endpoint is removed. */
  function Announced(graph: Endpoints, info: TopicInfo): Endpoints {
    if info.endpoint in graph then graph else graph[info.endpoint := info]
  }

  function Withdrawn(graph: Endpoints, endpoint: Guid): Endpoints {
    map e | e in graph && e != endpoint :: graph[e]
  }

  /** Topic names and their types, over the endpoints a filter keeps. */
  function Grouped(graph: Endpoints, keep: TopicInfo -> bool): TopicsTypes {
    map name | name in NamesOf(graph, keep) :: TypesOf(graph, keep, name)
  }

  function NamesOf(graph: Endpoints, keep: TopicInfo -> bool): set<string> {
    set e | e in graph && keep(graph[e]) :: graph[e].topicName
  }

  function TypesOf(graph: Endpoints, keep: TopicInfo -> bool, name: string): set<string> {
    set e | e in graph && keep(graph[e]) && graph[e].topicName == name :: graph[e].topicType
  }

  function OfParticipant(participant: Guid): TopicInfo -> bool {
    (info: TopicInfo) => info.participant == participant
  }

  /** topics_types[name].insert(type), creating the entry when it is missing. */
  function Insert(topics: TopicsTypes, name: string, topicType: string): TopicsTypes {
    topics[name := (if name in topics then topics[name] else {}) + {topicType}]
  }

  // ---------- the two indexes ----------

  type Index = map<Guid, multiset<Guid>>

  /** An endpoint occurs exactly once, under the participant its info records, and nowhere else. */
  ghost predicate Agree(endpoints: Endpoints, participants: Index) {
    && (forall e <- endpoints :: endpoints[e].endpoint == e && endpoints[e].participant in participants)
    && forall p <- participants, e: Guid :: participants[p][e] == Occurrences(endpoints, p, e)
  }

  function Occurrences(endpoints: Endpoints, participant: Guid, endpoint: Guid): nat {
    if endpoint in endpoints && endpoints[endpoint].participant == participant then 1 else 0
  }

  lemma AddKeepsAgreement(endpoints: Endpoints, participants: Index, info: TopicInfo)
    requires Agree(endpoints, participants)
    requires info.participant in participants && info.endpoint !in endpoints
    ensures Agree(endpoints[info.endpoint := info],
                  participants[info.participant := participants[info.participant] + multiset{info.endpoint}])
  {
  }

  lemma RemoveKeepsAgreement(endpoints: Endpoints, participants: Index, endpoint: Guid)
    requires Agree(endpoints, participants) && endpoint in endpoints
    ensures var p := endpoints[endpoint].participant;
            p in participants && endpoint in participants[p] &&
            Agree(Withdrawn(endpoints, endpoint), participants[p := participants[p] - multiset{endpoint}])
  {
    var p := endpoints[endpoint].participant;
    assert participants[p][endpoint] == 1;
  }

  // ---------- the cache ----------

  class TopicCache {
    var endpoints: Endpoints
    var participants: Index

    ghost predicate Valid()
      reads this
    {
      Agree(endpoints, participants)
    }

    constructor ()
      ensures Valid() && endpoints == map[] && participants == map[]
    {
      endpoints := map[];
      participants := map[];
    }

    method AddTopic(info: TopicInfo) returns (changed: bool)
      requires Valid()
      modifies this
      ensures Valid()
      ensures changed <==> info.endpoint !in old(endpoints)
      ensures endpoints == Announced(old(endpoints), info)
      ensures participants.Keys == old(participants.Keys) + {info.participant}
    {
      if info.participant !in participants {
        participants := participants[info.participant := multiset{}];
      }
      if info.endpoint in endpoints {
        return false;
      }
      AddKeepsAgreement(endpoints, participants, info);
      endpoints := endpoints[info.endpoint := info];
      participants := participants[info.participant := participants[info.participant] + multiset{info.endpoint}];
      changed := true;
    }

    method RemoveTopic(endpoint: Guid) returns (changed: bool)
      requires Valid()
      modifies this
      ensures Valid()
      ensures changed <==> endpoint in old(endpoints)
      ensures endpoints == Withdrawn(old(endpoints), endpoint)
      ensures participants.Keys == old(participants.Keys)
    {
      if endpoint !in endpoints {
        assert Withdrawn(endpoints, endpoint) == endpoints;
        return false;
      }
      RemoveKeepsAgreement(endpoints, participants, endpoint);
      var participant := endpoints[endpoint].participant;
      // the two branches that give up are dead
      if participant !in participants {
        assert false;
      } else if endpoint !in participants[participant] {
        assert false;
      }
      endpoints := map e | e in endpoints && e != endpoint :: endpoints[e];
      participants := participants[participant := participants[participant] - multiset{endpoint}];
      if |participants| == 0 {
        // the cleanup of empty participants asks about the wrong map: this one still has the entry just updated
        assert false;
      }
      changed := true;
    }

    method GetTopicTypesByGuid(participant: Guid) returns (topics: TopicsTypes)
      requires Valid()
      ensures topics == Grouped(endpoints, OfParticipant(participant))
    {
      hide *;
      topics := map[];
      NothingGrouped(OfParticipant(participant));
      AgreementAt(this, participant);
      if participant !in participants {
        SameGroups(map[], endpoints, OfParticipant(participant));
        return;
      }
      var rest := participants[participant];
      ghost var seen: Endpoints := map[];
      while |rest| > 0
        invariant forall e: Guid :: rest[e] <= participants[participant][e]
        invariant forall e: Guid :: e in seen <==> participants[participant][e] == 1 && rest[e] == 0
        invariant forall e: Guid :: e in seen ==> e in endpoints && seen[e] == endpoints[e]
        invariant topics == Grouped(seen, OfParticipant(participant))
        decreases |rest|
      {
        SomeMember(rest);
        var e :| e in rest;
        rest := rest - multiset{e};
        if e !in endpoints {
          continue;
        }
        var info := endpoints[e];
        GroupedOneMore(seen, participant, e, info);
        seen := seen[e := info];
        topics := Insert(topics, info.topicName, info.topicType);
      }
      SameGroups(seen, endpoints, OfParticipant(participant));
    }
  }

  /** What agreement says about one participant, known or not. */
  lemma AgreementAt(cache: TopicCache, participant: Guid)
    requires cache.Valid()
    ensures forall info: TopicInfo :: OfParticipant(participant)(info) <==> info.participant == participant
    ensures participant !in cache.participants ==>
              forall e <- cache.endpoints :: cache.endpoints[e].participant != participant
    ensures participant in cache.participants ==>
              forall e: Guid :: cache.participants[participant][e] ==
                if e in cache.endpoints && cache.endpoints[e].participant == participant then 1 else 0
  {
  }

  /** A name is grouped with a type exactly when some endpoint that is kept has both, and no name without a type. */
  lemma GroupedMeans(graph: Endpoints, keep: TopicInfo -> bool, name: string, topicType: string)
    ensures name in Grouped(graph, keep) && topicType in Grouped(graph, keep)[name] <==>
            exists e <- graph :: keep(graph[e]) && graph[e].topicName == name && graph[e].topicType == topicType
    ensures name in Grouped(graph, keep) ==> Grouped(graph, keep)[name] != {}
  {
    NoTypes(graph, keep, name);
    if e :| e in graph && keep(graph[e]) && graph[e].topicName == name && graph[e].topicType == topicType {
      assert name in NamesOf(graph, keep) && topicType in TypesOf(graph, keep, name);
    }
  }

  lemma ParticipantGroups(graph: Endpoints, participant: Guid, name: string, topicType: string)
    ensures var topics := Grouped(graph, OfParticipant(participant));
            && (name in topics && topicType in topics[name] <==>
                exists e <- graph :: graph[e].participant == participant && graph[e].topicName == name
                                     && graph[e].topicType == topicType)
            && (name in topics ==> topics[name] != {})
  {
    GroupedMeans(graph, OfParticipant(participant), name, topicType);
    hide Grouped;
    if e :| e in graph && graph[e].participant == participant && graph[e].topicName == name
            && graph[e].topicType == topicType
    {
      assert OfParticipant(participant)(graph[e]);
    }
  }

  lemma NothingGrouped(keep: TopicInfo -> bool)
    ensures Grouped(map[], keep) == map[]
  {
  }

  lemma GroupedOneMore(graph: Endpoints, participant: Guid, e: Guid, info: TopicInfo)
    requires e !in graph && info.participant == participant
    ensures Grouped(graph[e := info], OfParticipant(participant)) ==
            Insert(Grouped(graph, OfParticipant(participant)), info.topicName, info.topicType)
  {
    hide Grouped;
    hide Insert;
    GroupedStep(graph, OfParticipant(participant), e, info);
  }

  lemma SomeMember(m: multiset<Guid>)
    requires |m| > 0
    ensures exists e :: e in m
  {
    assert (forall e :: e !in m) ==> m == multiset{};
  }

  lemma NamesStep(graph: Endpoints, keep: TopicInfo -> bool, e: Guid, info: TopicInfo)
    requires e !in graph
    ensures NamesOf(graph[e := info], keep) == NamesOf(graph, keep) + if keep(info) then {info.topicName} else {}
  {
    var more := graph[e := info];
    assert forall d :: d in graph ==> d in more && more[d] == graph[d];
    assert e in more && more[e] == info;
  }

  lemma TypesStep(graph: Endpoints, keep: TopicInfo -> bool, e: Guid, info: TopicInfo, name: string)
    requires e !in graph
    ensures TypesOf(graph[e := info], keep, name) ==
            TypesOf(graph, keep, name) + if keep(info) && name == info.topicName then {info.topicType} else {}
  {
    var more := graph[e := info];
    assert forall d :: d in graph ==> d in more && more[d] == graph[d];
    assert e in more && more[e] == info;
  }

  lemma GroupedStep(graph: Endpoints, keep: TopicInfo -> bool, e: Guid, info: TopicInfo)
    requires e !in graph
    ensures Grouped(graph[e := info], keep) ==
            if keep(info) then Insert(Grouped(graph, keep), info.topicName, info.topicType) else Grouped(graph, keep)
  {
    hide NamesOf;
    hide TypesOf;
    NamesStep(graph, keep, e, info);
    forall name
      ensures TypesOf(graph[e := info], keep, name) ==
              TypesOf(graph, keep, name) + if keep(info) && name == info.topicName then {info.topicType} else {}
    {
      TypesStep(graph, keep, e, info, name);
    }
    NoTypes(graph, keep, info.topicName);
    var more := graph[e := info];
    if keep(info) {
      var g := Insert(Grouped(graph, keep), info.topicName, info.topicType);
      assert g.Keys == NamesOf(more, keep);
      forall name | name in g
        ensures g[name] == TypesOf(more, keep, name)
      {
      }
      assert g == Grouped(more, keep);
    } else {
      assert NamesOf(more, keep) == NamesOf(graph, keep);
      forall name
        ensures TypesOf(more, keep, name) == TypesOf(graph, keep, name)
      {
      }
      assert Grouped(more, keep) == Grouped(graph, keep);
    }
  }

  lemma NoTypes(graph: Endpoints, keep: TopicInfo -> bool, name: string)
    ensures name in NamesOf(graph, keep) <==> TypesOf(graph, keep, name) != {}
  {
    if name in NamesOf(graph, keep) {
      var d :| d in graph && keep(graph[d]) && graph[d].topicName == name;
      assert graph[d].topicType in TypesOf(graph, keep, name);
    }
  }

  /** Grouping looks only at the endpoints the filter keeps. */
  lemma SameGroups(a: Endpoints, b: Endpoints, keep: TopicInfo -> bool)
    requires forall e: Guid :: (e in a && keep(a[e])) <==> (e in b && keep(b[e]))
    requires forall e: Guid :: e in a && keep(a[e]) ==> a[e] == b[e]
    ensures Grouped(a, keep) == Grouped(b, keep)
  {
    assert NamesOf(a, keep) == NamesOf(b, keep) by {
      assert forall n :: n in NamesOf(a, keep) ==> n in NamesOf(b, keep);
    }
    forall name
      ensures TypesOf(a, keep, name) == TypesOf(b, keep, name)
    {
    }
  }
}
