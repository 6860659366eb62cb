/** The listener's whole-graph and per-participant queries, and the endpoint query by topic. */
module GraphQueries {
  import opened TopicCaches
  import opened TopicNames

  // ---------- topic names and types ----------

  predicate Shows(noDemangle: bool, topicName: string) {
    noDemangle || PrefixOf(topicName) == TOPIC_PREFIX
  }

  function Visible(noDemangle: bool): TopicInfo -> bool {
    (info: TopicInfo) => Shows(noDemangle, info.topicName)
  }

  function VisibleOf(noDemangle: bool, participant: Guid): TopicInfo -> bool {
    (info: TopicInfo) => Shows(noDemangle, info.topicName) && info.participant == participant
  }

  /** The entries of both, types united where a name occurs in both. */
  function Merged(a: TopicsTypes, b: TopicsTypes): TopicsTypes {
    map name | name in a.Keys + b.Keys ::
      (if name in a then a[name] else {}) + (if name in b then b[name] else {})
  }

  function TypesAt(topics: TopicsTypes, name: string): set<string> {
    if name in topics then topics[name] else {}
  }

  lemma MergedAt(a: TopicsTypes, b: TopicsTypes)
    ensures Merged(a, b).Keys == a.Keys + b.Keys
    ensures forall name | name in Merged(a, b) :: Merged(a, b)[name] == TypesAt(a, name) + TypesAt(b, name)
  {
  }

  lemma SameTopics(a: TopicsTypes, b: TopicsTypes)
    requires a.Keys == b.Keys && forall name | name in a :: a[name] == b[name]
    ensures a == b
  {
  }

  lemma MergedGroup(a: TopicsTypes, b: TopicsTypes, name: string, types: set<string>)
    ensures Merged(a, b)[name := TypesAt(Merged(a, b), name) + types] == Merged(a, b[name := TypesAt(b, name) + types])
  {
    hide Merged;
    MergedAt(a, b);
    MergedAt(a, b[name := TypesAt(b, name) + types]);
    var m := Merged(a, b);
    SameTopics(m[name := TypesAt(m, name) + types], Merged(a, b[name := TypesAt(b, name) + types]));
  }

  lemma MergedInsert(a: TopicsTypes, b: TopicsTypes, name: string, topicType: string)
    ensures Insert(Merged(a, b), name, topicType) == Merged(a, Insert(b, name, topicType))
  {
    hide Merged;
    MergedGroup(a, b, name, {topicType});
  }

  lemma MergedNothing(a: TopicsTypes)
    ensures Merged(a, map[]) == a
  {
    hide Merged;
    MergedAt(a, map[]);
    SameTopics(Merged(a, map[]), a);
  }

  lemma SomeGuid(s: set<Guid>)
    requires s != {}
    ensures exists e: Guid :: e in s
  {
    assert (forall e: Guid :: e !in s) ==> s == {};
  }

  /** One more endpoint, seen through both Grouped and Merged. */
  lemma FillStep(topics: TopicsTypes, seen: Endpoints, keep: TopicInfo -> bool, e: Guid, info: TopicInfo)
    requires e !in seen
    ensures Merged(topics, Grouped(seen[e := info], keep)) ==
            if keep(info) then Insert(Merged(topics, Grouped(seen, keep)), info.topicName, info.topicType)
            else Merged(topics, Grouped(seen, keep))
  {
    hide Grouped;
    hide Merged;
    hide Insert;
    GroupedStep(seen, keep, e, info);
    MergedInsert(topics, Grouped(seen, keep), info.topicName, info.topicType);
  }

  /** fill_topic_names_and_types: adds to what the caller's map already holds. */
  method FillTopicNamesAndTypes(cache: TopicCache, noDemangle: bool, topics: TopicsTypes) returns (r: TopicsTypes)
    requires cache.Valid()
    ensures r == Merged(topics, Grouped(cache.endpoints, Visible(noDemangle)))
  {
    hide Merged;
    hide Insert;
    hide PrefixOf;
    var graph := cache.endpoints;
    ghost var keep := Visible(noDemangle);
    r := topics;
    var rest := graph.Keys;
    ghost var seen: Endpoints := map[];
    MergedNothing(topics);
    assert Partly(seen, graph, rest);
    assert Grouped(seen, keep) == map[];
    hide Grouped;
    hide Partly;
    while rest != {}
      invariant rest <= graph.Keys && Partly(seen, graph, rest)
      invariant r == Merged(topics, Grouped(seen, keep))
      decreases |rest|
    {
      SomeGuid(rest);
      var e :| e in rest;
      var info := graph[e];
      PartlyStep(seen, graph, rest, e);
      FillStep(topics, seen, keep, e, info);
      rest := rest - {e};
      seen := seen[e := info];
      if !noDemangle && PrefixOf(info.topicName) != TOPIC_PREFIX {
        continue;
      }
      r := Insert(r, info.topicName, info.topicType);
    }
    assert seen == graph by { NothingLeft(seen, graph); }
  }

  /** All of a graph but the endpoints still to come. */
  predicate Partly(seen: Endpoints, graph: Endpoints, rest: set<Guid>) {
    seen == graph - rest
  }

  lemma NothingLeft(seen: Endpoints, graph: Endpoints)
    requires Partly(seen, graph, {})
    ensures seen == graph
  {
  }

  lemma PartlyStep(seen: Endpoints, graph: Endpoints, rest: set<Guid>, e: Guid)
    requires Partly(seen, graph, rest) && e in rest && e in graph
    ensures e !in seen && Partly(seen[e := graph[e]], graph, rest - {e})
  {
    assert seen[e := graph[e]] == graph - (rest - {e});
  }

  lemma ShownGroup(noDemangle: bool, name: string)
    ensures Shows(noDemangle, name) <==> noDemangle || PrefixOf(name) == TOPIC_PREFIX
  {
  }

  lemma AddGroup(a: TopicsTypes, b: TopicsTypes, name: string, types: set<string>)
    requires name !in b
    ensures var m := Merged(a, b);
            m[name := (if name in m then m[name] else {}) + types] == Merged(a, b[name := types])
  {
    hide Merged;
    MergedGroup(a, b, name, types);
    assert TypesAt(b, name) + types == types;
  }

  /** fill_topic_names_and_types_by_guid: filters the participant's groups by name. */
  method FillTopicNamesAndTypesByGuid(cache: TopicCache, noDemangle: bool, participant: Guid, topics: TopicsTypes)
    returns (r: TopicsTypes)
    requires cache.Valid()
    ensures r == Merged(topics, Grouped(cache.endpoints, VisibleOf(noDemangle, participant)))
  {
    hide *;
    r := topics;
    var groups := cache.GetTopicTypesByGuid(participant);
    var rest := groups.Keys;
    ghost var seen: TopicsTypes := map[];
    MergedNothing(topics);
    while rest != {}
      invariant rest <= groups.Keys
      invariant forall name :: name in seen <==> name in groups && name !in rest && Shows(noDemangle, name)
      invariant forall name <- seen :: seen[name] == groups[name]
      invariant r == Merged(topics, seen)
      decreases |rest|
    {
      var name :| name in rest;
      rest := rest - {name};
      ShownGroup(noDemangle, name);
      if !noDemangle && PrefixOf(name) != TOPIC_PREFIX {
        continue;
      }
      AddGroup(topics, seen, name, groups[name]);
      seen := seen[name := groups[name]];
      r := r[name := (if name in r then r[name] else {}) + groups[name]];
    }
    GroupsFilteredByName(cache.endpoints, noDemangle, participant);
    assert seen == map name | name in groups && Shows(noDemangle, name) :: groups[name];
  }

  /** Dropping whole groups by name is the same as not grouping their endpoints in the first place. */
  lemma GroupsFilteredByName(graph: Endpoints, noDemangle: bool, participant: Guid)
    ensures var groups := Grouped(graph, OfParticipant(participant));
            (map name | name in groups && Shows(noDemangle, name) :: groups[name]) ==
            Grouped(graph, VisibleOf(noDemangle, participant))
  {
    var all, some := OfParticipant(participant), VisibleOf(noDemangle, participant);
    var groups := Grouped(graph, all);
    forall name: string
      ensures name in NamesOf(graph, some) <==> name in NamesOf(graph, all) && Shows(noDemangle, name)
      ensures Shows(noDemangle, name) ==> TypesOf(graph, some, name) == TypesOf(graph, all, name)
    {
      VisibleInGroup(graph, noDemangle, participant, name);
    }
    hide NamesOf;
    hide TypesOf;
    hide Shows;
    SameTopics(map name | name in groups && Shows(noDemangle, name) :: groups[name], Grouped(graph, some));
  }

  lemma VisibleInGroup(graph: Endpoints, noDemangle: bool, participant: Guid, name: string)
    ensures name in NamesOf(graph, VisibleOf(noDemangle, participant)) <==>
            name in NamesOf(graph, OfParticipant(participant)) && Shows(noDemangle, name)
    ensures Shows(noDemangle, name) ==>
              TypesOf(graph, VisibleOf(noDemangle, participant), name) ==
              TypesOf(graph, OfParticipant(participant), name)
  {
    hide PrefixOf;
  }

  predicate Has(topics: TopicsTypes, name: string, topicType: string) {
    name in topics && topicType in topics[name]
  }

  /**
   * The per-participant views, united over all participants, are the view of the whole graph: in both directions,
   * for names and for types, demangled or not.
   */
  lemma ViewsAgree(graph: Endpoints, noDemangle: bool, name: string, topicType: string)
    ensures Has(Grouped(graph, Visible(noDemangle)), name, topicType) <==>
            exists p: Guid :: Has(Grouped(graph, VisibleOf(noDemangle, p)), name, topicType)
    ensures name in Grouped(graph, Visible(noDemangle)) <==>
            exists p: Guid :: name in Grouped(graph, VisibleOf(noDemangle, p))
  {
    var whole := Grouped(graph, Visible(noDemangle));
    if Has(whole, name, topicType) {
      var e :| e in graph && Visible(noDemangle)(graph[e]) && graph[e].topicName == name && graph[e].topicType == topicType;
      assert VisibleOf(noDemangle, graph[e].participant)(graph[e]);
      assert Has(Grouped(graph, VisibleOf(noDemangle, graph[e].participant)), name, topicType);
    }
    if name in whole {
      var e :| e in graph && Visible(noDemangle)(graph[e]) && graph[e].topicName == name;
      assert VisibleOf(noDemangle, graph[e].participant)(graph[e]);
      assert name in Grouped(graph, VisibleOf(noDemangle, graph[e].participant));
    }
    forall p: Guid | name in Grouped(graph, VisibleOf(noDemangle, p))
      ensures name in whole
      ensures Has(Grouped(graph, VisibleOf(noDemangle, p)), name, topicType) ==> Has(whole, name, topicType)
    {
      var e :| e in graph && VisibleOf(noDemangle, p)(graph[e]) && graph[e].topicName == name;
      assert Visible(noDemangle)(graph[e]);
      assert forall t :: t in TypesOf(graph, VisibleOf(noDemangle, p), name) ==> t in TypesOf(graph, Visible(noDemangle), name);
    }
  }

  /**
   * What the whole-graph query adds: exactly the names and types of endpoints whose topic name starts with "rt/", or
   * of all of them when names are taken as they are.
   */
  lemma ShownTopics(topics: TopicsTypes, graph: Endpoints, noDemangle: bool, name: string, topicType: string)
    ensures Has(Merged(topics, Grouped(graph, Visible(noDemangle))), name, topicType) <==>
            || Has(topics, name, topicType)
            || exists e <- graph :: graph[e].topicName == name && graph[e].topicType == topicType
                                    && (noDemangle || "rt/" <= name)
  {
    GroupedMeans(graph, Visible(noDemangle), name, topicType);
    MergedAt(topics, Grouped(graph, Visible(noDemangle)));
    StartsWithTopicPrefix(name);
    hide Merged;
    hide Grouped;
    hide PrefixOf;
    if e :| e in graph && graph[e].topicName == name && graph[e].topicType == topicType && (noDemangle || "rt/" <= name) {
      assert Visible(noDemangle)(graph[e]);
    }
  }

  /** The per-participant query, likewise. */
  lemma ShownTopicsOf(topics: TopicsTypes, graph: Endpoints, noDemangle: bool, participant: Guid, name: string,
      topicType: string)
    ensures Has(Merged(topics, Grouped(graph, VisibleOf(noDemangle, participant))), name, topicType) <==>
            || Has(topics, name, topicType)
            || exists e <- graph :: graph[e].topicName == name && graph[e].topicType == topicType
                                    && graph[e].participant == participant && (noDemangle || "rt/" <= name)
  {
    GroupedMeans(graph, VisibleOf(noDemangle, participant), name, topicType);
    MergedAt(topics, Grouped(graph, VisibleOf(noDemangle, participant)));
    StartsWithTopicPrefix(name);
    hide Merged;
    hide Grouped;
    hide PrefixOf;
    if e :| e in graph && graph[e].topicName == name && graph[e].topicType == topicType
            && graph[e].participant == participant && (noDemangle || "rt/" <= name)
    {
      assert VisibleOf(noDemangle, participant)(graph[e]);
    }
  }

  lemma StartsWithTopicPrefix(name: string)
    ensures PrefixOf(name) == TOPIC_PREFIX <==> "rt/" <= name
  {
  }

  // ---------- endpoints by topic ----------

  function ShownName(noMangle: bool, info: TopicInfo): string {
    if noMangle then info.topicName else DemangleTopic(info.topicName)
  }

  function Matching(graph: Endpoints, noMangle: bool, names: seq<string>): set<Guid> {
    set e | e in graph && ShownName(noMangle, graph[e]) in names
  }

  lemma MatchingOne(graph: Endpoints, noMangle: bool, name: string)
    ensures forall e :: e in Matching(graph, noMangle, [name]) <==> e in graph && ShownName(noMangle, graph[e]) == name
  {
    assert forall n: string :: n in [name] <==> n == name;
  }

  lemma MatchingOneMore(graph: Endpoints, noMangle: bool, names: seq<string>, name: string)
    ensures Matching(graph, noMangle, names + [name]) ==
            Matching(graph, noMangle, names) + Matching(graph, noMangle, [name])
    ensures name !in names ==> Matching(graph, noMangle, names) !! Matching(graph, noMangle, [name])
  {
    MatchingOne(graph, noMangle, name);
    assert forall n: string :: n in names + [name] <==> n in names || n == name;
  }

  /** A list with each of the given endpoints exactly once, and its current info. */
  predicate ListsOnce(infos: seq<TopicInfo>, graph: Endpoints, endpoints: set<Guid>) {
    && (forall i | 0 <= i < |infos| :: infos[i].endpoint in endpoints && infos[i].endpoint in graph
                                       && graph[infos[i].endpoint] == infos[i])
    && (forall e <- endpoints :: exists i :: 0 <= i < |infos| && infos[i].endpoint == e)
    && forall i, j | 0 <= i < j < |infos| :: infos[i].endpoint != infos[j].endpoint
  }

  lemma ListedOneMore(infos: seq<TopicInfo>, graph: Endpoints, endpoints: set<Guid>, e: Guid)
    requires ListsOnce(infos, graph, endpoints)
    requires e in graph && graph[e].endpoint == e && e !in endpoints
    ensures ListsOnce(infos + [graph[e]], graph, endpoints + {e})
  {
    var more := infos + [graph[e]];
    forall d <- endpoints + {e}
      ensures exists i :: 0 <= i < |more| && more[i].endpoint == d
    {
      if d == e {
        assert more[|infos|].endpoint == e;
      } else {
        var i :| 0 <= i < |infos| && infos[i].endpoint == d;
        assert more[i].endpoint == d;
      }
    }
  }

  method CountTopic(cache: TopicCache, topicName: string) returns (count: nat)
    ensures count == |Matching(cache.endpoints, false, [topicName])|
  {
    var matching := set e | e in cache.endpoints && DemangleTopic(cache.endpoints[e].topicName) == topicName;
    MatchingOne(cache.endpoints, false, topicName);
    assert matching == Matching(cache.endpoints, false, [topicName]);
    count := |matching|;
  }

  /** fill_topic_endpoint_infos: appends the matching endpoints to the caller's vector. */
  method FillTopicEndpointInfos(cache: TopicCache, topicName: string, noMangle: bool, infos: seq<TopicInfo>,
      ghost names: seq<string>)
    returns (r: seq<TopicInfo>)
    requires cache.Valid()
    requires topicName !in names
    requires ListsOnce(infos, cache.endpoints, Matching(cache.endpoints, noMangle, names))
    ensures infos <= r
    ensures ListsOnce(r, cache.endpoints, Matching(cache.endpoints, noMangle, names + [topicName]))
  {
    hide *;
    var graph := cache.endpoints;
    ghost var before, wanted := Matching(graph, noMangle, names), Matching(graph, noMangle, [topicName]);
    ghost var listed := before;
    MatchingOneMore(graph, noMangle, names, topicName);
    MatchingOne(graph, noMangle, topicName);
    RecordedUnderThemselves(cache);
    assert forall e | e in wanted :: e in graph;
    r := infos;
    var rest := graph.Keys;
    NothingListed(before, wanted, rest);
    while rest != {}
      invariant rest <= graph.Keys
      invariant infos <= r && ListsOnce(r, graph, listed)
      invariant listed == before + (wanted - rest)
      decreases |rest|
    {
      SomeGuid(rest);
      var e :| e in rest;
      var info := graph[e];
      ListedStep(before, wanted, rest, e);
      if ShownName(noMangle, info) == topicName {
        ListedOneMore(r, graph, listed, e);
        r := r + [info];
        listed := listed + {e};
      }
      rest := rest - {e};
    }
    assert wanted - rest == wanted;
  }

  lemma NothingListed(before: set<Guid>, wanted: set<Guid>, rest: set<Guid>)
    requires wanted <= rest
    ensures before + (wanted - rest) == before
  {
    assert wanted - rest == {};
  }

  lemma ListedStep(before: set<Guid>, wanted: set<Guid>, rest: set<Guid>, e: Guid)
    requires before !! wanted && e in rest
    ensures e in wanted ==> e !in before + (wanted - rest)
    ensures e in wanted ==> before + (wanted - (rest - {e})) == before + (wanted - rest) + {e}
    ensures e !in wanted ==> before + (wanted - (rest - {e})) == before + (wanted - rest)
  {
  }

  lemma RecordedUnderThemselves(cache: TopicCache)
    requires cache.Valid()
    ensures forall e <- cache.endpoints :: cache.endpoints[e].endpoint == e
  {
  }

  // ---------- the query with four names ----------

  function Fqdns(topicName: string, noMangle: bool): seq<string> {
    [topicName] + if noMangle then [] else
      [TOPIC_PREFIX + topicName, REQUESTER_PREFIX + topicName, RESPONSE_PREFIX + topicName]
  }

  method GetTopicFqdns(topicName: string, noMangle: bool) returns (fqdns: seq<string>)
    ensures fqdns == Fqdns(topicName, noMangle)
    ensures fqdns == if noMangle then [topicName]
                     else [topicName, "rt" + topicName, "rq" + topicName, "rr" + topicName]
  {
    fqdns := [topicName];
    if !noMangle {
      for i := 0 to |ROS_PREFIXES|
        invariant fqdns == Fqdns(topicName, noMangle)[..i + 1]
      {
        fqdns := fqdns + [ROS_PREFIXES[i] + topicName];
      }
    }
  }

  lemma FqdnsAreDistinct(topicName: string, noMangle: bool)
    ensures forall i, j | 0 <= i < j < |Fqdns(topicName, noMangle)| ::
              Fqdns(topicName, noMangle)[i] != Fqdns(topicName, noMangle)[j]
  {
    if !noMangle {
      forall k | 0 <= k < 3
        ensures |ROS_PREFIXES[k] + topicName| == |topicName| + 2
        ensures (ROS_PREFIXES[k] + topicName)[1] == ROS_PREFIXES[k][1]
      {
      }
      assert Fqdns(topicName, noMangle)[1][1] == 't' && Fqdns(topicName, noMangle)[2][1] == 'q';
      assert Fqdns(topicName, noMangle)[3][1] == 'r';
    }
  }

  /**
   * No demangled name is one of the three prefixed names unless the topic name is relative: then each of them,
   * used as it is for a DDS topic, would be.
   */
  lemma PrefixedQueriesAreEmpty(topicName: string)
    ensures (forall name :: DemangleTopic(name) in Fqdns(topicName, false) ==> DemangleTopic(name) == topicName)
       <==> Absolute(topicName)
  {
    hide DemangleTopic;
    if Absolute(topicName) {
      forall name | DemangleTopic(name) in Fqdns(topicName, false)
        ensures DemangleTopic(name) == topicName
      {
        NotPrefixed(name, TOPIC_PREFIX, topicName);
        NotPrefixed(name, REQUESTER_PREFIX, topicName);
        NotPrefixed(name, RESPONSE_PREFIX, topicName);
      }
    } else {
      var name := TOPIC_PREFIX + topicName;
      ShownAsItIs(topicName);
      assert name == Fqdns(topicName, false)[1] && |name| != |topicName|;
    }
  }

  /** What is shown is demangled, so it is no prefixed absolute name. */
  lemma NotPrefixed(name: string, prefix: string, topicName: string)
    requires prefix in ROS_PREFIXES && Absolute(topicName)
    ensures DemangleTopic(name) != prefix + topicName
  {
    PrefixOfMangled(prefix, topicName, "");
    assert prefix + topicName + "" == prefix + topicName;
    if PrefixOf(name) != "" {
      assert DemangleTopic(name)[0] == name[2] == '/';
    }
  }

  lemma ShownAsItIs(topicName: string)
    requires !Absolute(topicName)
    ensures DemangleTopic(TOPIC_PREFIX + topicName) == TOPIC_PREFIX + topicName
  {
    PrefixOfMangled(TOPIC_PREFIX, topicName, "");
    assert TOPIC_PREFIX + topicName + "" == TOPIC_PREFIX + topicName;
  }

  /**
   * The endpoint query: one pass over the cache for each of the names. For an absolute topic name, or without
   * mangling, the result lists every endpoint shown under that name exactly once and no other.
   */
  method GetInfoByTopic(cache: TopicCache, topicName: string, noMangle: bool) returns (r: seq<TopicInfo>)
    requires cache.Valid()
    ensures ListsOnce(r, cache.endpoints, Matching(cache.endpoints, noMangle, Fqdns(topicName, noMangle)))
    ensures noMangle || Absolute(topicName) ==>
              ListsOnce(r, cache.endpoints, Matching(cache.endpoints, noMangle, [topicName]))
              && |r| == |Matching(cache.endpoints, noMangle, [topicName])|
    ensures noMangle || Absolute(topicName) ==>
              forall e: Guid :: (exists i :: 0 <= i < |r| && r[i].endpoint == e) <==>
                e in cache.endpoints && topicName == (if noMangle then cache.endpoints[e].topicName
                                                      else DemangleTopic(cache.endpoints[e].topicName))
    ensures forall i | 0 <= i < |r| :: r[i].endpoint in cache.endpoints && r[i] == cache.endpoints[r[i].endpoint]
    ensures forall i, j | 0 <= i < j < |r| :: r[i].endpoint != r[j].endpoint
  {
    var fqdns := GetTopicFqdns(topicName, noMangle);
    FqdnsAreDistinct(topicName, noMangle);
    r := [];
    assert Matching(cache.endpoints, noMangle, []) == {};
    for i := 0 to |fqdns|
      invariant ListsOnce(r, cache.endpoints, Matching(cache.endpoints, noMangle, fqdns[..i]))
    {
      assert fqdns[..i + 1] == fqdns[..i] + [fqdns[i]];
      r := FillTopicEndpointInfos(cache, fqdns[i], noMangle, r, fqdns[..i]);
    }
    assert fqdns[..|fqdns|] == fqdns;
    if !noMangle && Absolute(topicName) {
      PrefixedQueriesAreEmpty(topicName);
      MatchingOne(cache.endpoints, false, topicName);
      assert topicName == fqdns[0];
      assert Matching(cache.endpoints, false, fqdns) == Matching(cache.endpoints, false, [topicName]);
    }
    ListedCount(r, cache.endpoints, Matching(cache.endpoints, noMangle, fqdns));
    if noMangle || Absolute(topicName) {
      ListedMeans(r, cache.endpoints, noMangle, topicName);
    }
  }

  lemma ListedMeans(infos: seq<TopicInfo>, graph: Endpoints, noMangle: bool, topicName: string)
    requires ListsOnce(infos, graph, Matching(graph, noMangle, [topicName]))
    ensures forall e: Guid :: (exists i :: 0 <= i < |infos| && infos[i].endpoint == e) <==>
              e in graph && topicName == if noMangle then graph[e].topicName else DemangleTopic(graph[e].topicName)
  {
    MatchingOne(graph, noMangle, topicName);
    hide Matching;
    hide DemangleTopic;
  }

  /** A list of endpoints without repetition is as long as the set is large: the query and count_topic agree. */
  lemma {:induction false} ListedCount(infos: seq<TopicInfo>, graph: Endpoints, endpoints: set<Guid>)
    requires ListsOnce(infos, graph, endpoints)
    ensures |infos| == |endpoints|
  {
    if infos != [] {
      var n := |infos| - 1;
      var e := infos[n].endpoint;
      forall d <- endpoints - {e}
        ensures exists i :: 0 <= i < n && infos[..n][i].endpoint == d
      {
        var i :| 0 <= i < |infos| && infos[i].endpoint == d;
        assert infos[..n][i].endpoint == d;
      }
      ListedCount(infos[..n], graph, endpoints - {e});
    } else {
      assert forall e <- endpoints :: false;
    }
  }
}
