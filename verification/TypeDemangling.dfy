/** ROS type names inside DDS type names. */
module TypeDemangling {
  import opened Wrappers
  import opened StringSearch
  import opened TypeNames

  const DDS_NAMESPACE := "dds_::"
  const RESPONSE_SUFFIX := "_Response_"
  const REQUEST_SUFFIX := "_Request_"

  /** _demangle_if_ros_type; reading the last character of an empty string is not defined. */
  function DemangleType(ddsType: string): string
    requires ddsType != ""
  {
    match Find(ddsType, DDS_NAMESPACE)
    case Some(position) =>
      if ddsType[|ddsType| - 1] == '_' then
        var start := position + |DDS_NAMESPACE|;
        var typeNamespace := Substr(ddsType, 0, position);
        ColonsToSlashes(typeNamespace) + Substr(ddsType, start, Minus(Minus(|ddsType|, 1), start))
      else ddsType
    case None => ddsType
  }

  /**
   * Where the service type name is cut: at a response suffix at the very end, else at the last request suffix,
   * at the end or not.
   */
  function SuffixPosition(ddsType: string): Option<nat> {
    match RFind(ddsType, RESPONSE_SUFFIX)
    case Some(p) => if p + |RESPONSE_SUFFIX| == |ddsType| then Some(p) else RFind(ddsType, REQUEST_SUFFIX)
    case None => RFind(ddsType, REQUEST_SUFFIX)
  }

  function ServiceType(ddsType: string): string {
    match Find(ddsType, DDS_NAMESPACE)
    case None => ""
    case Some(position) =>
      match SuffixPosition(ddsType)
      case None => ""
      case Some(suffixPosition) =>
        var start := position + |DDS_NAMESPACE|;
        ColonsToSlashes(Substr(ddsType, 0, position)) + Substr(ddsType, start, Minus(suffixPosition, start))
  }

  /** _demangle_service_type_only, with its loop over the two suffixes. */
  method DemangleServiceType(ddsType: string) returns (r: string)
    ensures r == ServiceType(ddsType)
  {
    var position := Find(ddsType, DDS_NAMESPACE);
    if position.None? {
      return "";
    }
    var suffixes := [RESPONSE_SUFFIX, REQUEST_SUFFIX];
    var suffixPosition: Option<nat> := None;
    for i := 0 to |suffixes|
      invariant i == 1 ==> !(exists p :: RFind(ddsType, RESPONSE_SUFFIX) == Some(p) && p + |RESPONSE_SUFFIX| == |ddsType|)
      invariant i == 2 ==> suffixPosition == SuffixPosition(ddsType)
    {
      suffixPosition := RFind(ddsType, suffixes[i]);
      if suffixPosition.Some? {
        if |ddsType| - suffixPosition.value - |suffixes[i]| != 0 {
          continue;
        }
        assert suffixPosition == SuffixPosition(ddsType);
        break;
      }
    }
    if suffixPosition.None? {
      return "";
    }
    var typeNamespace := ColonsToSlashes(Substr(ddsType, 0, position.value));
    var start := position.value + |DDS_NAMESPACE|;
    r := typeNamespace + Substr(ddsType, start, Minus(suffixPosition.value, start));
  }

  // ---------- namespaces as lists of components ----------

  predicate ColonFree(s: string) {
    ':' !in s
  }

  predicate ColonFreeAll(components: seq<string>) {
    forall i | 0 <= i < |components| :: ColonFree(components[i])
  }

  function Join(components: seq<string>): string {
    if components == [] then "" else if |components| == 1 then components[0]
    else components[0] + "::" + Join(components[1..])
  }

  function EachWith(components: seq<string>, separator: string): string {
    if components == [] then "" else components[0] + separator + EachWith(components[1..], separator)
  }

  lemma {:induction false} JoinThenColons(components: seq<string>)
    requires components != []
    ensures Join(components) + "::" == EachWith(components, "::")
  {
    if |components| > 1 {
      JoinThenColons(components[1..]);
      assert Join(components) + "::" == components[0] + "::" + (Join(components[1..]) + "::");
    } else {
      assert EachWith(components[1..], "::") == "";
    }
  }

  /** The list of one empty component would be the empty namespace over again. */
  predicate ProperNamespace(components: seq<string>) {
    components != [""] && ColonFreeAll(components)
  }

  lemma TypeNameShape(components: seq<string>, name: string)
    requires ProperNamespace(components)
    ensures CreateTypeName(Join(components), name) == EachWith(components, "::") + DDS_NAMESPACE + (name + "_")
  {
    if components != [] {
      JoinThenColons(components);
      assert Join(components) != "" by {
        if |components| > 1 {
          assert |Join(components)| >= 2;
        } else {
          assert components == [components[0]];
        }
      }
    }
  }

  lemma {:induction false} SlashesOfComponent(c: string, rest: string)
    requires ColonFree(c)
    ensures ColonsToSlashes(c + "::" + rest) == c + "/" + ColonsToSlashes(rest)
  {
    var s := c + "::" + rest;
    if c == "" {
      assert s[..2] == "::";
      assert s[2..] == rest;
    } else {
      assert s[0] == c[0] && s[0] in c;
      assert s[1..] == c[1..] + "::" + rest;
      SlashesOfComponent(c[1..], rest);
    }
  }

  lemma {:induction false} SlashesOfNamespace(components: seq<string>)
    requires ColonFreeAll(components)
    ensures ColonsToSlashes(EachWith(components, "::")) == EachWith(components, "/")
  {
    if components != [] {
      SlashesOfComponent(components[0], EachWith(components[1..], "::"));
      SlashesOfNamespace(components[1..]);
    }
  }

  // ---------- where "dds_::" is found ----------

  predicate EndsInDds(c: string) {
    |c| >= 4 && c[|c| - 4..] == "dds_"
  }

  predicate NoneEndsInDds(components: seq<string>) {
    forall i | 0 <= i < |components| :: !EndsInDds(components[i])
  }

  lemma OccursCharwise(s: string, i: nat)
    ensures OccursAt(s, DDS_NAMESPACE, i) <==>
            i + 6 <= |s| && s[i] == 'd' && s[i + 1] == 'd' && s[i + 2] == 's' && s[i + 3] == '_' &&
            s[i + 4] == ':' && s[i + 5] == ':'
  {
    if i + 6 <= |s| {
      var t := s[i..i + 6];
      assert t[0] == s[i] && t[1] == s[i + 1] && t[2] == s[i + 2] && t[3] == s[i + 3] && t[4] == s[i + 4] && t[5] == s[i + 5];
      assert t == DDS_NAMESPACE <==> forall k | 0 <= k < 6 :: t[k] == DDS_NAMESPACE[k];
    }
  }

  lemma OccursInComponent(c: string, rest: string, i: nat)
    requires ColonFree(c) && i < |c| + 2
    ensures OccursAt(c + "::" + rest, DDS_NAMESPACE, i) <==> EndsInDds(c) && i == |c| - 4
  {
    var s := c + "::" + rest;
    OccursCharwise(s, i);
    assert forall k | 0 <= k < |c| :: s[k] == c[k] && s[k] in c;
    assert s[|c|] == ':' && s[|c| + 1] == ':';
    if |c| >= 4 {
      var t := c[|c| - 4..];
      assert t == "dds_" <==> t[0] == 'd' && t[1] == 'd' && t[2] == 's' && t[3] == '_';
    }
  }

  lemma OccursInRest(c: string, rest: string, i: nat)
    requires i >= |c| + 2
    ensures OccursAt(c + "::" + rest, DDS_NAMESPACE, i) <==> OccursAt(rest, DDS_NAMESPACE, i - |c| - 2)
  {
    OccursCharwise(c + "::" + rest, i);
    OccursCharwise(rest, i - |c| - 2);
  }

  lemma MarkerAfterComponent(c: string, rest: string)
    requires ColonFree(c) && Find(rest, DDS_NAMESPACE).Some?
    ensures Find(c + "::" + rest, DDS_NAMESPACE) ==
            Some(if EndsInDds(c) then |c| - 4 else Find(rest, DDS_NAMESPACE).value + |c| + 2)
  {
    hide OccursAt;
    var s, r' := c + "::" + rest, Find(rest, DDS_NAMESPACE).value + |c| + 2;
    OccursInRest(c, rest, r');
    var r := Find(s, DDS_NAMESPACE).value;
    if EndsInDds(c) {
      OccursInComponent(c, rest, |c| - 4);
    }
    if r < |c| + 2 {
      OccursInComponent(c, rest, r);
    } else {
      OccursInRest(c, rest, r);
    }
  }

  /** The namespace marker is found where it was put if and only if no component of the namespace ends in "dds_". */
  lemma {:induction false} FindMarker(components: seq<string>, tail: string)
    requires ColonFreeAll(components)
    ensures var s := EachWith(components, "::") + DDS_NAMESPACE + tail;
            var r := Find(s, DDS_NAMESPACE);
            && r.Some? && r.value <= |EachWith(components, "::")|
            && (r.value == |EachWith(components, "::")| <==> NoneEndsInDds(components))
            && (r.value < |EachWith(components, "::")| ==> r.value + 6 <= |EachWith(components, "::")|)
  {
    var p := EachWith(components, "::");
    var s := p + DDS_NAMESPACE + tail;
    if components == [] {
      assert OccursAt(s, DDS_NAMESPACE, 0);
    } else {
      var c, rest := components[0], EachWith(components[1..], "::") + DDS_NAMESPACE + tail;
      assert s == c + "::" + rest;
      FindMarker(components[1..], tail);
      MarkerAfterComponent(c, rest);
      assert NoneEndsInDds(components) <==> !EndsInDds(c) && NoneEndsInDds(components[1..]);
    }
  }

  // ---------- round trips ----------

  lemma {:induction false} SlashedIsColonFree(components: seq<string>)
    requires ColonFreeAll(components)
    ensures ColonFree(EachWith(components, "/"))
  {
    if components != [] {
      SlashedIsColonFree(components[1..]);
    }
  }

  /** What both demangling functions return, given where they find the marker and where the name ends. */
  function Reformatted(s: string, position: nat, end: nat): string
    requires position + 6 <= end <= |s|
  {
    ColonsToSlashes(s[..position]) + s[position + 6..end]
  }

  lemma Pieces(a: string, b: string, c: string, d: string, s: string, start: nat, end: nat)
    requires s == a + b + (c + d) && start == |a| + |b| && end == start + |c|
    ensures end == |s| - |d| && s[..|a|] == a && s[start..end] == c
  {
  }

  lemma ReformattedIs(s: string, position: nat, end: nat, front: string, cut: string)
    requires position + 6 <= end <= |s| && s[..position] == front && s[position + 6..end] == cut
    ensures Reformatted(s, position, end) == ColonsToSlashes(front) + cut
  {
    hide ColonsToSlashes;
  }

  /** A marker found too early leaves the colons of the real one in the result. */
  lemma EarlyMarker(p: string, name: string, suffix: string, s: string, position: nat)
    requires s == p + DDS_NAMESPACE + (name + suffix) && position + 6 <= |p|
    ensures position + 6 <= |s| - |suffix| && ':' in Reformatted(s, position, |s| - |suffix|)
  {
    hide ColonsToSlashes;
    var cut, k := s[position + 6..|s| - |suffix|], |p| + 4 - (position + 6);
    assert cut[k] == s[|p| + 4] == ':';
    var front := ColonsToSlashes(s[..position]);
    assert (front + cut)[|front| + k] == ':';
  }

  lemma ColonFreeParts(a: string, b: string)
    requires ColonFree(a) && ColonFree(b)
    ensures ':' !in a + b
  {
  }

  lemma ReformattedName(components: seq<string>, name: string, suffix: string, s: string, position: nat)
    requires ColonFreeAll(components) && ColonFree(name)
    requires s == EachWith(components, "::") + DDS_NAMESPACE + (name + suffix)
    requires Find(s, DDS_NAMESPACE) == Some(position)
    ensures position <= |EachWith(components, "::")|
    ensures Reformatted(s, position, |s| - |suffix|) == EachWith(components, "/") + name <==> NoneEndsInDds(components)
  {
    hide *;
    var p := EachWith(components, "::");
    FindMarker(components, name + suffix);
    if position == |p| {
      SlashesOfNamespace(components);
      SuffixesAreNotEmpty();
      Pieces(p, DDS_NAMESPACE, name, suffix, s, position + 6, position + 6 + |name|);
      ReformattedIs(s, position, position + 6 + |name|, p, name);
    } else {
      SlashedIsColonFree(components);
      EarlyMarker(p, name, suffix, s, position);
      ColonFreeParts(EachWith(components, "/"), name);
    }
  }

  /**
   * A type name made from colon-free parts demangles to namespace/name, with slashes, if and only if no component
   * of the namespace ends in "dds_".
   */
  lemma TypeRoundTrip(components: seq<string>, name: string)
    requires ProperNamespace(components) && ColonFree(name)
    requires |CreateTypeName(Join(components), name)| < SIZE_MODULUS
    ensures CreateTypeName(Join(components), name) != ""
    ensures DemangleType(CreateTypeName(Join(components), name)) == EachWith(components, "/") + name
       <==> NoneEndsInDds(components)
  {
    var s := CreateTypeName(Join(components), name);
    TypeNameShape(components, name);
    ProperIsColonFree(components);
    hide *;
    FindMarker(components, name + "_");
    var position := Find(s, DDS_NAMESPACE).value;
    ReformattedName(components, name, "_", s, position);
    assert s[|s| - 1] == '_';
    assert |DDS_NAMESPACE| == 6;
    DemangleTypeIs(s, position);
  }

  lemma OtherSuffixIsNotAtTheEnd(front: string)
    ensures SuffixPosition(front + RESPONSE_SUFFIX) == Some(|front|)
    ensures SuffixPosition(front + REQUEST_SUFFIX) == Some(|front|)
  {
    EndsInPattern(front, RESPONSE_SUFFIX);
    EndsInPattern(front, REQUEST_SUFFIX);
    var s := front + REQUEST_SUFFIX;
    if |s| >= |RESPONSE_SUFFIX| {
      var end := s[|s| - |RESPONSE_SUFFIX|..];
      assert end[1] == REQUEST_SUFFIX[0] && RESPONSE_SUFFIX[1] != REQUEST_SUFFIX[0];
      assert !OccursAt(s, RESPONSE_SUFFIX, |s| - |RESPONSE_SUFFIX|);
    }
  }

  lemma ServiceTypeOf(components: seq<string>, name: string, suffix: string, s: string)
    requires ProperNamespace(components) && ColonFree(name) && suffix in {RESPONSE_SUFFIX, REQUEST_SUFFIX}
    requires s == EachWith(components, "::") + DDS_NAMESPACE + (name + suffix) && |s| < SIZE_MODULUS
    ensures ServiceType(s) == EachWith(components, "/") + name <==> NoneEndsInDds(components)
  {
    hide *;
    ProperIsColonFree(components);
    SuffixesAreNotEmpty();
    FindMarker(components, name + suffix);
    var front := EachWith(components, "::") + DDS_NAMESPACE + name;
    Regroup(EachWith(components, "::") + DDS_NAMESPACE, name, suffix);
    var position := Find(s, DDS_NAMESPACE).value;
    ReformattedName(components, name, suffix, s, position);
    OtherSuffixIsNotAtTheEnd(front);
    ServiceTypeIs(s, position, |front|);
  }

  lemma SuffixesAreNotEmpty()
    ensures |DDS_NAMESPACE| == 6 && RESPONSE_SUFFIX != "" && REQUEST_SUFFIX != ""
  {
  }

  lemma Regroup(a: string, b: string, c: string)
    ensures a + (b + c) == (a + b) + c
  {
  }

  lemma ProperIsColonFree(components: seq<string>)
    requires ProperNamespace(components)
    ensures ColonFreeAll(components)
  {
  }

  lemma ServiceTypeIs(s: string, position: nat, end: nat)
    requires Find(s, DDS_NAMESPACE) == Some(position) && SuffixPosition(s) == Some(end)
    requires position + 6 <= end <= |s| < SIZE_MODULUS
    ensures ServiceType(s) == Reformatted(s, position, end)
  {
    hide Find;
    hide SuffixPosition;
    hide ColonsToSlashes;
    hide Minus;
    MinusIsExact(end, position + 6);
  }

  /** For every ROS type name, well formed or not, the length handed to substr does not wrap. */
  lemma DemangleTypeIs(s: string, position: nat)
    requires s != "" && s[|s| - 1] == '_' && |s| < SIZE_MODULUS
    requires Find(s, DDS_NAMESPACE) == Some(position)
    ensures position + 6 <= |s| - 1
    ensures DemangleType(s) == Reformatted(s, position, |s| - 1)
  {
    OccursCharwise(s, position);
    hide Find;
    hide ColonsToSlashes;
    hide Minus;
    MinusIsExact(|s|, 1);
    MinusIsExact(|s| - 1, position + 6);
  }

  /**
   * The request and response types of one service demangle to the same service type, namespace/name, even when the
   * name contains one of the suffixes, under the same exact condition on the namespace.
   */
  lemma ServiceTypeRoundTrip(components: seq<string>, name: string)
    requires ProperNamespace(components) && ColonFree(name)
    requires |CreateTypeName(Join(components), name + "_Response")| < SIZE_MODULUS
    ensures ServiceType(CreateTypeName(Join(components), name + "_Request")) == EachWith(components, "/") + name
       <==> NoneEndsInDds(components)
    ensures ServiceType(CreateTypeName(Join(components), name + "_Response")) == EachWith(components, "/") + name
       <==> NoneEndsInDds(components)
  {
    var p := EachWith(components, "::") + DDS_NAMESPACE;
    TypeNameShape(components, name + "_Request");
    TypeNameShape(components, name + "_Response");
    assert name + "_Request" + "_" == name + REQUEST_SUFFIX;
    assert name + "_Response" + "_" == name + RESPONSE_SUFFIX;
    ServiceTypeOf(components, name, REQUEST_SUFFIX, p + (name + REQUEST_SUFFIX));
    ServiceTypeOf(components, name, RESPONSE_SUFFIX, p + (name + RESPONSE_SUFFIX));
  }

  // ---------- names of other origin ----------

  lemma {:induction false} SlashesAreShorter(s: string)
    ensures |ColonsToSlashes(s)| <= |s|
  {
    if s != "" {
      SlashesAreShorter(if "::" <= s then s[2..] else s[1..]);
    }
  }

  /** Exactly the names without the marker, or without the underscore at the end, are not ROS types and stay as they are. */
  lemma ForeignType(ddsType: string)
    requires ddsType != "" && |ddsType| < SIZE_MODULUS
    ensures DemangleType(ddsType) == ddsType <==>
            (forall i: nat :: !OccursAt(ddsType, "dds_::", i)) || ddsType[|ddsType| - 1] != '_'
  {
    var found := Find(ddsType, DDS_NAMESPACE);
    if found.Some? {
      assert OccursAt(ddsType, "dds_::", found.value);
      if ddsType[|ddsType| - 1] == '_' {
        DemangleTypeIs(ddsType, found.value);
        SlashesAreShorter(ddsType[..found.value]);
        assert |Reformatted(ddsType, found.value, |ddsType| - 1)| < |ddsType|;
      }
    }
  }

  /** Without the marker, or without a suffix that counts, there is no service type. */
  lemma ForeignServiceType(ddsType: string)
    requires Find(ddsType, DDS_NAMESPACE).None? || SuffixPosition(ddsType).None?
    ensures ServiceType(ddsType) == ""
  {
  }
}
