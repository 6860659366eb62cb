# Verification of rmw_connext

A Dafny model of the algorithms in `rmw_connext` that decide what a ROS 2 node sends, receives and sees of the
network, with proofs about them. `dafny verify dfyconfig.toml` checks the whole project.

## What is modelled

- **Message transport by introspection** (`Introspection`, `DynamicTree`, `Transport`, `Publishing`, `TakeOutcomes`,
  `Taking`, `TransportLaws`, `SilentFailures`, `FreshDestinations`, `Loopback`): a message is written member by member
  into a tree of dynamic data and read back into a destination, by recursion over the message description. `TypeCodes`,
  `NestedTypes` and `TypeLaws` add the DDS type built from the same description.
- **The patch tool** (`Lines`, `HunkHeaders`, `UnifiedDiff`, `EditScripts`, `PatchLaws`, `PatchTexts`, `PatchRefusals`,
  `HunkOrder`, `PatchLimits`): the scan over the old lines and the diff lines, and the unified format of the POSIX.1-2017 `diff`
  utility.
- **Names** (`StringSearch`, `TopicNames`, `TypeNames`, `TypeDemangling`): mangled and demangled topic, service and
  type names, with `size_t` arithmetic.
- **The graph cache** (`TopicCaches`, `Discovery`, `GraphQueries`): the two indexes of discovered endpoints, whole runs
  of discovery, and the listener's queries.
- **The wait set** (`EventMasks`, `DdsWaitSets`, `WaitSets`, `Waiting`, `WaitMeanings`): attaching, waiting, filtering and detaching
  with every early exit and the cleanup behind it.
- **Samples, QoS and request identities** (`Samples`, `QosProfiles`, `RequestIdentity`).

Code that changes things step by step is modelled by methods, on classes where the program updates an object. Each is
proved against a function or predicate that says what it must achieve, and the laws are lemmas about those.

## How the surroundings are modelled

- Dynamic data is a tree indexed by 1-based member id; an array or sequence of n elements has the ids 1 to n. Ending a
  binding makes the bound member exist. The ids passed when a struct type is built are ignored for plain structs; the
  position counts.
- Messages are typed values. A `bool` is 0 or 1, a float is its bit pattern. Resizing a C++ vector keeps its front;
  resizing a C sequence of messages starts afresh. Sequences have at most 2^31-1 elements, the DDS length type.
- Python's digits are the ASCII ones; a line boundary is any that `str.splitlines` knows.
- GUIDs are integers with equality; `std::map` iteration order is left open, so no result depends on it.
- What DDS decides during one wait call is fixed by an oracle. Attaching twice has no effect; detaching what is not
  attached fails. A status mask is the set of its bits.
- Times are compared by total nanoseconds, saturating at 2^63-1, as the `rmw` package does; `RMW_DURATION_INFINITE` is
  9223372036 s and 854775807 ns, and `DDS_DURATION_INFINITE` has 0x7fffffff in both fields.

## Where the code falls short of the obvious promise

Each of these is proved, with the exact condition under which the promise holds where the row says "if and only if".

- A taken message differs from the published one when a string has a NUL, when a C sequence in the destination is longer
  than the one received, or when an empty `vector<bool>` is received into a non-empty one (`TransportLaws.RoundTrip`).
- An array of nested messages is reported as taken although an element failed, since the flag beside the loop is never
  set: success means that everything was read exactly for schemas without such arrays
  (`SilentFailures.SuccessMeansRead`). It takes a tree that does not conform to the registered type, since those that
  do are read completely (`TypeLaws.ConformingIsReadable`).
- The patch tool splits lines at more characters than `diff`: kept lines with such a character are damaged or their
  patches refused (`PatchLimits.KeptLineBreaks`).
- A patch applied hunk by hunk, last to first, gives another file than one scan exactly when the old file lacks its
  last newline and a hunk behind the first only inserts at its end: the inserted line is joined to the open one, which
  an earlier hunk then deletes without comparing it (`HunkOrder.OnePassEqualsMany`, `PatchLimits.AdjacentHunksDiffer`).
- A hunk that claims to start at line 0 and keeps lines is read with Python's negative indices: where it fits, the file is
  written twice (`PatchLimits.ZeroStartWrapsAround`). `diff` never writes such a hunk.
- Type names demangle wrongly when a namespace component ends in `dds_` (`TypeDemangling.TypeRoundTrip`).
- The endpoint query answers too much for relative topic names (`GraphQueries.PrefixedQueriesAreEmpty`).
- The cleanup of empty participants tests the wrong map and never runs (`TopicCaches.TopicCache.RemoveTopic`).
- A condition passed twice makes an otherwise successful wait fail (`Waiting.Wait`).
- A batch take without data leaves old sizes behind a taken count of zero (`Samples.TakeSequence`).
- Under keep-all, and for durations beyond 32 bits, values are cut silently (`QosProfiles.ApplyAndReport`).

## Model

| member | source | states |
|---|---|---|
| Publishing.PublishMessage | rmw_connext_dynamic_cpp/src/functions.cpp:947-954 | whatever the reused sample still holds, publishing into it leaves exactly the tree of the new message; success is reported if and only if no type id outside the switch statement is met |
| Publishing.Publish | rmw_connext_dynamic_cpp/src/templates.hpp:514-661 | the loop over the members fills a cleared tree with exactly the encoding of the message, each member under its 1-based position |
| Publishing.SetValue | rmw_connext_dynamic_cpp/src/templates.hpp:226-360 | a primitive member is written as a leaf or as elements 1 to n, each converted; an empty vector<bool> of the C++ type support writes nothing |
| Publishing.SetStringValue | rmw_connext_dynamic_cpp/src/templates.hpp:363-506 | a string, or each string of an array bound as a complex member, is written up to its first NUL |
| Publishing.SetMessageValue | rmw_connext_dynamic_cpp/src/templates.hpp:607-653 | a nested message, or an array or sequence of them, is written through a binding; refused exactly when one of the elements is refused |
| Taking.Take | rmw_connext_dynamic_cpp/src/templates.hpp:1145-1303 | success is reported if and only if every member is accepted, where an array of messages is accepted even when an element fails; a successful take leaves in each member the decoding of the tree, except that a message array is taken up to its first refused element and keeps what resizing left behind that one |
| Taking.GetArraySize | rmw_connext_dynamic_cpp/src/templates.hpp:718-746 | the declared size of an array, else the number of members behind the binding; the view of the member is unchanged |
| Taking.GetValue | rmw_connext_dynamic_cpp/src/templates.hpp:748-1026 | primitive members: which trees are accepted, and how the destination sequence is resized and overwritten in C and in C++ |
| Taking.GetStringValue | rmw_connext_dynamic_cpp/src/templates.hpp:1047-1137 | string members: which trees are accepted, and the strings read into the resized destination |
| Taking.GetMessageValue | rmw_connext_dynamic_cpp/src/templates.hpp:1237-1343 | nested messages: the array loop stops at a failing element and still reports success, because the error flag is never set; the elements before it are taken, those behind it are not touched |
| TakeOutcomes.TakenIsDecoded | rmw_connext_dynamic_cpp/src/templates.hpp:1145-1303 | where the tree has everything asked for, what a successful take leaves is the decoding of the tree and nothing else |
| SilentFailures.SuccessMeansRead | rmw_connext_dynamic_cpp/src/templates.hpp:1262-1293 | success means that everything was read, for every tree, if and only if the schema has no array or sequence of messages at any depth, or no tree is accepted at all |
| SilentFailures.HalfWrittenArray | rmw_connext_dynamic_cpp/src/templates.hpp:1262-1293 | an array of two messages of which one was written: reported as taken, not read |
| TransportLaws.EncodedIsReadable | rmw_connext_dynamic_cpp/src/templates.hpp:1145-1303 | every member a take asks for is in the tree that a publish wrote, at any depth and for either pair of type supports |
| TransportLaws.PublishedExactly | rmw_connext_dynamic_cpp/src/templates.hpp:514-661 | a member is refused if and only if it or an element in it, at any depth, has an unknown type id; an empty array of an unknown type is refused, an empty array of messages is not |
| TransportLaws.PrimitiveRoundTrip | rmw_connext_dynamic_cpp/src/templates.hpp:875-885 | int8 through octet, bool through DDS_Boolean and every other primitive come back as they were, over the whole range of each type |
| TransportLaws.RoundTrip | rmw_connext_dynamic_cpp/src/templates.hpp:514-1303 | take after publish gives the message back if and only if no string holds a NUL and nothing stale stays in the destination (a C sequence longer than the one taken, a vector<bool> when an empty one is taken), for all schemas, messages and destinations |
| TransportLaws.MemberRoundTrip | rmw_connext_dynamic_cpp/src/templates.hpp:748-830 | the same exact condition for one member: fixed array, bounded or unbounded sequence, string, nested message |
| TransportLaws.TakenSequence | rmw_connext_dynamic_cpp/src/templates.hpp:755-1026 | element by element what a take leaves in an array or sequence: the tree's values in front, in C the old elements behind them, and nested messages taken into the destination's own element where C++ has one, into a default one otherwise |
| FreshDestinations.FreshRoundTrip | rmw_connext_dynamic_cpp/src/templates.hpp:514-1303 | into a freshly initialised destination exactly the messages without NUL characters survive the trip |
| FreshDestinations.DefaultMemberIsFresh | rmw_connext_dynamic_cpp/src/templates.hpp:755-830 | elements created by a resize are fresh at every depth |
| Loopback.Transfer | rmw_connext_dynamic_cpp/src/functions.cpp:947-954 | the two imperative ends composed: the message taken equals the message sent exactly under the round-trip condition, whatever the sample held before |
| TypeCodes.CreateTypeCode | rmw_connext_dynamic_cpp/src/utility_templates.hpp:92-297 | the loop that adds members builds the type of the schema, or nothing when a member at any depth has an unknown type id or a bound beyond 32 bits |
| NestedTypes.CreatedExactly | rmw_connext_dynamic_cpp/src/utility_templates.hpp:161-244 | a type is created if and only if every member, at every depth, has a known type id and a size and bound below 2^32 |
| NestedTypes.MemberTypeIs | rmw_connext_dynamic_cpp/src/utility_templates.hpp:118-258 | name and type of every member: arrays of the declared size, sequences and strings of the declared bound or of 2^31-1 |
| NestedTypes.NestedTypeIs | rmw_connext_dynamic_cpp/src/utility_templates.hpp:185-200 | at every depth a nested struct type bears the DDS name of its own namespace and name, spelled out, and is the type created from its own schema |
| NestedTypes.NestedTypeDemangles | rmw_connext_dynamic_cpp/src/utility_templates.hpp:48-68 | the name of a nested struct type demangles to namespace/name of its own message if and only if no namespace component ends in dds_ |
| TypeLaws.PrimitiveFits | rmw_connext_dynamic_cpp/src/utility_templates.hpp:122-161 | the accessor table and the type code table name the same kind, and converted values are in its range |
| TypeLaws.ReadBack | rmw_connext_dynamic_cpp/src/templates.hpp:875-885 | whoever wrote it, an octet is read as int8 modulo 256, and a DDS_Boolean is true only when it is 1 |
| TypeLaws.TypedIsPublishable | rmw_connext_dynamic_cpp/src/utility_templates.hpp:203-207 | a message whose type could be created is never refused by publish |
| TypeLaws.TypeSoundness | rmw_connext_dynamic_cpp/src/utility_templates.hpp:92-297 | the tree publish writes conforms to the type created from the same schema if and only if strings and sequences respect their bounds; the empty message writes nothing beside its dummy member |
| TypeLaws.MemberSoundness | rmw_connext_dynamic_cpp/src/utility_templates.hpp:212-244 | the same for one member: array length, sequence bound, element by element |
| TypeLaws.ConformingIsReadable | rmw_connext_dynamic_cpp/src/utility_templates.hpp:92-297 | the dual: take finds everything it asks for in every tree that conforms to the type created from the schema, whoever wrote it; so the silent failure needs a tree that does not conform |
| UnifiedDiff.ApplyPatch | rmw_connext_cpp/bin/apply-patch.py:27-67 | for every text and every patch text, malformed ones included, the two-cursor loop ends with the outcome of the scan function: the new text, or which of the three exceptions |
| UnifiedDiff.SkipFileHeader | rmw_connext_cpp/bin/apply-patch.py:38-39 | the number of leading header lines |
| Lines.SplitExact | rmw_connext_cpp/bin/apply-patch.py:33-34 | splitting a text gives back the lines it was made of if and only if each is one line for Python and ends before the next begins |
| Lines.SplitFront | rmw_connext_cpp/bin/apply-patch.py:33-34 | the same for lines in front of any text: they come back, followed by the lines of that text, if and only if each is one line for Python and ends before what follows |
| HunkHeaders.HeaderRoundTrip | rmw_connext_cpp/bin/apply-patch.py:24-49 | for every header diff writes, empty and one-line ranges included, the pattern matches and the start computed from its groups is the 0-based start of the old range |
| HunkHeaders.HeaderIsParsed | rmw_connext_cpp/bin/apply-patch.py:24 | every line of the header pattern's language is parsed to its groups, whatever stands behind the second @@ on that line |
| HunkHeaders.ParsedIsHeader | rmw_connext_cpp/bin/apply-patch.py:24 | and nothing else is: a line that parses is spelled from the groups it parses to |
| PatchLaws.BodyRun | rmw_connext_cpp/bin/apply-patch.py:50-65 | whenever the kept lines are where the scan expects them, the lines of a hunk move the old cursor over the removed lines and append the added ones; deleted lines are never compared |
| PatchLaws.HunkRun | rmw_connext_cpp/bin/apply-patch.py:40-65 | one hunk copies the gap before it and carries out its edits, under the same condition on the kept lines alone |
| PatchLaws.PatchCorrect | rmw_connext_cpp/bin/apply-patch.py:27-67 | for every edit script, however cut into ordered hunks, the scan of the old file with the rendered script ends with the new file, on lines and without any condition on them |
| PatchRefusals.AppliedExactly | rmw_connext_cpp/bin/apply-patch.py:40-66 | for every old file and every script: the script is applied if and only if each kept line stands where its hunk expects it; then the result is the old file's own gaps and tail around the added lines |
| PatchRefusals.RefusedAtFirst | rmw_connext_cpp/bin/apply-patch.py:53-62 | otherwise the error is about the first kept line in script order that is missing or different: past the end, or not the same |
| PatchRefusals.NoHeaderIsRefused | rmw_connext_cpp/bin/apply-patch.py:41-43 | a line behind the file header that is no hunk header is reported by its number |
| EditScripts.LineBalance | rmw_connext_cpp/bin/apply-patch.py:63-65 | the new file has the old line count plus the inserted minus the deleted lines |
| PatchTexts.PatchSeenCorrectly | rmw_connext_cpp/bin/apply-patch.py:27-67 | on texts: whenever Python sees the lines of the old file up to the last hunk, and those of the patch, the new text is the new file, whatever text follows the last hunk |
| PatchTexts.PatchTextCorrect | rmw_connext_cpp/bin/apply-patch.py:27-67 | so it is for every script, missing final newlines and their markers included, whose lines up to the last hunk contain none of Python's other line boundaries, with any text behind the last hunk |
| PatchRefusals.PatchedTextExactly | rmw_connext_cpp/bin/apply-patch.py:27-67 | the same on texts, for any old text: applied if and only if the kept lines are in place among the lines Python sees |
| HunkOrder.OnePassEqualsMany | rmw_connext_cpp/bin/apply-patch.py:40-66 | one scan of the whole patch equals applying each hunk as its own patch from the last to the first if and only if the lines of the old file are all terminated or no hunk behind the first only inserts at its end |
| HunkOrder.LossStays | rmw_connext_cpp/bin/apply-patch.py:57-65 | otherwise hunk by hunk leaves strictly less text than the new file: the first late insertion is joined to the open last line, and deleted with it |
| PatchLimits.KeptLineBreaks | rmw_connext_cpp/bin/apply-patch.py:33-34 | a kept line holding a boundary that Python knows and diff does not is patched correctly if and only if its second half parses as a hunk header that does not start at the first line; as a rule the second half is lost |
| PatchLimits.DeletedLineBreaks | rmw_connext_cpp/bin/apply-patch.py:50-65 | such a line is deleted correctly if and only if its second half does not start with a space, a plus, a backslash or an at sign: being lines for Python is not necessary for a correct patch |
| PatchLimits.AdjacentHunksDiffer | rmw_connext_cpp/bin/apply-patch.py:57-65 | with adjacent hunks at an unterminated last line, hunk by hunk and one scan differ: a removed line is not compared |
| PatchLimits.ZeroStartWrapsAround | rmw_connext_cpp/bin/apply-patch.py:47-61 | a hunk that claims to start at line 0 with a kept line is read with negative indices: it is applied if and only if that line is the last one of the file, and then all lines stand twice |
| TopicNames.GetRosPrefixIfExists | rmw_connext_shared_cpp/src/namespace_prefix.cpp:27-36 | the loop finds the one ROS prefix that is followed by a slash, or none |
| TopicNames.TopicRoundTrip | rmw_connext_shared_cpp/src/demangle.cpp:27-35 | a mangled topic name demangles to the name if and only if the name is absolute |
| TopicNames.ForeignTopic | rmw_connext_shared_cpp/src/demangle.cpp:27-35 | a topic name is left unchanged if and only if it begins with none of rt/, rq/ and rr/ |
| TopicNames.ForeignService | rmw_connext_shared_cpp/src/demangle.cpp:56-96 | a topic names a service if and only if it begins with rq/ and holds Request, or with rr/ and holds Reply |
| TopicNames.ServiceRoundTrip | rmw_connext_shared_cpp/src/demangle.cpp:56-96 | request and reply topics demangle to the service name if and only if it is absolute or empty, whatever Request or Reply the name contains |
| TopicNames.TopicIsNoService | rmw_connext_shared_cpp/src/demangle.cpp:60-77 | no plain topic is taken for a service |
| TopicNames.NoWrapInService | rmw_connext_shared_cpp/src/demangle.cpp:83-95 | for every service topic, well formed or not, the unsigned subtractions do not wrap and the text between prefix and last suffix is returned |
| TypeDemangling.DemangleServiceType | rmw_connext_shared_cpp/src/demangle.cpp:98-141 | the loop over the suffixes cuts at a response suffix at the very end, else at the last request suffix, at the end or not |
| TypeDemangling.FindMarker | rmw_connext_shared_cpp/src/demangle.cpp:40-41 | the first dds_:: is the one that mangling put there if and only if no namespace component ends in dds_ |
| TypeDemangling.DemangleTypeIs | rmw_connext_shared_cpp/src/demangle.cpp:42-50 | for every type name ending in an underscore the length passed to substr does not wrap |
| TypeDemangling.TypeRoundTrip | rmw_connext_shared_cpp/src/demangle.cpp:37-54 | the type name built from colon-free parts demangles to namespace/name if and only if no namespace component ends in dds_ |
| TypeDemangling.ForeignType | rmw_connext_shared_cpp/src/demangle.cpp:37-50 | a type name is left unchanged if and only if it has no dds_:: or does not end in an underscore |
| TypeDemangling.ServiceTypeRoundTrip | rmw_connext_shared_cpp/src/demangle.cpp:98-141 | request and response types of one service demangle to the same service type under the same exact condition, even when the name contains a suffix |
| TypeDemangling.ForeignServiceType | rmw_connext_shared_cpp/src/demangle.cpp:98-141 | a type name without dds_:: or without a request or response suffix names no service type |
| TopicCaches.TopicCache.AddTopic | rmw_connext_shared_cpp/include/rmw_connext_shared_cpp/topic_cache.hpp:83-113 | a new endpoint is recorded in both indexes, a known one changes nothing but the participant's entry; the indexes stay in agreement |
| TopicCaches.TopicCache.RemoveTopic | rmw_connext_shared_cpp/include/rmw_connext_shared_cpp/topic_cache.hpp:121-160 | exactly the endpoint is forgotten; the branches that are unable to remove it, and the cleanup of empty participants, are unreachable |
| TopicCaches.TopicCache.GetTopicTypesByGuid | rmw_connext_shared_cpp/include/rmw_connext_shared_cpp/topic_cache.hpp:168-190 | the loop over the participant's endpoints returns the grouping, by topic name, of the endpoints whose info records that participant |
| TopicCaches.ParticipantGroups | rmw_connext_shared_cpp/include/rmw_connext_shared_cpp/topic_cache.hpp:168-190 | a type is grouped under a topic name if and only if one of the participant's endpoints has that topic and type |
| TopicCaches.AddKeepsAgreement | rmw_connext_shared_cpp/include/rmw_connext_shared_cpp/topic_cache.hpp:109-111 | recording a new endpoint keeps it exactly once under its own participant and nowhere else |
| TopicCaches.RemoveKeepsAgreement | rmw_connext_shared_cpp/include/rmw_connext_shared_cpp/topic_cache.hpp:134-155 | agreement guarantees that both lookups succeed, and removing keeps it |
| Discovery.OnDataAvailable | rmw_connext_shared_cpp/src/types/custom_publisher_listener.cpp:48-72 | a batch leaves the graph, and gives the answers, of replaying its events; said of the samples themselves, whatever was known before: an endpoint is known afterwards if and only if one of its announcements counts, and then its topic, type, participant and qos are those of that very sample; the guard condition is triggered for a non-empty batch |
| Discovery.BatchOfSamples | rmw_connext_shared_cpp/src/types/custom_publisher_listener.cpp:48-72 | the first valid and alive sample of an endpoint that was unknown, or was withdrawn before it, and that no withdrawal follows is the one that counts |
| Discovery.BatchCut | rmw_connext_shared_cpp/src/types/custom_publisher_listener.cpp:48-70 | cutting a batch in two changes neither the graph nor the answers |
| Discovery.EndpointIndependence | rmw_connext_shared_cpp/include/rmw_connext_shared_cpp/topic_cache.hpp:102-159 | what a run says about an endpoint depends on the events about that endpoint alone |
| Discovery.ReorderingIsHarmless | rmw_connext_shared_cpp/include/rmw_connext_shared_cpp/topic_cache.hpp:102-159 | two runs with the same events per endpoint, interleaved in any way, leave the same graph |
| Discovery.AddThenRemove | rmw_connext_shared_cpp/include/rmw_connext_shared_cpp/topic_cache.hpp:102-159 | adding and removing an endpoint restores the graph if and only if the endpoint was new |
| Discovery.FirstAnnouncementWins | rmw_connext_shared_cpp/include/rmw_connext_shared_cpp/topic_cache.hpp:102-112 | after any run the graph holds exactly, for each endpoint, its first announcement since its last withdrawal |
| GraphQueries.FillTopicNamesAndTypes | rmw_connext_shared_cpp/src/types/custom_data_reader_listener.cpp:147-160 | adds to the caller's map the grouping of all visible endpoints |
| GraphQueries.FillTopicNamesAndTypesByGuid | rmw_connext_shared_cpp/src/types/custom_data_reader_listener.cpp:178-200 | adds to the caller's map the grouping of the participant's visible endpoints, although it filters groups and not endpoints |
| GraphQueries.ViewsAgree | rmw_connext_shared_cpp/src/types/custom_data_reader_listener.cpp:147-200 | the views of all participants united are the view of the whole graph, names and types, for both values of no_demangle |
| GraphQueries.FillTopicEndpointInfos | rmw_connext_shared_cpp/src/types/custom_data_reader_listener.cpp:132-145 | appends every endpoint shown under the name exactly once and no other |
| GraphQueries.GetTopicFqdns | rmw_connext_shared_cpp/src/topic_endpoint_info.cpp:57-72 | the name itself, and unless mangling is off the three prefixed names |
| GraphQueries.PrefixedQueriesAreEmpty | rmw_connext_shared_cpp/src/topic_endpoint_info.cpp:57-72 | the three prefixed queries find nothing for any cache if and only if the topic name is absolute |
| GraphQueries.GetInfoByTopic | rmw_connext_shared_cpp/src/topic_endpoint_info.cpp:229-232 | for an absolute name the four queries together list every endpoint shown under it exactly once and no other, as many as count_topic reports |
| GraphQueries.ListedCount | rmw_connext_shared_cpp/src/types/custom_data_reader_listener.cpp:119-130 | a list of matching endpoints without repetition is as long as count_topic counts |
| GraphQueries.ShownTopics | rmw_connext_shared_cpp/src/types/custom_data_reader_listener.cpp:147-160 | which topic names the view of the whole graph shows, mangled or not, in terms of the announced names |
| GraphQueries.ShownTopicsOf | rmw_connext_shared_cpp/src/types/custom_data_reader_listener.cpp:178-200 | the same for one participant |
| EventMasks.MaskIsExact | rmw_connext_shared_cpp/include/rmw_connext_shared_cpp/wait.hpp:56-63 | a status is in an entity's mask if and only if one of its events asks for it |
| EventMasks.MaskIgnoresOrder | rmw_connext_shared_cpp/include/rmw_connext_shared_cpp/wait.hpp:42-66 | the mask does not depend on the order or repetition of events |
| Waiting.GatherEventConditions | rmw_connext_shared_cpp/include/rmw_connext_shared_cpp/wait.hpp:34-74 | succeeds exactly when every event can be gathered; then each entity's enabled mask is the union over its supported events, otherwise no mask changes |
| Waiting.HandleActiveEventConditions | rmw_connext_shared_cpp/include/rmw_connext_shared_cpp/wait.hpp:76-105 | slot by slot: each event is the old one if its own status has changed on its entity, and null otherwise |
| WaitSets.AttachEntries | rmw_connext_shared_cpp/include/rmw_connext_shared_cpp/wait.hpp:215-235 | succeeds exactly when no handle is null and no condition refused; then all conditions are attached |
| WaitSets.DetachEntries | rmw_connext_shared_cpp/include/rmw_connext_shared_cpp/wait.hpp:341-372 | succeeds exactly when the conditions are distinct and attached; then, slot by slot, each is the old one if its read condition is active and null otherwise |
| WaitSets.DetachGuards | rmw_connext_shared_cpp/include/rmw_connext_shared_cpp/wait.hpp:375-407 | the same for guards, slot by slot; a guard is reset if and only if it was passed and its condition is active |
| WaitSets.NewCondition | rmw_connext_shared_cpp/include/rmw_connext_shared_cpp/wait.hpp:367-370 | the explicit detach of a slot hits an attached condition exactly when no earlier slot had it |
| Waiting.DistinctInParts | rmw_connext_shared_cpp/include/rmw_connext_shared_cpp/wait.hpp:340-475 | conditions distinct across the three arrays are distinct in each and disjoint between them |
| Waiting.AttachAll | rmw_connext_shared_cpp/include/rmw_connext_shared_cpp/wait.hpp:215-321 | succeeds exactly when everything passed in can be attached; then all of it is |
| Waiting.FilterAndDetach | rmw_connext_shared_cpp/include/rmw_connext_shared_cpp/wait.hpp:340-481 | succeeds exactly when no condition was passed twice and no active guard refuses its reset; then all explicit conditions are detached and the slots filtered |
| Waiting.AtExit | rmw_connext_shared_cpp/include/rmw_connext_shared_cpp/wait.hpp:135-180 | a wait set with all its parts is empty afterwards; otherwise nothing is detached |
| Waiting.Wait | rmw_connext_shared_cpp/include/rmw_connext_shared_cpp/wait.hpp:120-487 | on every exit a well-formed wait set ends empty; OK or timeout is returned if and only if nothing is null or refused, waiting succeeds and all conditions are pairwise distinct, and then every slot of all five arrays is the old one if its condition is active or its status changed, and null otherwise, exactly the active guards are reset, and the masks are as promised |
| WaitMeanings.SuccessMeans | rmw_connext_shared_cpp/include/rmw_connext_shared_cpp/wait.hpp:120-487 | the condition for success, spelled out over the caller's slots: none null or refused, no condition passed twice, no active guard stuck, waiting answers OK or timeout |
| WaitMeanings.HandlesMean | rmw_connext_shared_cpp/include/rmw_connext_shared_cpp/wait.hpp:120-213 | which handles a call can use and which the cleanup can: the call needs the active conditions, the cleanup the attached ones |
| WaitMeanings.AttachedMeans | rmw_connext_shared_cpp/include/rmw_connext_shared_cpp/wait.hpp:215-335 | which conditions are attached by slot and which through events, in terms of the single slots |
| WaitMeanings.MasksMean | rmw_connext_shared_cpp/include/rmw_connext_shared_cpp/wait.hpp:34-74 | a status is enabled on an entity if and only if an event in the caller's array asks that entity for it |
| Samples.IsLocalPublication | rmw_connext_cpp/src/rmw_take.cpp:30-50 | local exactly when the first twelve octets agree |
| Samples.LocalMeans | rmw_connext_cpp/src/rmw_take.cpp:30-50 | the twelve octets that are compared, one by one; the last four do not matter |
| Samples.TakeOne | rmw_connext_cpp/src/rmw_take.cpp:53-202 | one sample leaves the queue; it is delivered exactly when it has data, is not ignored and decodes, and the publication handle is reported for every sample with data |
| Samples.Compact | rmw_connext_cpp/src/rmw_take.cpp:304-329 | the first slots hold the order-preserving filter of the loan, message and publication of the same sample side by side |
| Samples.TakeSequence | rmw_connext_cpp/src/rmw_take.cpp:204-336 | argument checks, the compacted batch within both capacities, both sizes equal to taken for a non-empty batch; with no data the sizes keep their old values |
| Samples.BatchEqualsSingles | rmw_connext_cpp/src/rmw_take.cpp:304-329 | a batch delivers what as many single takes would deliver from the same queue, in order, with or without decoding errors |
| Samples.TakeRepeatedly | rmw_connext_cpp/src/rmw_take.cpp:53-202 | taking one sample as many times delivers exactly the batch, leaves the same queue, and reports every decoding error that the batch hides |
| QosProfiles.DurationRoundTrip | rmw_connext_shared_cpp/src/qos.cpp:386-394 | a time comes back from DDS as the same time if and only if it is infinite or fits without looking infinite, for all 64-bit seconds and nanoseconds |
| QosProfiles.CastsAreModular | rmw_connext_shared_cpp/src/qos.cpp:34-44 | the narrowing casts keep the number modulo 2^32, and the widening one modulo 2^64 |
| QosProfiles.DurationMeans | rmw_connext_shared_cpp/src/qos.cpp:98-124 | a duration of the entity is set unless the requested seconds and nanoseconds are both zero |
| QosProfiles.InfiniteIsTheGreatest | rmw_connext_shared_cpp/src/qos.cpp:34-44 | exactly the times of at least 2^63-1 ns in all count as infinite and become the infinite DDS duration; any other is cut to 32 bits field by field |
| QosProfiles.EntityQos.CheckDepth | rmw_connext_shared_cpp/src/qos.cpp:126-139 | after the narrowing, the check rejects exactly the keep-last depths that do not fit; the assignment behind it is never needed |
| QosProfiles.EntityQos.SetFromProfile | rmw_connext_shared_cpp/src/qos.cpp:46-161 | exactly which profiles are rejected or fail the assertion; otherwise every field of the entity, and under keep-last a stored depth equal to every non-default requested one |
| QosProfiles.ApplyAndReport | rmw_connext_shared_cpp/src/qos.cpp:354-374 | every explicitly requested policy the entity carries is reported back if and only if the depth fits and the explicit durations can be carried |
| RequestIdentity.JoinIsSum | rmw_connext_dynamic_cpp/src/functions.cpp:2468-2470 | shifting the sign-extended high word and or'ing in the low one is, as signed numbers, high times 2^32 plus low, for every pair of words |
| RequestIdentity.ExtendedNumber | rmw_connext_dynamic_cpp/src/functions.cpp:2468-2470 | converting the signed high word to 64 bits keeps its number |
| RequestIdentity.SplitIsFloor | rmw_connext_dynamic_cpp/src/functions.cpp:2603-2605 | the masked and shifted words are floor and remainder of the signed id, negative ids included |
| RequestIdentity.SplitJoin | rmw_connext_dynamic_cpp/src/functions.cpp:2468-2470 | shift and or, then mask and shift, give back every pair of words |
| RequestIdentity.JoinSplit | rmw_connext_dynamic_cpp/src/functions.cpp:2603-2605 | mask and shift, then shift and or, give back every 64-bit id |
| RequestIdentity.IdSurvives | rmw_connext_dynamic_cpp/src/functions.cpp:2530-2532 | the id a client was given is the one it finds on the reply, and no other words give it |

## Left out

- Taking.Take: the one element at which the loop over a message array stops may be partly overwritten, and how far is
  not stated; nor is the destination when the take reports failure, where callers discard it.
- Taking.GetMessageValue: the same for one member.
- Publishing.Publish: when a type id is unknown, the partly written tree is not described; callers discard it.
- PatchTexts.PatchSeenCorrectly: a sufficient condition; `PatchLimits.DeletedLineBreaks` proves that it is not
  necessary, and only scripts of one broken line are characterised exactly.
- Waiting.Wait: the contents of the arrays after a failed call, and which of the error codes is returned then.
- Creation and destruction of nodes, publishers, subscriptions, clients, services and guard conditions: null checks and
  cleanup around DDS calls.
- Allocation failures, null data pointers and offset arithmetic inside messages: messages are values.
- Failing DDS calls other than attaching, waiting, resetting, listing and taking without data.
- Service names and types by node, node names and the user-data matching built on the key-value parser, which is not
  part of this repository.
- The conversion of the wait timeout and of infinite timeouts: what waiting answers is an oracle.
- Logging, mutexes (each listener call is atomic), environment variables, security files and QoS XML profiles.
- CDR streams and generated plugin code: decoding a stream is a parameter.
