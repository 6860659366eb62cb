/** The dynamic publisher and subscriber back to back. */
module Loopback {
  import opened Introspection
  import opened DynamicTree
  import opened Transport
  import opened TransportLaws
  import opened Publishing
  import opened Taking

  /** Sends a message through a sample that may still hold an earlier one. */
  method Transfer(pub: Language, sub: Language, schema: Schema, fields: seq<Value>, sample: map<nat, Data>,
      dests: seq<Value>)
    returns (ok: bool, taken: seq<Value>)
    requires HasTypes(schema.members, fields) && HasTypes(schema.members, dests)
    ensures ok <==> PublishableMembers(schema.members, fields)
    ensures ok ==> (taken == fields <==> SettlesMembers(sub, schema.members, fields, dests))
  {
    var dd := new DynamicData(sample);
    taken := dests;
    ok := PublishMessage(pub, schema, fields, dd);
    if ok {
      RoundTrip(pub, sub, schema.members, fields, dests);
      ok, taken := Take(sub, schema.members, dd, dests);
    }
  }
}
