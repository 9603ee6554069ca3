/** Validated visitor identifiers and their wire form (src/visitor.rs). */
module Visitor {
  import opened Words
  import opened Errors

  const MAX_VISITOR_ID := 128

  datatype VisitorId = VisitorId(text: Str)

  function New(s: Str): Result<VisitorId, ProcessError> {
    if |s| == 0 || !AllWithin(s, 0x21, 0x7E) then Err(InvalidFormat(VisitorIdField))
    else if |s| > MAX_VISITOR_ID then Err(InvalidInput(VisitorIdField, MAX_VISITOR_ID))
    else Ok(VisitorId(s))
  }

  /** What `new` accepts, and which of its two errors it gives otherwise. */
  lemma NewIff(s: Str)
    ensures New(s) == Ok(VisitorId(s)) <==> 1 <= |s| <= 128 && forall i :: 0 <= i < |s| ==> 0x21 <= s[i] <= 0x7E
    ensures New(s) == Err(InvalidInput(VisitorIdField, 128)) <==>
      128 < |s| && forall i :: 0 <= i < |s| ==> 0x21 <= s[i] <= 0x7E
    ensures New(s) == Err(InvalidFormat(VisitorIdField)) <==>
      s == [] || exists i :: 0 <= i < |s| && !(0x21 <= s[i] <= 0x7E)
  {
  }

  function NewUnchecked(s: Str): VisitorId {
    VisitorId(s)
  }

  function Serialize(id: VisitorId): Str {
    id.text
  }

  function Deserialize(wire: Str): Result<VisitorId, ProcessError> {
    New(wire)
  }

  /** An identifier the validating constructor would have made. */
  predicate Accepted(id: VisitorId) {
    New(id.text) == Ok(id)
  }

  /** The identifiers that survive the wire are exactly the accepted ones. */
  lemma WireRoundTrip(id: VisitorId)
    ensures Deserialize(Serialize(id)) == Ok(id) <==> Accepted(id)
    ensures Accepted(id) <==> 1 <= |id.text| <= 128 && AllWithin(id.text, 0x21, 0x7E)
  {
  }
}
