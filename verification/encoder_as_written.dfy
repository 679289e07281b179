/**
 * IppEncoder.Encode as the program writes it: the same walk over groups,
 * attributes and values as MessageCodec's encoder, but each value written by
 * Values.EncodeValueAsWritten, so a range puts its upper bound first and
 * zeros after it.
 *
 * The program's bytes are the corrected encoding of the response with every
 * value turned (Values.Turned), so a well-formed response reads back with
 * each range lower..upper as upper..0: it reads back unchanged exactly when
 * every range in it is 0..0.
 */
module EncoderAsWritten {
  import opened Primitives
  import opened Tags
  import opened StatusCodes
  import opened Values
  import opened Model
  import StringCodec
  import MessageCodec
  import MessageRoundTrip

  function TurnedValues(vs: seq<Value>): (r: seq<Value>)
    ensures |r| == |vs| && forall i :: 0 <= i < |vs| ==> r[i] == Turned(vs[i])
  {
    seq(|vs|, i requires 0 <= i < |vs| => Turned(vs[i]))
  }

  function TurnedAttributes(attrs: seq<Attribute>): (r: seq<Attribute>)
    ensures |r| == |attrs|
    ensures forall i :: 0 <= i < |attrs| ==> r[i] == attrs[i].(values := TurnedValues(attrs[i].values))
  {
    seq(|attrs|, i requires 0 <= i < |attrs| => attrs[i].(values := TurnedValues(attrs[i].values)))
  }

  /** The groups the program's bytes stand for: every range lower..upper as upper..0. */
  function TurnedGroups(groups: seq<Group>): (r: seq<Group>)
    ensures |r| == |groups|
    ensures forall i :: 0 <= i < |groups| ==> r[i] == groups[i].(attributes := TurnedAttributes(groups[i].attributes))
  {
    seq(|groups|, i requires 0 <= i < |groups| => groups[i].(attributes := TurnedAttributes(groups[i].attributes)))
  }

  /** One wire entry: the attribute's tag, a name (empty for an additional value), the value as written. */
  function EncodeEntry(t: ValueTag, name: Bytes, v: Value): (r: Result<Bytes>)
    ensures r == MessageCodec.EncodeEntry(t, name, Turned(v))
  {
    EncodeAsWrittenTurns(v);
    var e :- EncodeValueAsWritten(v);
    Ok([t.Code()] + StringCodec.Encode(name) + e)
  }

  /** The values of one attribute: the name goes with the first value only. */
  function EncodeValues(t: ValueTag, name: Bytes, vs: seq<Value>): (r: Result<Bytes>)
    ensures r == MessageCodec.EncodeValues(t, name, TurnedValues(vs))
    decreases |vs|
  {
    if vs == [] then Ok([])
    else
      assert TurnedValues(vs)[1..] == TurnedValues(vs[1..]);
      var first :- EncodeEntry(t, name, vs[0]);
      var rest :- EncodeValues(t, [], vs[1..]);
      Ok(first + rest)
  }

  function EncodeAttributes(attrs: seq<Attribute>): (r: Result<Bytes>)
    ensures r == MessageCodec.EncodeAttributes(TurnedAttributes(attrs))
    decreases |attrs|
  {
    if attrs == [] then Ok([])
    else
      assert TurnedAttributes(attrs)[1..] == TurnedAttributes(attrs[1..]);
      var first :- EncodeValues(attrs[0].tag, attrs[0].name, attrs[0].values);
      var rest :- EncodeAttributes(attrs[1..]);
      Ok(first + rest)
  }

  function EncodeGroups(groups: seq<Group>): (r: Result<Bytes>)
    ensures r == MessageCodec.EncodeGroups(TurnedGroups(groups))
    decreases |groups|
  {
    if groups == [] then Ok([])
    else
      assert TurnedGroups(groups)[1..] == TurnedGroups(groups[1..]);
      var attrs :- EncodeAttributes(groups[0].attributes);
      var rest :- EncodeGroups(groups[1..]);
      Ok([groups[0].tag] + attrs + rest)
  }

  /**
   * IppEncoder.Encode: the header, the groups and end-of-attributes, or the
   * fault of the first value that throws. The program's bytes for a response
   * are the corrected encoding of the response with its values turned.
   */
  function EncodeResponse(resp: Response): (r: Result<Bytes>)
    ensures r == MessageCodec.EncodeResponse(resp.(groups := TurnedGroups(resp.groups)))
  {
    StatusCodeFacts(resp.status);
    var body :- EncodeGroups(resp.groups);
    Ok(MessageCodec.EncodeHeader(resp.major, resp.minor, resp.status.Code(), resp.requestId) + body + [END_OF_ATTRIBUTES_TAG])
  }

  /** Turning keeps a response's groups well formed. */
  lemma TurnedGroupsWellFormed(groups: seq<Group>)
    requires WellFormedGroups(groups)
    ensures WellFormedGroups(TurnedGroups(groups))
  {
    forall i, j, k | 0 <= i < |groups| && 0 <= j < |groups[i].attributes| && 0 <= k < |groups[i].attributes[j].values|
      ensures WellFormedValue(groups[i].attributes[j].tag, Turned(groups[i].attributes[j].values[k]))
    {
      assert WellFormedAttribute(groups[i].attributes[j]);
      TurnedWellFormed(groups[i].attributes[j].tag, groups[i].attributes[j].values[k]);
    }
  }

  /**
   * What the program sends for a well-formed response reads back with its
   * version truncated to bytes, its status code, its request id, and its
   * groups turned: each range lower..upper comes back as upper..0.
   */
  lemma RoundTrip(resp: Response)
    requires WellFormedGroups(resp.groups)
    ensures EncodeResponse(resp).Ok?
    ensures MessageCodec.Decode(EncodeResponse(resp).value)
            == Ok(Request(resp.major % 0x100, resp.minor % 0x100, resp.status.Code(), resp.requestId, TurnedGroups(resp.groups)))
  {
    TurnedGroupsWellFormed(resp.groups);
    MessageRoundTrip.MessageRoundTrip(resp.(groups := TurnedGroups(resp.groups)));
  }

  /** No value of any attribute of any group is a range. */
  ghost predicate RangeFree(groups: seq<Group>)
  {
    forall i, j, k :: 0 <= i < |groups| && 0 <= j < |groups[i].attributes| && 0 <= k < |groups[i].attributes[j].values| ==>
      !groups[i].attributes[j].values[k].RangeValue?
  }

  /** Turning leaves the groups as they are exactly when every range in them is 0..0. */
  lemma TurnedGroupsUnchanged(groups: seq<Group>)
    ensures TurnedGroups(groups) == groups <==>
            forall i, j, k :: 0 <= i < |groups| && 0 <= j < |groups[i].attributes| && 0 <= k < |groups[i].attributes[j].values| ==>
              Turned(groups[i].attributes[j].values[k]) == groups[i].attributes[j].values[k]
  {
    if forall i, j, k :: 0 <= i < |groups| && 0 <= j < |groups[i].attributes| && 0 <= k < |groups[i].attributes[j].values| ==>
         Turned(groups[i].attributes[j].values[k]) == groups[i].attributes[j].values[k] {
      forall i | 0 <= i < |groups|
        ensures TurnedGroups(groups)[i] == groups[i]
      {
        forall j | 0 <= j < |groups[i].attributes|
          ensures TurnedAttributes(groups[i].attributes)[j] == groups[i].attributes[j]
        {
          assert TurnedValues(groups[i].attributes[j].values) == groups[i].attributes[j].values;
        }
        assert TurnedAttributes(groups[i].attributes) == groups[i].attributes;
      }
    }
  }

  /** A well-formed response without ranges reads back exactly as the corrected encoder's does. */
  lemma RangeFreeRoundTrip(resp: Response)
    requires WellFormedGroups(resp.groups) && RangeFree(resp.groups)
    ensures EncodeResponse(resp) == MessageCodec.EncodeResponse(resp)
    ensures MessageCodec.Decode(EncodeResponse(resp).value)
            == Ok(Request(resp.major % 0x100, resp.minor % 0x100, resp.status.Code(), resp.requestId, resp.groups))
  {
    TurnedGroupsUnchanged(resp.groups);
    RoundTrip(resp);
    assert resp.(groups := TurnedGroups(resp.groups)) == resp;
  }
}
