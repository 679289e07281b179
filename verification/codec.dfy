/**
 * The message codec: IppDecoder.Decode (Processing/IppDecoder.cs) and
 * IppEncoder.Encode (Processing/IppEncoder.cs), over the layout of section 3
 * of RFC 8010: version, operation or status code, request id, then groups of
 * attributes, each group opened by a delimiter tag, the whole closed by
 * end-of-attributes.
 *
 * Two places are corrected here, and the program's own behaviour is modelled
 * beside them. The reader refuses a string with a negative length, where
 * the program reads an empty string and moves back (DecoderAsWritten). The
 * writer lays a range out lower bound first, where the program writes the
 * upper bound and then zeros (EncoderAsWritten).
 */
module MessageCodec {
  import opened Primitives
  import opened Text
  import opened Tags
  import opened StatusCodes
  import opened Values
  import opened Model
  import StringCodec

  /**
   * One attribute entry added to the group's attributes: a named entry starts
   * a new attribute; an entry with an empty name adds its value to the last
   * attribute, and is dropped when the group has none yet. An out-of-band
   * value adds nothing.
   */
  function AddEntry(attrs: seq<Attribute>, t: ValueTag, name: Bytes, v: Option<Value>): (r: seq<Attribute>)
    ensures |name| > 0 ==> r == attrs + [Attribute(t, name, if v.Some? then [v.value] else [])]
    ensures |name| == 0 && |attrs| > 0 && v.Some? ==>
              && |r| == |attrs| && r[..|r| - 1] == attrs[..|attrs| - 1]
              && r[|r| - 1] == attrs[|attrs| - 1].(values := attrs[|attrs| - 1].values + [v.value])
    ensures |name| == 0 && (|attrs| == 0 || v.None?) ==> r == attrs
  {
    if |name| > 0 then attrs + [Attribute(t, name, if v.Some? then [v.value] else [])]
    else if |attrs| > 0 && v.Some? then
      var last := attrs[|attrs| - 1];
      attrs[..|attrs| - 1] + [last.(values := last.values + [v.value])]
    else attrs
  }

  /** Every attribute name came through the IppAttribute constructor. */
  ghost predicate NamesValid(attrs: seq<Attribute>)
  {
    forall i :: 0 <= i < |attrs| ==> !IsBlank(attrs[i].name)
  }

  lemma AddEntryKeepsNames(attrs: seq<Attribute>, t: ValueTag, name: Bytes, v: Option<Value>)
    ensures NamesValid(attrs) && (|name| == 0 || !IsBlank(name)) ==> NamesValid(AddEntry(attrs, t, name, v))
  {
    var r := AddEntry(attrs, t, name, v);
    if NamesValid(attrs) && |name| == 0 && |attrs| > 0 && v.Some? {
      assert forall i :: 0 <= i < |r| - 1 ==> r[i] == attrs[i];
    }
  }

  /**
   * The inner loop of IppDecoder.Decode: `tag` has been read and `off` is
   * just past it. Entries are read while the tag is a value tag; the
   * delimiter that stops the loop is returned with the offset past it.
   */
  function DecodeAttributes(buf: Bytes, tag: byte, off: nat, attrs: seq<Attribute>): (r: Result<(seq<Attribute>, byte, nat)>)
    ensures r.Ok? ==> IsDelimiter(r.value.1) && off <= r.value.2
    ensures IsDelimiter(tag) ==> r == Ok((attrs, tag, off))
    decreases Remaining(buf, off)
  {
    if IsDelimiter(tag) then Ok((attrs, tag, off))
    else
      var (name, n) :- StringCodec.Decode(buf, off);
      if |name| > 0 && IsBlank(name) then Err(InvalidName)
      else
        var (v, c) :- DecodeValue(buf, tag, n);
        var next := AddEntry(attrs, ValueTagOf(tag).value, name, v);
        if c >= |buf| then Err(OutOfBounds)
        else DecodeAttributes(buf, buf[c], c + 1, next)
  }

  /** Every attribute the inner loop produces has a valid name. */
  lemma {:induction false} DecodedNamesValid(buf: Bytes, tag: byte, off: nat, attrs: seq<Attribute>)
    requires NamesValid(attrs) && DecodeAttributes(buf, tag, off, attrs).Ok?
    ensures NamesValid(DecodeAttributes(buf, tag, off, attrs).value.0)
    decreases Remaining(buf, off)
  {
    if !IsDelimiter(tag) {
      var (name, n) := StringCodec.Decode(buf, off).value;
      var (v, c) := DecodeValue(buf, tag, n).value;
      AddEntryKeepsNames(attrs, ValueTagOf(tag).value, name, v);
      DecodedNamesValid(buf, buf[c], c + 1, AddEntry(attrs, ValueTagOf(tag).value, name, v));
    }
  }

  /** One turn of the inner loop, for an entry whose name and value decode. */
  lemma DecodeAttributesUnfold(buf: Bytes, tag: byte, off: nat, attrs: seq<Attribute>, name: Bytes, n: nat, v: Option<Value>, c: nat)
    requires !IsDelimiter(tag) && (|name| == 0 || !IsBlank(name))
    requires StringCodec.Decode(buf, off) == Ok((name, n))
    requires DecodeValue(buf, tag, n) == Ok((v, c)) && c < |buf|
    ensures ValueTagOf(tag).Some?
    ensures DecodeAttributes(buf, tag, off, attrs)
            == DecodeAttributes(buf, buf[c], c + 1, AddEntry(attrs, ValueTagOf(tag).value, name, v))
  {
  }

  /**
   * The outer loop of IppDecoder.Decode: `tag` opens a group unless it is
   * end-of-attributes or the buffer is used up.
   */
  function DecodeGroups(buf: Bytes, tag: byte, off: nat, groups: seq<Group>): (r: Result<seq<Group>>)
    ensures r.Ok? ==> groups <= r.value
    ensures (tag == END_OF_ATTRIBUTES_TAG || off >= |buf|) ==> r == Ok(groups)
    decreases Remaining(buf, off)
  {
    if tag == END_OF_ATTRIBUTES_TAG || off >= |buf| then Ok(groups)
    else
      var (attrs, next, c) :- DecodeAttributes(buf, buf[off], off + 1, []);
      DecodeGroups(buf, next, c, groups + [Group(tag, attrs)])
  }

  /** One turn of the outer loop, for a group whose attributes decode. */
  lemma DecodeGroupsUnfold(buf: Bytes, tag: byte, off: nat, groups: seq<Group>, attrs: seq<Attribute>, next: byte, c: nat)
    requires tag != END_OF_ATTRIBUTES_TAG && off < |buf|
    requires DecodeAttributes(buf, buf[off], off + 1, []) == Ok((attrs, next, c))
    ensures DecodeGroups(buf, tag, off, groups) == DecodeGroups(buf, next, c, groups + [Group(tag, attrs)])
  {
  }

  /**
   * IppDecoder.Decode: the eight-byte header, then the groups from the tag at
   * offset 8. Any read past the end is the IndexOutOfRangeException of the span.
   */
  function Decode(buf: Bytes): (r: Result<Request>)
    ensures |buf| < 9 ==> r == Err(OutOfBounds)
    ensures r.Ok? ==> && r.value.major == buf[0] && r.value.minor == buf[1]
                      && r.value.operation == ToInt16(buf[2], buf[3])
                      && r.value.requestId == ToInt32(buf[4], buf[5], buf[6], buf[7])
    ensures r.Ok? && |r.value.groups| > 0 ==> r.value.groups[0].tag == buf[8]
    ensures |buf| >= 9 && buf[8] == END_OF_ATTRIBUTES_TAG ==> r == Ok(Request(buf[0], buf[1], ToInt16(buf[2], buf[3]), ToInt32(buf[4], buf[5], buf[6], buf[7]), []))
  {
    if |buf| < 9 then Err(OutOfBounds)
    else
      var groups :- DecodeGroups(buf, buf[8], 9, []);
      Ok(Request(buf[0], buf[1], ToInt16(buf[2], buf[3]), ToInt32(buf[4], buf[5], buf[6], buf[7]), groups))
  }

  /** One wire entry: the attribute's tag, a name (empty for an additional value), the value. */
  function EncodeEntry(t: ValueTag, name: Bytes, v: Value): (r: Result<Bytes>)
    ensures r.Ok? <==> EncodeValue(v).Ok?
    ensures r.Ok? ==> r.value == [t.Code()] + StringCodec.Encode(name) + EncodeValue(v).value
  {
    var e :- EncodeValue(v);
    Ok([t.Code()] + StringCodec.Encode(name) + e)
  }

  /** The values of one attribute: the name goes with the first value only. */
  function EncodeValues(t: ValueTag, name: Bytes, vs: seq<Value>): (r: Result<Bytes>)
    ensures r.Ok? <==> forall i :: 0 <= i < |vs| ==> EncodeValue(vs[i]).Ok?
    ensures vs == [] ==> r == Ok([])
    decreases |vs|
  {
    if vs == [] then Ok([])
    else
      var first :- EncodeEntry(t, name, vs[0]);
      var rest :- EncodeValues(t, [], vs[1..]);
      Ok(first + rest)
  }

  function EncodeAttributes(attrs: seq<Attribute>): (r: Result<Bytes>)
    ensures r.Ok? <==> forall i, j :: 0 <= i < |attrs| && 0 <= j < |attrs[i].values| ==> EncodeValue(attrs[i].values[j]).Ok?
    decreases |attrs|
  {
    if attrs == [] then Ok([])
    else
      var first :- EncodeValues(attrs[0].tag, attrs[0].name, attrs[0].values);
      var rest :- EncodeAttributes(attrs[1..]);
      assert forall i :: 1 <= i < |attrs| ==> attrs[i] == attrs[1..][i - 1];
      Ok(first + rest)
  }

  function EncodeGroups(groups: seq<Group>): (r: Result<Bytes>)
    ensures r.Ok? <==> forall i :: 0 <= i < |groups| ==> EncodeAttributes(groups[i].attributes).Ok?
    ensures r.Ok? ==> |r.value| >= |groups|
    decreases |groups|
  {
    if groups == [] then Ok([])
    else
      var attrs :- EncodeAttributes(groups[0].attributes);
      var rest :- EncodeGroups(groups[1..]);
      assert forall i :: 1 <= i < |groups| ==> groups[i] == groups[1..][i - 1];
      Ok([groups[0].tag] + attrs + rest)
  }

  /** The eight header bytes: version truncated to bytes, status code, request id. */
  function EncodeHeader(major: int, minor: int, code: int16, requestId: int32): (r: Bytes)
    ensures |r| == 8 && r[0] == major % 0x100 && r[1] == minor % 0x100
    ensures ToInt16(r[2], r[3]) == code && ToInt32(r[4], r[5], r[6], r[7]) == requestId
  {
    Int16RoundTrip(code);
    Int32RoundTrip(requestId);
    [major % 0x100, minor % 0x100] + WriteInt16(code) + WriteInt32(requestId)
  }

  /**
   * IppEncoder.Encode. A value whose Encode throws makes the whole encoding
   * throw; otherwise the header, the groups and end-of-attributes.
   */
  function EncodeResponse(resp: Response): (r: Result<Bytes>)
    ensures r.Ok? <==> EncodeGroups(resp.groups).Ok?
    ensures r.Ok? ==> |r.value| >= 9 && r.value[|r.value| - 1] == END_OF_ATTRIBUTES_TAG
    ensures r.Ok? ==> r.value[..8] == EncodeHeader(resp.major, resp.minor, resp.status.Code(), resp.requestId)
  {
    StatusCodeFacts(resp.status);
    var body :- EncodeGroups(resp.groups);
    var header := EncodeHeader(resp.major, resp.minor, resp.status.Code(), resp.requestId);
    assert (header + body + [END_OF_ATTRIBUTES_TAG])[..8] == header;
    Ok(header + body + [END_OF_ATTRIBUTES_TAG])
  }
}
