/**
 * The message objects of Models/: attributes, groups, requests and
 * responses, with the factory methods the handlers build responses from.
 */
module Model {
  import opened Primitives
  import opened Text
  import opened Tags
  import opened StatusCodes
  import opened Values
  import StringCodec

  /** IppAttribute: a value tag, a name and the values in wire order. */
  datatype Attribute = Attribute(tag: ValueTag, name: Bytes, values: seq<Value>)

  /** IppGroup: a delimiter tag (the AttributesTag cast of a byte) and its attributes. */
  datatype Group = Group(tag: byte, attributes: seq<Attribute>)

  /** IppRequest as the decoder fills it; the operation is the raw signed code. */
  datatype Request = Request(major: byte, minor: byte, operation: int16, requestId: int32, groups: seq<Group>)

  /** IppResponse; the Models class fixes the version at 1.1, the legacy class lets it be set. */
  datatype Response = Response(major: int, minor: int, status: StatusCode, requestId: int32, groups: seq<Group>)

  /** The IppAttribute constructor: a name that is empty or only white space is refused. */
  function NewAttribute(tag: ValueTag, name: Bytes, values: seq<Value>): (r: Result<Attribute>)
    ensures r.Ok? <==> !IsBlank(name)
    ensures r.Err? ==> r.fault == InvalidName
    ensures r.Ok? ==> r.value.tag == tag && r.value.name == name && r.value.values == values
  {
    if IsBlank(name) then Err(InvalidName) else Ok(Attribute(tag, name, values))
  }

  const ATTRIBUTES_CHARSET: Bytes := Ascii("attributes-charset")
  const ATTRIBUTES_NATURAL_LANGUAGE: Bytes := Ascii("attributes-natural-language")

  /** IppGroup.CreateOperationAttributesGroup: charset utf-8, natural language en-us. */
  function OperationAttributesGroup(): (r: Group)
    ensures r.tag == OPERATION_ATTRIBUTES_TAG && |r.attributes| == 2
    ensures r.attributes[0].name == ATTRIBUTES_CHARSET && r.attributes[0].tag == Charset
    ensures r.attributes[1].name == ATTRIBUTES_NATURAL_LANGUAGE && r.attributes[1].tag == NaturalLang
    ensures r.attributes[0].values == [StringValue(Ascii("utf-8"))]
    ensures r.attributes[1].values == [StringValue(Ascii("en-us"))]
  {
    Group(OPERATION_ATTRIBUTES_TAG, [
      Attribute(Charset, ATTRIBUTES_CHARSET, [StringValue(Ascii("utf-8"))]),
      Attribute(NaturalLang, ATTRIBUTES_NATURAL_LANGUAGE, [StringValue(Ascii("en-us"))])
    ])
  }

  /**
   * What section 4.1.4 of RFC 8011 asks of every response: the first group
   * is the operation attributes group and it opens with attributes-charset
   * followed by attributes-natural-language.
   */
  ghost predicate OpensWithOperationAttributes(groups: seq<Group>)
  {
    && |groups| > 0
    && groups[0].tag == OPERATION_ATTRIBUTES_TAG
    && |groups[0].attributes| >= 2
    && groups[0].attributes[0].name == ATTRIBUTES_CHARSET
    && groups[0].attributes[1].name == ATTRIBUTES_NATURAL_LANGUAGE
  }

  /** The attribute and every value in it survive the wire encoding unchanged. */
  ghost predicate WellFormedAttribute(a: Attribute)
  {
    && !IsBlank(a.name)
    && |a.name| <= StringCodec.MAX_LENGTH
    && |a.values| >= 1
    && forall i :: 0 <= i < |a.values| ==> WellFormedValue(a.tag, a.values[i])
  }

  ghost predicate WellFormedValue(t: ValueTag, v: Value)
  {
    Fits(t, v) && Bounded(v) && EncodeValue(v).Ok?
  }

  /** A group the decoder reads back as the same group: a delimiter tag other than end-of-attributes. */
  ghost predicate WellFormedGroup(g: Group)
  {
    && IsDelimiter(g.tag)
    && g.tag != END_OF_ATTRIBUTES_TAG
    && forall i :: 0 <= i < |g.attributes| ==> WellFormedAttribute(g.attributes[i])
  }

  ghost predicate WellFormedGroups(groups: seq<Group>)
  {
    forall i :: 0 <= i < |groups| ==> WellFormedGroup(groups[i])
  }

  /** The Models response starts at version 1.1 with an empty group list. */
  function NewResponse(status: StatusCode, requestId: int32): (r: Response)
    ensures r.major == 1 && r.minor == 1 && r.groups == []
    ensures r.status == status && r.requestId == requestId
  {
    Response(1, 1, status, requestId, [])
  }

  /** IppResponse.CreateErrorResponse: the status and the operation attributes group, nothing else. */
  function ErrorResponse(status: StatusCode, requestId: int32): (r: Response)
    ensures r.major == 1 && r.minor == 1 && r.status == status && r.requestId == requestId
    ensures r.groups == [OperationAttributesGroup()]
    ensures OpensWithOperationAttributes(r.groups)
  {
    NewResponse(status, requestId).(groups := [OperationAttributesGroup()])
  }

  /** IppResponse.CreateSuccessResponse: successful-ok with the operation attributes group. */
  function SuccessResponse(requestId: int32): (r: Response)
    ensures r == ErrorResponse(SuccessfulOk, requestId)
    ensures r.status.IsSuccess()
  {
    NewResponse(SuccessfulOk, requestId).(groups := [OperationAttributesGroup()])
  }

  /** The operation attributes group is well formed, so every response built on it encodes it faithfully. */
  lemma OperationAttributesGroupWellFormed()
    ensures WellFormedGroup(OperationAttributesGroup())
  {
    var g := OperationAttributesGroup();
    assert ATTRIBUTES_CHARSET[0] == 0x61;
    assert ATTRIBUTES_NATURAL_LANGUAGE[0] == 0x61;
    assert !IsWhiteSpace(ATTRIBUTES_CHARSET[0]);
    assert !IsWhiteSpace(ATTRIBUTES_NATURAL_LANGUAGE[0]);
  }
}
