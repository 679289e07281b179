/**
 * The Get-Printer-Attributes response of
 * Extensions/PrinterAttributesResponseExtensions.cs (and its twin,
 * Operations/PrinterAttributesOperation.cs): the requested-attributes names
 * are read from the first operation attributes group, and the printer's
 * catalogue is projected onto them, with the names it does not know listed
 * in an unsupported-attributes group.
 */
module Projection {
  import opened Primitives
  import opened Text
  import opened Tags
  import opened Values
  import opened Model
  import opened StatusCodes

  const REQUESTED_ATTRIBUTES: Bytes := Ascii("requested-attributes")
  const ALL: Bytes := Ascii("all")
  const UNSUPPORTED: Bytes := Ascii("unsupported")

  /** `xs` is `ys` with some elements dropped and the rest kept in order. */
  ghost predicate IsSubsequence<T>(xs: seq<T>, ys: seq<T>)
    decreases |ys|
  {
    || |xs| == 0
    || (&& |ys| > 0
        && if xs[0] == ys[0] then IsSubsequence(xs[1..], ys[1..]) else IsSubsequence(xs, ys[1..]))
  }

  /** FirstOrDefault(keep) on a list, as the position of the element found. */
  function FirstWhere<T>(s: seq<T>, keep: T -> bool): (r: Option<nat>)
    ensures r.Some? ==> r.value < |s| && keep(s[r.value])
    ensures r.Some? ==> forall j :: 0 <= j < r.value ==> !keep(s[j])
    ensures r.None? <==> forall j :: 0 <= j < |s| ==> !keep(s[j])
    decreases |s|
  {
    if |s| == 0 then None
    else if keep(s[0]) then Some(0)
    else match FirstWhere(s[1..], keep)
      case None => None
      case Some(k) => Some(k + 1)
  }

  /** FirstOrDefault(g => g.Tag == tag) on the group list. */
  function FirstGroup(groups: seq<Group>, tag: byte): Option<nat>
  {
    FirstWhere(groups, (g: Group) => g.tag == tag)
  }

  /** FirstOrDefault(a => a.Name == name) on an attribute list. */
  function FirstNamed(attributes: seq<Attribute>, name: Bytes): Option<nat>
  {
    FirstWhere(attributes, (a: Attribute) => a.name == name)
  }

  /** Values.OfType<IppString>(): the plain strings, in order; every other kind of value is skipped. */
  function StringsOf(vs: seq<Value>): (r: seq<Bytes>)
    ensures |r| <= |vs|
    ensures forall s :: s in r <==> StringValue(s) in vs
    ensures (forall i :: 0 <= i < |vs| ==> vs[i].StringValue?) ==>
              |r| == |vs| && forall i :: 0 <= i < |vs| ==> r[i] == vs[i].s
  {
    if |vs| == 0 then []
    else
      var rest := StringsOf(vs[1..]);
      assert vs == [vs[0]] + vs[1..];
      if vs[0].StringValue? then [vs[0].s] + rest else rest
  }

  /** GetRequestedAttributes: the string values of the first requested-attributes of the first operation group. */
  function RequestedAttributes(groups: seq<Group>): seq<Bytes>
  {
    match FirstGroup(groups, OPERATION_ATTRIBUTES_TAG)
    case None => []
    case Some(g) =>
      match FirstNamed(groups[g].attributes, REQUESTED_ATTRIBUTES)
      case None => []
      case Some(a) => StringsOf(groups[g].attributes[a].values)
  }

  /** The names are read from the first requested-attributes of the first operation group, whatever follows. */
  lemma RequestedAttributesFound(groups: seq<Group>, g: nat, a: nat)
    requires g < |groups| && groups[g].tag == OPERATION_ATTRIBUTES_TAG
    requires forall j :: 0 <= j < g ==> groups[j].tag != OPERATION_ATTRIBUTES_TAG
    requires a < |groups[g].attributes| && groups[g].attributes[a].name == REQUESTED_ATTRIBUTES
    requires forall j :: 0 <= j < a ==> groups[g].attributes[j].name != REQUESTED_ATTRIBUTES
    ensures RequestedAttributes(groups) == StringsOf(groups[g].attributes[a].values)
  {
    assert FirstGroup(groups, OPERATION_ATTRIBUTES_TAG) == Some(g);
    assert FirstNamed(groups[g].attributes, REQUESTED_ATTRIBUTES) == Some(a);
  }

  /** Without an operation group, or without requested-attributes in the first one, nothing is requested. */
  lemma RequestedAttributesAbsent(groups: seq<Group>)
    requires
      || (forall j :: 0 <= j < |groups| ==> groups[j].tag != OPERATION_ATTRIBUTES_TAG)
      || (&& |groups| > 0 && groups[0].tag == OPERATION_ATTRIBUTES_TAG
          && forall j :: 0 <= j < |groups[0].attributes| ==> groups[0].attributes[j].name != REQUESTED_ATTRIBUTES)
    ensures RequestedAttributes(groups) == []
  {
  }

  /** The request asks for everything: no names at all, or "all" in any letter case among them. */
  predicate AsksForAll(requested: seq<Bytes>)
  {
    |requested| == 0 || exists i :: 0 <= i < |requested| && EqualsIgnoreCase(requested[i], ALL)
  }

  /** The names of a list of attributes, in order. */
  function Names(attributes: seq<Attribute>): (r: seq<Bytes>)
    ensures |r| == |attributes|
    ensures forall i :: 0 <= i < |attributes| ==> r[i] == attributes[i].name
  {
    seq(|attributes|, i requires 0 <= i < |attributes| => attributes[i].name)
  }

  /** The catalogue entries whose name was requested, in catalogue order. */
  function Supported(catalogue: seq<Attribute>, requested: seq<Bytes>): (r: seq<Attribute>)
    ensures forall a :: a in r <==> a in catalogue && a.name in requested
    ensures IsSubsequence(r, catalogue)
    decreases |catalogue|
  {
    if |catalogue| == 0 then []
    else
      var rest := Supported(catalogue[1..], requested);
      assert catalogue == [catalogue[0]] + catalogue[1..];
      if catalogue[0].name in requested then [catalogue[0]] + rest
      else
        assert |rest| > 0 ==> rest[0] != catalogue[0] by {
          if |rest| > 0 {
            assert rest[0] in rest;
          }
        }
        rest
  }

  /** The requested names no catalogue entry carries, in request order and with repeats kept. */
  function Missing(names: seq<Bytes>, requested: seq<Bytes>): (r: seq<Bytes>)
    ensures forall n :: n in r <==> n in requested && n !in names
    ensures IsSubsequence(r, requested)
    ensures forall n :: n in names ==> multiset(r)[n] == 0
    ensures forall n :: n !in names ==> multiset(r)[n] == multiset(requested)[n]
    decreases |requested|
  {
    if |requested| == 0 then []
    else
      var rest := Missing(names, requested[1..]);
      assert requested == [requested[0]] + requested[1..];
      if requested[0] !in names then [requested[0]] + rest
      else
        assert |rest| > 0 ==> rest[0] != requested[0] by {
          if |rest| > 0 {
            assert rest[0] in rest;
          }
        }
        rest
  }

  /** None of the names is empty or white space only, as the IppAttribute constructor demands. */
  predicate NoneBlank(names: seq<Bytes>)
  {
    forall i :: 0 <= i < |names| ==> !IsBlank(names[i])
  }

  /** The unsupported-attributes entry for a name: tag unsupported, the one value "unsupported". */
  function UnsupportedEntry(name: Bytes): (r: Result<Attribute>)
    ensures r.Ok? <==> !IsBlank(name)
    ensures r.Ok? ==> r.value == Attribute(Unsupported, name, [StringValue(UNSUPPORTED)])
  {
    NewAttribute(Unsupported, name, [StringValue(UNSUPPORTED)])
  }

  /**
   * The unsupported-attributes group, one entry per missing name in order;
   * the IppAttribute constructor refuses a blank name, which ends the
   * request with an exception.
   */
  function UnsupportedGroup(missing: seq<Bytes>): (r: Result<Group>)
    ensures r.Ok? <==> NoneBlank(missing)
    ensures r.Err? ==> r.fault == InvalidName
    ensures r.Ok? ==> r.value.tag == UNSUPPORTED_ATTRIBUTES_TAG && |r.value.attributes| == |missing|
    ensures r.Ok? ==> forall i :: 0 <= i < |missing| ==>
              r.value.attributes[i] == Attribute(Unsupported, missing[i], [StringValue(UNSUPPORTED)])
    decreases |missing|
  {
    if |missing| == 0 then Ok(Group(UNSUPPORTED_ATTRIBUTES_TAG, []))
    else
      var first :- UnsupportedEntry(missing[0]);
      var rest :- UnsupportedGroup(missing[1..]);
      Ok(Group(UNSUPPORTED_ATTRIBUTES_TAG, [first] + rest.attributes))
  }

  /** CreateAllPrinterAttributesResponse: successful-ok, the operation group, then the whole catalogue. */
  function AllResponse(catalogue: seq<Attribute>, requestId: int32): (r: Response)
    ensures r.status == SuccessfulOk && r.requestId == requestId && r.major == 1 && r.minor == 1
    ensures r.groups == [OperationAttributesGroup(), Group(PRINTER_ATTRIBUTES_TAG, catalogue)]
  {
    var ok := SuccessResponse(requestId);
    ok.(groups := ok.groups + [Group(PRINTER_ATTRIBUTES_TAG, catalogue)])
  }

  /**
   * The response to a list of names without "all": the requested entries
   * in a printer group, then the missing names in an unsupported group.
   */
  function SelectedResponse(catalogue: seq<Attribute>, requested: seq<Bytes>, requestId: int32): (r: Result<Response>)
    ensures var missing := Missing(Names(catalogue), requested);
            r.Ok? <==> NoneBlank(missing)
    ensures r.Ok? ==> && r.value.status == SuccessfulOk && r.value.requestId == requestId
                      && r.value.major == 1 && r.value.minor == 1
                      && |r.value.groups| == 3 && r.value.groups[0] == OperationAttributesGroup()
                      && r.value.groups[1] == Group(PRINTER_ATTRIBUTES_TAG, Supported(catalogue, requested))
                      && r.value.groups[2].tag == UNSUPPORTED_ATTRIBUTES_TAG
                      && Names(r.value.groups[2].attributes) == Missing(Names(catalogue), requested)
  {
    var missing := Missing(Names(catalogue), requested);
    var unsupported := UnsupportedGroup(missing);
    if unsupported.Err? then Err(unsupported.fault)
    else
      assert Names(unsupported.value.attributes) == missing;
      var ok := SuccessResponse(requestId);
      Ok(ok.(groups := ok.groups + [Group(PRINTER_ATTRIBUTES_TAG, Supported(catalogue, requested)), unsupported.value]))
  }

  /** CreateSupportedAttributesResponse for a printer whose catalogue is `catalogue`. */
  function AttributesResponse(catalogue: seq<Attribute>, request: Request): Result<Response>
  {
    var requested := RequestedAttributes(request.groups);
    if AsksForAll(requested) then Ok(AllResponse(catalogue, request.requestId))
    else SelectedResponse(catalogue, requested, request.requestId)
  }

  /** Whatever is asked, a response is successful-ok, echoes the request id and opens with the operation group. */
  lemma AttributesResponseShape(catalogue: seq<Attribute>, request: Request)
    ensures var r := AttributesResponse(catalogue, request);
            r.Ok? ==> && r.value.status == SuccessfulOk && r.value.requestId == request.requestId
                      && r.value.major == 1 && r.value.minor == 1
                      && |r.value.groups| >= 2 && r.value.groups[0] == OperationAttributesGroup()
                      && r.value.groups[1].tag == PRINTER_ATTRIBUTES_TAG
  {
  }

  /** No names, or "all" among them: the whole catalogue, in order, and no unsupported group. */
  lemma AllAttributes(catalogue: seq<Attribute>, request: Request)
    requires AsksForAll(RequestedAttributes(request.groups))
    ensures AttributesResponse(catalogue, request)
         == Ok(SuccessResponse(request.requestId).(groups := [OperationAttributesGroup(), Group(PRINTER_ATTRIBUTES_TAG, catalogue)]))
  {
  }

  /**
   * Otherwise: the printer group holds exactly the requested entries in
   * catalogue order, and the unsupported group exactly the requested names
   * the catalogue lacks, in request order; a blank name among those makes
   * the response fail.
   */
  lemma SelectedAttributes(catalogue: seq<Attribute>, request: Request)
    requires !AsksForAll(RequestedAttributes(request.groups))
    ensures var requested := RequestedAttributes(request.groups);
            var missing := Missing(Names(catalogue), requested);
            var r := AttributesResponse(catalogue, request);
            && (r.Ok? <==> NoneBlank(missing))
            && (r.Ok? ==>
                && |r.value.groups| == 3
                && r.value.groups[1].tag == PRINTER_ATTRIBUTES_TAG
                && IsSubsequence(r.value.groups[1].attributes, catalogue)
                && (forall a :: a in r.value.groups[1].attributes <==> a in catalogue && a.name in requested)
                && r.value.groups[2].tag == UNSUPPORTED_ATTRIBUTES_TAG
                && Names(r.value.groups[2].attributes) == missing)
  {
  }

  /** A requested name the catalogue carries is among the supported entries' names and not missing; any other is missing. */
  lemma NameSorted(catalogue: seq<Attribute>, requested: seq<Bytes>, n: Bytes)
    requires n in requested
    ensures n in Names(catalogue) ==> n in Names(Supported(catalogue, requested)) && n !in Missing(Names(catalogue), requested)
    ensures n !in Names(catalogue) ==> n !in Names(Supported(catalogue, requested)) && n in Missing(Names(catalogue), requested)
  {
    var supported := Supported(catalogue, requested);
    var names := Names(catalogue);
    if n in names {
      var k :| 0 <= k < |names| && names[k] == n;
      assert catalogue[k] in supported;
      var i :| 0 <= i < |supported| && supported[i] == catalogue[k];
      assert Names(supported)[i] == n;
    }
  }

  /** A requested name is answered by the catalogue or listed as unsupported, never both. */
  lemma EveryNameAnswered(catalogue: seq<Attribute>, request: Request, n: Bytes)
    requires !AsksForAll(RequestedAttributes(request.groups))
    requires n in RequestedAttributes(request.groups)
    requires AttributesResponse(catalogue, request).Ok?
    ensures n in Names(catalogue) ==>
              && n in Names(AttributesResponse(catalogue, request).value.groups[1].attributes)
              && n !in Names(AttributesResponse(catalogue, request).value.groups[2].attributes)
    ensures n !in Names(catalogue) ==>
              && n !in Names(AttributesResponse(catalogue, request).value.groups[1].attributes)
              && n in Names(AttributesResponse(catalogue, request).value.groups[2].attributes)
  {
    var requested := RequestedAttributes(request.groups);
    var r := SelectedResponse(catalogue, requested, request.requestId);
    assert AttributesResponse(catalogue, request) == r;
    assert r.value.groups[1].attributes == Supported(catalogue, requested);
    assert Names(r.value.groups[2].attributes) == Missing(Names(catalogue), requested);
    NameSorted(catalogue, requested, n);
  }

  /** With no blank name in the catalogue, the missing names are free of blanks exactly when the requested ones are. */
  lemma MissingNoneBlank(names: seq<Bytes>, requested: seq<Bytes>)
    requires NoneBlank(names)
    ensures NoneBlank(Missing(names, requested)) <==> NoneBlank(requested)
  {
    var missing := Missing(names, requested);
    if NoneBlank(requested) {
      forall j | 0 <= j < |missing| ensures !IsBlank(missing[j]) {
        assert missing[j] in missing;
        var i :| 0 <= i < |requested| && requested[i] == missing[j];
      }
    } else {
      var i :| 0 <= i < |requested| && IsBlank(requested[i]);
      assert requested[i] !in names;
      assert requested[i] in missing;
      var j :| 0 <= j < |missing| && missing[j] == requested[i];
    }
  }

  /** When every name in the catalogue is non-blank, the response fails exactly on a blank requested name. */
  lemma AttributesResponseFails(catalogue: seq<Attribute>, request: Request)
    requires NoneBlank(Names(catalogue))
    ensures AttributesResponse(catalogue, request).Err?
        <==> !AsksForAll(RequestedAttributes(request.groups)) && !NoneBlank(RequestedAttributes(request.groups))
  {
    MissingNoneBlank(Names(catalogue), RequestedAttributes(request.groups));
  }
}
