/**
 * Operations/PrintJobOperation.cs: a Print-Job request names a job (or
 * takes the next "Job n"), may name a document format the printer must
 * support, and queues the job; the process-wide counter m_jobId numbers
 * the jobs.
 */
module PrintJobOperation {
  import opened Primitives
  import opened Text
  import opened Tags
  import opened Values
  import opened Model
  import opened StatusCodes
  import Printer
  import opened Projection

  const JOB_NAME: Bytes := Ascii("job-name")
  const DOCUMENT_FORMAT: Bytes := Ascii("document-format")
  const JOB_URI: Bytes := Ascii("job-uri")
  const JOB_ID: Bytes := Ascii("job-id")
  const JOB_STATE: Bytes := Ascii("job-state")
  const JOB_STATE_REASONS: Bytes := Ascii("job-state-reasons")
  const PENDING: Bytes := Ascii("pending")

  /** The initial value of m_jobId. */
  const FIRST_JOB_ID: int32 := 1

  /** How many groups carry the tag. */
  function CountTagged(groups: seq<Group>, tag: byte): nat
    decreases |groups|
  {
    if |groups| == 0 then 0
    else (if groups[0].tag == tag then 1 else 0) + CountTagged(groups[1..], tag)
  }

  /** No group carries the tag exactly when the count is zero. */
  lemma {:induction false} CountTaggedZero(groups: seq<Group>, tag: byte)
    ensures CountTagged(groups, tag) == 0 <==> forall j :: 0 <= j < |groups| ==> groups[j].tag != tag
    decreases |groups|
  {
    if |groups| > 0 {
      CountTaggedZero(groups[1..], tag);
      assert forall j :: 1 <= j < |groups| ==> groups[j].tag == groups[1..][j - 1].tag;
    }
  }

  /** Enumerable.Single(g => g.Tag == tag): the one group with the tag; none or several throw. */
  function SingleGroup(groups: seq<Group>, tag: byte): (r: Result<Group>)
    ensures r.Ok? <==> CountTagged(groups, tag) == 1
    ensures r.Err? ==> r.fault == NotSingle
    ensures r.Ok? ==> && FirstGroup(groups, tag).Some?
                      && r.value == groups[FirstGroup(groups, tag).value]
                      && r.value.tag == tag
  {
    if CountTagged(groups, tag) != 1 then Err(NotSingle)
    else
      CountTaggedZero(groups, tag);
      Ok(groups[FirstGroup(groups, tag).value])
  }

  /** `Values.FirstOrDefault() is IppString s`: the first value, when it is a plain string. */
  function FirstString(values: seq<Value>): (r: Option<Bytes>)
    ensures r.Some? <==> |values| > 0 && values[0].StringValue?
    ensures r.Some? ==> values[0] == StringValue(r.value)
  {
    if |values| > 0 && values[0].StringValue? then Some(values[0].s) else None
  }

  /** The string the first attribute called `name` opens with, if any. */
  function NamedString(attributes: seq<Attribute>, name: Bytes): (r: Option<Bytes>)
    ensures r.Some? ==> exists i :: 0 <= i < |attributes| && attributes[i].name == name
                                   && |attributes[i].values| > 0 && attributes[i].values[0] == StringValue(r.value)
  {
    match FirstNamed(attributes, name)
    case None => None
    case Some(i) =>
      match FirstString(attributes[i].values)
      case None => None
      case Some(s) => Some(s)
  }

  /** The name m_jobId gives a job: "Job " and the counter in decimal. */
  function DefaultJobName(n: int32): (r: Bytes)
    ensures |r| > 4 && r[..4] == Ascii("Job ") && r[4..] == Decimal(n)
    ensures DecimalValue(r[4..]) == n
  {
    DecimalDenotes(n, n);
    Ascii("Job ") + Decimal(n)
  }

  /** The job name: the first job-name value when it is a plain string, else "Job n". */
  function JobName(attributes: seq<Attribute>, n: int32): (r: Bytes)
    ensures NamedString(attributes, JOB_NAME).None? ==> r == DefaultJobName(n)
    ensures NamedString(attributes, JOB_NAME).Some? ==> r == NamedString(attributes, JOB_NAME).value
  {
    match NamedString(attributes, JOB_NAME)
    case None => DefaultJobName(n)
    case Some(s) => s
  }

  /** The request names, as a plain string, a document format the printer does not support. */
  predicate FormatRejected(attributes: seq<Attribute>, formats: seq<Bytes>)
  {
    match NamedString(attributes, DOCUMENT_FORMAT)
    case None => false
    case Some(f) => f !in formats
  }

  /** The job attributes group answering a queued job numbered `id`. */
  function JobGroup(uri: Bytes, id: int32): (r: Group)
    ensures r.tag == JOB_ATTRIBUTES_TAG && |r.attributes| == 4
    ensures r.attributes[0] == Attribute(Uri, JOB_URI, [StringValue(uri + [0x2F] + Decimal(id))])
    ensures r.attributes[1] == Attribute(Integer, JOB_ID, [IntegerValue(id)])
    ensures r.attributes[2].name == JOB_STATE && r.attributes[3].name == JOB_STATE_REASONS
  {
    Group(JOB_ATTRIBUTES_TAG, [
      Attribute(Uri, JOB_URI, [StringValue(uri + [0x2F] + Decimal(id))]),
      Attribute(Integer, JOB_ID, [IntegerValue(id)]),
      Attribute(Enum, JOB_STATE, [StringValue(PENDING)]),
      Attribute(Keyword, JOB_STATE_REASONS, [StringValue(PENDING)])
    ])
  }

  /**
   * job-state carries the string "pending" under the enum tag, so the
   * attribute is not one the decoder reads back: a reader takes the first
   * six of its nine bytes as an enum and loses its place in the message.
   */
  lemma JobStateMistagged(uri: Bytes, id: int32)
    ensures !WellFormedAttribute(JobGroup(uri, id).attributes[2])
    ensures WellFormedAttribute(JobGroup(uri, id).attributes[3])
    ensures var bytes := EncodeValue(StringValue(PENDING)).value;
            && |bytes| == 9
            && DecodeValue(bytes, Enum.Code(), 0).Ok?
            && DecodeValue(bytes, Enum.Code(), 0).value.0.value.EnumValue?
            && DecodeValue(bytes, Enum.Code(), 0).value.1 == 6
  {
    var bytes := EncodeValue(StringValue(PENDING)).value;
    assert |bytes| == 9;
    assert !IsBlank(JOB_STATE_REASONS) by { assert !IsWhiteSpace(JOB_STATE_REASONS[0]); }
    var state := JobGroup(uri, id).attributes[2];
    assert state == Attribute(Enum, JOB_STATE, [StringValue(PENDING)]);
    assert !Fits(Enum, state.values[0]);
    ValueTagCodes(Enum);
  }

  /** The response, the printer after the call, and the counter after the call. */
  datatype Outcome = Outcome(response: Response, printer: Printer.Printer, nextId: int32)

  /**
   * One Print-Job call with the counter at `n`, reporting the job under
   * number `reported`: the counter is taken (and advanced, wrapping like an
   * unchecked int) before the document format is looked at.
   */
  function Run(p: Printer.Printer, n: int32, request: Request, reported: int32): (r: Result<Outcome>)
    ensures r.Err? <==> CountTagged(request.groups, OPERATION_ATTRIBUTES_TAG) != 1
    ensures r.Err? ==> r.fault == NotSingle
    ensures r.Ok? ==> r.value.nextId == Wrap32(n + 1)
    ensures r.Ok? ==> && r.value.response.requestId == request.requestId
                      && |r.value.response.groups| >= 1 && r.value.response.groups[0] == OperationAttributesGroup()
    ensures r.Ok? ==> Printer.SameIdentity(r.value.printer, p) && r.value.printer.state == p.state
  {
    var group :- SingleGroup(request.groups, OPERATION_ATTRIBUTES_TAG);
    var attributes := group.attributes;
    var name := JobName(attributes, n);
    var next := Wrap32(n + 1);
    if FormatRejected(attributes, Printer.SUPPORTED_DOCUMENT_FORMATS) then
      Ok(Outcome(ErrorResponse(ClientErrorBadRequest, request.requestId), p, next))
    else
      var ok := SuccessResponse(request.requestId);
      Ok(Outcome(ok.(groups := ok.groups + [JobGroup(p.uri, reported)]), Printer.AddJob(p, Printer.Job(name)), next))
  }

  /** PrintJobOperation.Process as written: the job is reported under the counter after the increment. */
  function ProcessAsWritten(p: Printer.Printer, n: int32, request: Request): Result<Outcome>
  {
    Run(p, n, request, Wrap32(n + 1))
  }

  /** The corrected Process: the job is reported under the number its default name carries. */
  function Process(p: Printer.Printer, n: int32, request: Request): Result<Outcome>
  {
    Run(p, n, request, n)
  }

  /** The attributes of the single operation group of a request that has one. */
  function OperationAttributes(request: Request): seq<Attribute>
    requires CountTagged(request.groups, OPERATION_ATTRIBUTES_TAG) == 1
  {
    SingleGroup(request.groups, OPERATION_ATTRIBUTES_TAG).value.attributes
  }

  /** An unsupported document format is refused with client-error-bad-request; no job is queued, yet a number is used up. */
  lemma FormatRefused(p: Printer.Printer, n: int32, request: Request)
    requires CountTagged(request.groups, OPERATION_ATTRIBUTES_TAG) == 1
    requires FormatRejected(OperationAttributes(request), Printer.SUPPORTED_DOCUMENT_FORMATS)
    ensures Process(p, n, request) == Ok(Outcome(ErrorResponse(ClientErrorBadRequest, request.requestId), p, Wrap32(n + 1)))
    ensures ProcessAsWritten(p, n, request) == Process(p, n, request)
  {
  }

  /**
   * Otherwise the job is queued at the end under its name, and the
   * response is successful-ok followed by the job group.
   */
  lemma JobQueued(p: Printer.Printer, n: int32, request: Request)
    requires CountTagged(request.groups, OPERATION_ATTRIBUTES_TAG) == 1
    requires !FormatRejected(OperationAttributes(request), Printer.SUPPORTED_DOCUMENT_FORMATS)
    ensures var r := Process(p, n, request);
            && r.Ok? && r.value.response.status == SuccessfulOk
            && r.value.response.groups == [OperationAttributesGroup(), JobGroup(p.uri, n)]
            && r.value.printer.jobs == p.jobs + [Printer.Job(JobName(OperationAttributes(request), n))]
  {
  }

  /** Corrected: a job without a job-name is "Job n", and is reported as job n at URI/n. */
  lemma JobIdMatchesName(p: Printer.Printer, n: int32, request: Request)
    requires CountTagged(request.groups, OPERATION_ATTRIBUTES_TAG) == 1
    requires !FormatRejected(OperationAttributes(request), Printer.SUPPORTED_DOCUMENT_FORMATS)
    requires NamedString(OperationAttributes(request), JOB_NAME).None?
    ensures var r := Process(p, n, request).value;
            var job := r.printer.jobs[|p.jobs|];
            var group := r.response.groups[1];
            && job.name == DefaultJobName(n)
            && job.name[4..] == Decimal(n)
            && group.attributes[1].values == [IntegerValue(n)]
            && group.attributes[0].values == [StringValue(p.uri + [0x2F] + job.name[4..])]
  {
    JobQueued(p, n, request);
  }

  /**
   * As written: the first job is named "Job 1" but reported as job 2, at
   * URI/2; in general the reported number is one past the name's.
   */
  lemma JobIdOffByOne(p: Printer.Printer, n: int32, request: Request)
    requires CountTagged(request.groups, OPERATION_ATTRIBUTES_TAG) == 1
    requires !FormatRejected(OperationAttributes(request), Printer.SUPPORTED_DOCUMENT_FORMATS)
    requires NamedString(OperationAttributes(request), JOB_NAME).None?
    requires n < INT32_MAX
    ensures var r := ProcessAsWritten(p, n, request).value;
            && r.printer.jobs[|p.jobs|].name == DefaultJobName(n)
            && r.response.groups[1].attributes[1].values == [IntegerValue(n + 1)]
            && r.response.groups[1].attributes[1].values != [IntegerValue(n)]
  {
  }

  /** The first Print-Job of a fresh server, as written: "Job 1", reported as job-id 2. */
  lemma FirstJobAsWritten(p: Printer.Printer)
    ensures var request := Request(1, 1, 2, 1, [Group(OPERATION_ATTRIBUTES_TAG, [])]);
            var r := ProcessAsWritten(p, FIRST_JOB_ID, request);
            && r.Ok?
            && r.value.printer.jobs[|p.jobs|].name == Ascii("Job 1")
            && r.value.response.groups[1].attributes[1].values == [IntegerValue(2)]
  {
    var request := Request(1, 1, 2, 1, [Group(OPERATION_ATTRIBUTES_TAG, [])]);
    assert CountTagged(request.groups, OPERATION_ATTRIBUTES_TAG) == 1;
    assert Decimal(1) == [0x31];
    assert Ascii("Job ") + [0x31] == Ascii("Job 1");
  }

  /** Corrected: two jobs in a row get consecutive numbers, until the counter wraps. */
  lemma ConsecutiveJobIds(p: Printer.Printer, n: int32, first: Request, second: Request)
    requires n < INT32_MAX
    requires CountTagged(first.groups, OPERATION_ATTRIBUTES_TAG) == 1
    requires !FormatRejected(OperationAttributes(first), Printer.SUPPORTED_DOCUMENT_FORMATS)
    requires CountTagged(second.groups, OPERATION_ATTRIBUTES_TAG) == 1
    requires !FormatRejected(OperationAttributes(second), Printer.SUPPORTED_DOCUMENT_FORMATS)
    ensures var r1 := Process(p, n, first).value;
            var r2 := Process(r1.printer, r1.nextId, second).value;
            && r1.response.groups[1].attributes[1].values == [IntegerValue(n)]
            && r2.response.groups[1].attributes[1].values == [IntegerValue(n + 1)]
            && |r2.printer.jobs| == |p.jobs| + 2
  {
    JobQueued(p, n, first);
    var r1 := Process(p, n, first).value;
    JobQueued(r1.printer, r1.nextId, second);
  }
}
