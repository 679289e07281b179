/**
 * The printer of Models/IppPrinter.cs: a name, a port and a URI fixed at
 * construction, a state that Start and Stop set, a job list, and the
 * attribute catalogue rebuilt from those on every read.
 */
module Printer {
  import opened Primitives
  import opened Text
  import opened Tags
  import opened Values
  import opened Model
  import opened OperationIds
  import Calendar

  type ushort = x: int | 0 <= x < 0x1_0000

  /** The printer-state enum of section 5.4.11 of RFC 8011, as the PrinterState enum holds it. */
  datatype PrinterState = Idle | Processing | Stopped
  {
    function Code(): int32
    {
      match this
      case Idle => 3
      case Processing => 4
      case Stopped => 5
    }
  }

  /** IppJob: a job is known by its name only. */
  datatype Job = Job(name: Bytes)

  datatype Printer = Printer(name: Bytes, port: ushort, uri: Bytes, state: PrinterState, jobs: seq<Job>)

  /** What the catalogue reads from the clock: whole seconds since start-up, and the current UTC time. */
  datatype Clock = Clock(upTime: int32, now: Calendar.ValidDateTime)

  /** The constructor: stopped, with no jobs. */
  function NewPrinter(name: Bytes, port: ushort, uri: Bytes): (r: Printer)
    ensures r.state == Stopped && r.jobs == []
    ensures r.name == name && r.port == port && r.uri == uri
  {
    Printer(name, port, uri, Stopped, [])
  }

  /** The fields fixed at construction. */
  predicate SameIdentity(p: Printer, q: Printer)
  {
    p.name == q.name && p.port == q.port && p.uri == q.uri
  }

  /** Start: idle whatever the state was; nothing else changes. */
  function Start(p: Printer): (r: Printer)
    ensures r.state == Idle && r.state.Code() == 3
    ensures SameIdentity(r, p) && r.jobs == p.jobs
  {
    p.(state := Idle)
  }

  /** Stop: stopped whatever the state was; nothing else changes. */
  function Stop(p: Printer): (r: Printer)
    ensures r.state == Stopped && r.state.Code() == 5
    ensures SameIdentity(r, p) && r.jobs == p.jobs
  {
    p.(state := Stopped)
  }

  /** AddJob: the job goes at the end, the earlier jobs stay as they were. */
  function AddJob(p: Printer, job: Job): (r: Printer)
    ensures |r.jobs| == |p.jobs| + 1 && r.jobs[..|p.jobs|] == p.jobs && r.jobs[|p.jobs|] == job
    ensures SameIdentity(r, p) && r.state == p.state
  {
    p.(jobs := p.jobs + [job])
  }

  /** ClearJobs: no jobs left; nothing else changes. */
  function ClearJobs(p: Printer): (r: Printer)
    ensures r.jobs == []
    ensures SameIdentity(r, p) && r.state == p.state
  {
    p.(jobs := [])
  }

  /** Start and Stop only set the state: repeating either, or running one after the other, leaves the last one's state. */
  lemma StartStopIdempotent(p: Printer)
    ensures Start(Start(p)) == Start(p) && Stop(Stop(p)) == Stop(p)
    ensures Start(Stop(p)) == Start(p) && Stop(Start(p)) == Stop(p)
  {
  }

  /** Clearing twice is clearing once, and clearing after adding forgets the added job. */
  lemma ClearJobsIdempotent(p: Printer, job: Job)
    ensures ClearJobs(ClearJobs(p)) == ClearJobs(p)
    ensures ClearJobs(AddJob(p, job)) == ClearJobs(p)
  {
  }

  const APPLICATION_PDF: Bytes := Ascii("application/pdf")

  /** SupportedDocumentFormats and DefaultDocumentFormat, the same for every printer. */
  const SUPPORTED_DOCUMENT_FORMATS: seq<Bytes> := [APPLICATION_PDF]
  const DEFAULT_DOCUMENT_FORMAT: Bytes := APPLICATION_PDF

  /** The names of the catalogue, in catalogue order. */
  const CATALOGUE_NAMES: seq<string> := [
    "printer-name", "printer-info", "printer-make-and-model", "printer-device-id", "printer-uuid",
    "printer-uri-supported", "printer-uri", "printer-location", "media-supported", "media-type-supported",
    "printer-kind", "uri-security-supported", "uri-authentication-supported", "printer-state",
    "printer-state-message", "printer-state-reasons", "ipp-versions-supported", "operations-supported",
    "charset-configured", "charset-supported", "natural-language-configured",
    "generated-natural-language-supported", "document-format-default", "document-format-supported",
    "document-format-preferred", "printer-is-accepting-jobs", "queued-job-count", "pdl-override-supported",
    "printer-up-time", "printer-current-time", "compression-supported"]

  /** Positions of the entries that follow the printer's fields. */
  const PRINTER_NAME_INDEX := 0
  const PRINTER_URI_SUPPORTED_INDEX := 5
  const PRINTER_URI_INDEX := 6
  const PRINTER_STATE_INDEX := 13
  const DOCUMENT_FORMAT_SUPPORTED_INDEX := 23
  const QUEUED_JOB_COUNT_INDEX := 26
  const PRINTER_UP_TIME_INDEX := 28
  const PRINTER_CURRENT_TIME_INDEX := 29

  /** The catalogue names as the source spells them: pairwise distinct. */
  lemma CatalogueNamesDistinct()
    ensures |CATALOGUE_NAMES| == 31
    ensures forall i, j :: 0 <= i < j < |CATALOGUE_NAMES| ==> CATALOGUE_NAMES[i] != CATALOGUE_NAMES[j]
  {
  }

  function Strings(ss: seq<string>): (r: seq<Value>)
    ensures |r| == |ss| && forall i :: 0 <= i < |ss| ==> r[i] == StringValue(Ascii(ss[i]))
  {
    seq(|ss|, i requires 0 <= i < |ss| => StringValue(Ascii(ss[i])))
  }

  function Formats(fs: seq<Bytes>): (r: seq<Value>)
    ensures |r| == |fs| && forall i :: 0 <= i < |fs| ==> r[i] == StringValue(fs[i])
  {
    seq(|fs|, i requires 0 <= i < |fs| => StringValue(fs[i]))
  }

  /** The operations-supported list: every operation but Send-URI, in declaration order. */
  const OPERATIONS_SUPPORTED: seq<Operation> := [
    PrintJob, PrintUri, ValidateJob, CreateJob, SendDocument, CancelJob, GetJobAttributes, GetJobs,
    GetPrinterAttributes, HoldJob, ReleaseJob, RestartJob, PausePrinter, ResumePrinter, PurgeJobs]

  function OperationCodesOf(ops: seq<Operation>): (r: seq<Value>)
    ensures |r| == |ops| && forall i :: 0 <= i < |ops| ==> r[i] == EnumValue(ops[i].Code())
  {
    seq(|ops|, i requires 0 <= i < |ops| => EnumValue(ops[i].Code()))
  }

  /** What the catalogue is built from: the printer's fields and the clock. */
  datatype Fields = Fields(name: Bytes, uri: Bytes, formats: seq<Bytes>, state: PrinterState, jobCount: int32, clock: Clock)

  /** The value tag of catalogue entry `i`. */
  function EntryTag(i: int): ValueTag
  {
    match i
    case 0 => NameWithoutLang
    case 1 => TextWithoutLang
    case 2 => TextWithoutLang
    case 3 => TextWithoutLang
    case 4 => Uri
    case 5 => Uri
    case 6 => Uri
    case 7 => TextWithoutLang
    case 13 => Enum
    case 14 => TextWithoutLang
    case 17 => Enum
    case 18 => Charset
    case 19 => Charset
    case 20 => NaturalLang
    case 21 => NaturalLang
    case 22 => MimeMediaType
    case 23 => MimeMediaType
    case 24 => MimeMediaType
    case 25 => Boolean
    case 26 => Integer
    case 28 => Integer
    case 29 => DateTime
    case _ => Keyword
  }

  /** The values of catalogue entry `i`. */
  function EntryValues(i: int, f: Fields): seq<Value>
  {
    match i
    case 0 => [StringValue(f.name)]
    case 1 => Strings(["This is a virtual IPP printer."])
    case 2 => Strings(["Manufacturer - Model"])
    case 3 => Strings(["MyDeviceID"])
    case 4 => Strings(["urn:printer:uuid:123456"])
    case 5 => [StringValue(f.uri)]
    case 6 => [StringValue(f.uri)]
    case 7 => [StringValue([])]
    case 8 => Strings(["na_letter_8.5x11in", "na_legal_8.5x14in", "iso_a4_210x297mm"])
    case 9 => Strings(["auto"])
    case 10 => Strings(["document"])
    case 11 => Strings(["tls"])
    case 12 => Strings(["none"])
    case 13 => [EnumValue(f.state.Code())]
    case 14 => Strings(["Idle."])
    case 15 => Strings(["none"])
    case 16 => Strings(["1.0", "1.1", "2.0"])
    case 17 => OperationCodesOf(OPERATIONS_SUPPORTED)
    case 18 => Strings(["utf-8"])
    case 19 => Strings(["utf-8"])
    case 20 => Strings(["en-us"])
    case 21 => Strings(["en-us"])
    case 22 => [StringValue(DEFAULT_DOCUMENT_FORMAT)]
    case 23 => Formats(f.formats)
    case 24 => [StringValue(DEFAULT_DOCUMENT_FORMAT)]
    case 25 => [BooleanValue(true)]
    case 26 => [IntegerValue(f.jobCount)]
    case 27 => Strings(["not-attempted"])
    case 28 => [IntegerValue(f.clock.upTime)]
    case 29 => [DateTimeValue(f.clock.now)]
    case _ => Strings(["none"])
  }

  /** The attribute list IppPrinter.Attributes builds from the printer's fields and the clock. */
  function Catalogue(f: Fields): (r: seq<Attribute>)
    ensures |r| == |CATALOGUE_NAMES|
    ensures forall i :: 0 <= i < |r| ==> r[i].name == Ascii(CATALOGUE_NAMES[i])
  {
    seq(|CATALOGUE_NAMES|, i requires 0 <= i < |CATALOGUE_NAMES| =>
      Attribute(EntryTag(i), Ascii(CATALOGUE_NAMES[i]), EntryValues(i, f)))
  }

  /** The catalogue fields of a printer: the formats are the fixed list, and Jobs.Count is an int. */
  function FieldsOf(p: Printer, clock: Clock): Fields
  {
    Fields(p.name, p.uri, SUPPORTED_DOCUMENT_FORMATS, p.state, Wrap32(|p.jobs|), clock)
  }

  /** IppPrinter.Attributes: the catalogue of this printer now. */
  function Attributes(p: Printer, clock: Clock): seq<Attribute>
  {
    Catalogue(FieldsOf(p, clock))
  }

  /** Entry `i` of the catalogue is built from its tag, its name and its values. */
  lemma EntryAt(f: Fields, i: nat)
    requires i < |CATALOGUE_NAMES|
    ensures Catalogue(f)[i] == Attribute(EntryTag(i), Ascii(CATALOGUE_NAMES[i]), EntryValues(i, f))
  {
  }

  /** The catalogue reports the printer's name, and its URI under both URI entries. */
  lemma CatalogueReflectsIdentity(f: Fields)
    ensures Catalogue(f)[PRINTER_NAME_INDEX].values == [StringValue(f.name)]
    ensures Catalogue(f)[PRINTER_URI_SUPPORTED_INDEX].values == [StringValue(f.uri)]
    ensures Catalogue(f)[PRINTER_URI_INDEX].values == [StringValue(f.uri)]
  {
    EntryAt(f, PRINTER_NAME_INDEX);
    EntryAt(f, PRINTER_URI_SUPPORTED_INDEX);
    EntryAt(f, PRINTER_URI_INDEX);
  }

  /** The catalogue reports the state's enum code and the job count as an integer. */
  lemma CatalogueReflectsState(f: Fields)
    ensures Catalogue(f)[PRINTER_STATE_INDEX].tag == Enum
    ensures Catalogue(f)[PRINTER_STATE_INDEX].values == [EnumValue(f.state.Code())]
    ensures Catalogue(f)[QUEUED_JOB_COUNT_INDEX].tag == Integer
    ensures Catalogue(f)[QUEUED_JOB_COUNT_INDEX].values == [IntegerValue(f.jobCount)]
  {
    EntryAt(f, PRINTER_STATE_INDEX);
    EntryAt(f, QUEUED_JOB_COUNT_INDEX);
  }

  /** The catalogue lists the document formats, in order, under document-format-supported. */
  lemma CatalogueReflectsFormats(f: Fields)
    ensures |Catalogue(f)[DOCUMENT_FORMAT_SUPPORTED_INDEX].values| == |f.formats|
    ensures forall i :: 0 <= i < |f.formats| ==> Catalogue(f)[DOCUMENT_FORMAT_SUPPORTED_INDEX].values[i] == StringValue(f.formats[i])
  {
    EntryAt(f, DOCUMENT_FORMAT_SUPPORTED_INDEX);
  }

  /** The catalogue reports the clock: the up-time in seconds and the current time. */
  lemma CatalogueReflectsClock(f: Fields)
    ensures Catalogue(f)[PRINTER_UP_TIME_INDEX].values == [IntegerValue(f.clock.upTime)]
    ensures Catalogue(f)[PRINTER_CURRENT_TIME_INDEX].values == [DateTimeValue(f.clock.now)]
  {
    EntryAt(f, PRINTER_UP_TIME_INDEX);
    EntryAt(f, PRINTER_CURRENT_TIME_INDEX);
  }

  /** Every catalogue entry carries a value, given at least one document format. */
  lemma CatalogueValues(f: Fields)
    requires |f.formats| >= 1
    ensures forall i :: 0 <= i < |Catalogue(f)| ==> |Catalogue(f)[i].values| >= 1
  {
    forall i | 0 <= i < |CATALOGUE_NAMES| ensures |EntryValues(i, f)| >= 1 {
    }
  }

  /**
   * The catalogue is rebuilt from the printer on each read: two printers
   * with the same name and URI agree on every entry except printer-state
   * and queued-job-count.
   */
  lemma AttributesFollowState(p: Printer, q: Printer, clock: Clock)
    requires p.name == q.name && p.uri == q.uri
    ensures var a := Attributes(p, clock); var b := Attributes(q, clock);
            forall i :: 0 <= i < |a| && i != PRINTER_STATE_INDEX && i != QUEUED_JOB_COUNT_INDEX ==> a[i] == b[i]
  {
    var f := FieldsOf(p, clock);
    var g := FieldsOf(q, clock);
    forall i | 0 <= i < |CATALOGUE_NAMES| && i != PRINTER_STATE_INDEX && i != QUEUED_JOB_COUNT_INDEX
      ensures EntryValues(i, f) == EntryValues(i, g)
    {
    }
  }

  /** queued-job-count counts the jobs: one more after AddJob, zero after ClearJobs. */
  lemma QueuedJobCount(p: Printer, job: Job, clock: Clock)
    requires |p.jobs| < INT32_MAX
    ensures Attributes(p, clock)[QUEUED_JOB_COUNT_INDEX].values == [IntegerValue(|p.jobs|)]
    ensures Attributes(AddJob(p, job), clock)[QUEUED_JOB_COUNT_INDEX].values == [IntegerValue(|p.jobs| + 1)]
    ensures Attributes(ClearJobs(p), clock)[QUEUED_JOB_COUNT_INDEX].values == [IntegerValue(0)]
  {
    CatalogueReflectsState(FieldsOf(p, clock));
    CatalogueReflectsState(FieldsOf(AddJob(p, job), clock));
    CatalogueReflectsState(FieldsOf(ClearJobs(p), clock));
  }

  /** operations-supported lists fifteen distinct operations and leaves out Send-URI alone. */
  lemma OperationsSupported()
    ensures |OPERATIONS_SUPPORTED| == 15
    ensures forall op: Operation :: op in OPERATIONS_SUPPORTED <==> op != SendUri
    ensures forall i, j :: 0 <= i < j < |OPERATIONS_SUPPORTED| ==> OPERATIONS_SUPPORTED[i] != OPERATIONS_SUPPORTED[j]
  {
  }
}
