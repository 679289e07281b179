/**
 * Processing/IppPrinterService.cs: the request dispatcher over the one
 * printer the service owns. A request id of zero and a major version above
 * two are refused first; then Get-Printer-Attributes, Purge-Jobs,
 * Pause-Printer and Resume-Printer are served and every other operation is
 * answered as not supported.
 */
module Service {
  import opened Primitives
  import opened Text
  import opened Model
  import opened StatusCodes
  import opened OperationIds
  import Printer
  import Projection

  const PRINTER_NAME: Bytes := Ascii("MyPrinter")
  const PRINTER_PORT: Printer.ushort := 1234
  const PRINTER_URI: Bytes := Ascii("https://127.0.0.1:7234/ipp/print")

  /** The printer the service constructor creates: stopped, with no jobs. */
  function InitialPrinter(): (r: Printer.Printer)
    ensures r.name == PRINTER_NAME && r.port == PRINTER_PORT && r.uri == PRINTER_URI
    ensures r.state == Printer.Stopped && r.jobs == []
  {
    Printer.NewPrinter(PRINTER_NAME, PRINTER_PORT, PRINTER_URI)
  }

  /** The response (or the exception that ends the request) and the printer afterwards. */
  datatype Reply = Reply(response: Result<Response>, printer: Printer.Printer)

  /** The operations the service serves. */
  predicate Served(op: Operation)
  {
    op == GetPrinterAttributes || op == PurgeJobs || op == PausePrinter || op == ResumePrinter
  }

  /** The request reaches the operation switch: its id is not zero and its major version is at most two. */
  predicate Admitted(request: Request)
  {
    request.requestId != 0 && request.major <= 2
  }

  /** The request's operation code is that of `op`. */
  predicate AsksFor(request: Request, op: Operation)
  {
    OperationOf(request.operation) == Some(op)
  }

  /** The request's operation code names an operation the service serves. */
  predicate AsksForServed(request: Request)
  {
    OperationOf(request.operation).Some? && Served(OperationOf(request.operation).value)
  }

  /** IppPrinterService.Process. */
  function Process(p: Printer.Printer, clock: Printer.Clock, request: Request): (r: Reply)
    ensures Printer.SameIdentity(r.printer, p)
    ensures r.response.Ok? ==> && r.response.value.requestId == request.requestId
                               && r.response.value.major == 1 && r.response.value.minor == 1
                               && |r.response.value.groups| >= 1
                               && r.response.value.groups[0] == OperationAttributesGroup()
  {
    var id := request.requestId;
    if id == 0 then Reply(Ok(ErrorResponse(ClientErrorBadRequest, 0)), p)
    else if request.major > 2 then Reply(Ok(ErrorResponse(ServerErrorVersionNotSupported, id)), p)
    else
      match OperationOf(request.operation)
      case Some(GetPrinterAttributes) =>
        Projection.AttributesResponseShape(Printer.Attributes(p, clock), request);
        Reply(Projection.AttributesResponse(Printer.Attributes(p, clock), request), p)
      case Some(PurgeJobs) => Reply(Ok(SuccessResponse(id)), Printer.ClearJobs(p))
      case Some(PausePrinter) => Reply(Ok(SuccessResponse(id)), Printer.Stop(p))
      case Some(ResumePrinter) => Reply(Ok(SuccessResponse(id)), Printer.Start(p))
      case _ => Reply(Ok(ErrorResponse(ServerErrorOperationNotSupported, id)), p)
  }

  /** The response is successful-ok exactly for an admitted request of a served operation; only Get-Printer-Attributes can end in an exception. */
  lemma SuccessExactlyWhenServed(p: Printer.Printer, clock: Printer.Clock, request: Request)
    ensures var r := Process(p, clock, request).response;
            r.Ok? ==> (r.value.status == SuccessfulOk <==> Admitted(request) && AsksForServed(request))
    ensures Process(p, clock, request).response.Err? ==> Admitted(request) && AsksFor(request, GetPrinterAttributes)
  {
    if Admitted(request) && AsksFor(request, GetPrinterAttributes) {
      Projection.AttributesResponseShape(Printer.Attributes(p, clock), request);
    }
  }

  /** A zero request id is refused with client-error-bad-request; a major version above two with version-not-supported. */
  lemma RefusedRequests(p: Printer.Printer, clock: Printer.Clock, request: Request)
    ensures request.requestId == 0 ==>
              Process(p, clock, request) == Reply(Ok(ErrorResponse(ClientErrorBadRequest, 0)), p)
    ensures request.requestId != 0 && request.major > 2 ==>
              Process(p, clock, request)
              == Reply(Ok(ErrorResponse(ServerErrorVersionNotSupported, request.requestId)), p)
  {
  }

  /** The minor version is never looked at: two requests that differ only there get the same reply. */
  lemma MinorVersionIgnored(p: Printer.Printer, clock: Printer.Clock, request: Request, minor: byte)
    ensures Process(p, clock, request.(minor := minor)) == Process(p, clock, request)
  {
  }

  /** Only Purge-Jobs, Pause-Printer and Resume-Printer change the printer. */
  lemma PrinterChangesOnlyWhenAsked(p: Printer.Printer, clock: Printer.Clock, request: Request)
    requires !Admitted(request) || !(AsksFor(request, PurgeJobs) || AsksFor(request, PausePrinter) || AsksFor(request, ResumePrinter))
    ensures Process(p, clock, request).printer == p
  {
  }

  /** Print-Job, and every other operation besides the four, is answered as not supported and changes nothing. */
  lemma NotSupported(p: Printer.Printer, clock: Printer.Clock, request: Request)
    requires Admitted(request)
    requires !AsksForServed(request)
    ensures Process(p, clock, request)
         == Reply(Ok(ErrorResponse(ServerErrorOperationNotSupported, request.requestId)), p)
  {
  }

  /** In particular Print-Job (code 2), whose handler is not wired into the switch. */
  lemma PrintJobNotSupported(p: Printer.Printer, clock: Printer.Clock, request: Request)
    requires Admitted(request) && request.operation == PrintJob.Code()
    ensures Process(p, clock, request).response.Ok?
    ensures Process(p, clock, request).response.value.status == ServerErrorOperationNotSupported
    ensures Process(p, clock, request).printer == p
  {
    OperationCodes(PrintJob);
  }

  /** Purge-Jobs empties the queue, keeps the state, and a second purge changes nothing more. */
  lemma PurgeJobsClears(p: Printer.Printer, clock: Printer.Clock, request: Request)
    requires Admitted(request) && AsksFor(request, PurgeJobs)
    ensures var q := Process(p, clock, request).printer;
            && q.jobs == [] && q.state == p.state
            && Process(q, clock, request).printer == q
  {
  }

  /** Pause-Printer stops the printer and Resume-Printer makes it idle, whatever the state was. */
  lemma PauseAndResume(p: Printer.Printer, clock: Printer.Clock, pause: Request, resume: Request)
    requires Admitted(pause) && AsksFor(pause, PausePrinter)
    requires Admitted(resume) && AsksFor(resume, ResumePrinter)
    ensures Process(p, clock, pause).printer.state == Printer.Stopped
    ensures Process(p, clock, resume).printer.state == Printer.Idle
    ensures Process(Process(p, clock, pause).printer, clock, resume).printer == Process(p, clock, resume).printer
    ensures Process(p, clock, pause).printer.jobs == p.jobs && Process(p, clock, resume).printer.jobs == p.jobs
  {
  }

  /**
   * Get-Printer-Attributes asking for everything reports the whole catalogue
   * of the printer as it is now, its current state included.
   */
  lemma AttributesReportState(p: Printer.Printer, clock: Printer.Clock, get: Request)
    requires Admitted(get) && AsksFor(get, GetPrinterAttributes)
    requires Projection.AsksForAll(Projection.RequestedAttributes(get.groups))
    ensures var r := Process(p, clock, get).response;
            && r.Ok? && |r.value.groups| == 2
            && r.value.groups[1].attributes == Printer.Attributes(p, clock)
            && r.value.groups[1].attributes[Printer.PRINTER_STATE_INDEX].values == [Values.EnumValue(p.state.Code())]
  {
    Projection.AllAttributes(Printer.Attributes(p, clock), get);
    Printer.CatalogueReflectsState(Printer.FieldsOf(p, clock));
  }
}
