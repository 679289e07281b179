/**
 * The earlier, root-level copy of the server: IppUtilities.cs (the same
 * wire algorithm as IppDecoder and IppEncoder), IppPrinter.cs (the same
 * state machine, with a catalogue whose URIs are fixed strings),
 * IppResponse.cs (a response whose version can be set) and
 * IppPrinterService.cs (a dispatcher that answers ten operations with the
 * printer's attributes and changes nothing).
 */
module Legacy {
  import opened Primitives
  import opened Text
  import opened Values
  import opened Model
  import opened StatusCodes
  import opened OperationIds
  import Printer
  import Projection
  import Service
  import MessageCodec
  import EncoderAsWritten

  /** The URI the legacy service gives its printer. */
  const SERVICE_PRINTER_URI: Bytes := Ascii("ipp:/something/else")

  /** The URI the legacy catalogue reports, whatever the printer's own URI. */
  const CATALOGUE_URI: Bytes := Ascii("https://127.0.0.1:7234/ipp/print")

  /** The printer the legacy service constructor creates. */
  function InitialPrinter(): (r: Printer.Printer)
    ensures r.uri == SERVICE_PRINTER_URI && r.state == Printer.Stopped && r.jobs == []
  {
    Printer.NewPrinter(Service.PRINTER_NAME, Service.PRINTER_PORT, SERVICE_PRINTER_URI)
  }

  /** The legacy IppPrinter.Attributes: the Models catalogue with fixed URIs and the one PDF format. */
  function Attributes(p: Printer.Printer, clock: Printer.Clock): seq<Attribute>
  {
    Printer.Catalogue(Printer.Fields(p.name, CATALOGUE_URI, [Printer.APPLICATION_PDF], p.state, Wrap32(|p.jobs|), clock))
  }

  /**
   * The legacy catalogue is the Models catalogue of the same printer moved
   * to the fixed URI; so the legacy service reports a URI that is not its
   * printer's.
   */
  lemma CatalogueIgnoresUri(p: Printer.Printer, clock: Printer.Clock)
    ensures Attributes(p, clock) == Printer.Attributes(p.(uri := CATALOGUE_URI), clock)
    ensures Attributes(p, clock)[Printer.PRINTER_URI_INDEX].values == [StringValue(CATALOGUE_URI)]
    ensures Attributes(InitialPrinter(), clock)[Printer.PRINTER_URI_INDEX].values
         != [StringValue(InitialPrinter().uri)]
  {
    Printer.CatalogueReflectsIdentity(Printer.FieldsOf(p.(uri := CATALOGUE_URI), clock));
    assert CATALOGUE_URI[0] != SERVICE_PRINTER_URI[0];
  }

  /** The ten operation codes, Print-Job (2) to Get-Printer-Attributes (11), that the legacy service answers with attributes. */
  predicate AnsweredWithAttributes(code: int16)
  {
    PrintJob.Code() <= code <= GetPrinterAttributes.Code()
  }

  /** The ten codes are exactly the operations from Print-Job to Get-Printer-Attributes, Send-URI included. */
  lemma AnsweredOperations(op: Operation)
    ensures AnsweredWithAttributes(op.Code() as int16)
        <==> op in {PrintJob, PrintUri, ValidateJob, CreateJob, SendDocument, SendUri,
                    CancelJob, GetJobAttributes, GetJobs, GetPrinterAttributes}
  {
  }

  /** The legacy IppPrinterService.Process: the printer is never changed, so only the response is returned. */
  function Process(p: Printer.Printer, clock: Printer.Clock, request: Request): Result<Response>
  {
    var id := request.requestId;
    if id == 0 then Ok(ErrorResponse(ClientErrorBadRequest, 0))
    else if request.major > 2 then Ok(ErrorResponse(ServerErrorVersionNotSupported, id))
    else if AnsweredWithAttributes(request.operation) then
      Projection.AttributesResponse(Attributes(p, clock), request)
    else Ok(ErrorResponse(ServerErrorOperationNotSupported, id))
  }

  /**
   * An admitted request for any of the ten codes gets the projection of the
   * legacy catalogue; Hold-Job to Purge-Jobs, and any undeclared code, are
   * not supported.
   */
  lemma LegacyDispatch(p: Printer.Printer, clock: Printer.Clock, request: Request)
    requires Service.Admitted(request)
    ensures AnsweredWithAttributes(request.operation) ==>
              Process(p, clock, request) == Projection.AttributesResponse(Attributes(p, clock), request)
    ensures !AnsweredWithAttributes(request.operation) ==>
              Process(p, clock, request) == Ok(ErrorResponse(ServerErrorOperationNotSupported, request.requestId))
  {
  }

  /**
   * Where the two services part: Pause-Printer, Resume-Printer and
   * Purge-Jobs are served by the Models service and refused here, and
   * Print-Job is answered here with the printer's attributes.
   */
  lemma ServicesDiffer(p: Printer.Printer, clock: Printer.Clock, request: Request)
    requires Service.Admitted(request)
    ensures Service.AsksFor(request, PausePrinter) || Service.AsksFor(request, ResumePrinter) || Service.AsksFor(request, PurgeJobs) ==>
              && Process(p, clock, request).Ok?
              && Process(p, clock, request).value.status == ServerErrorOperationNotSupported
              && Service.Process(p, clock, request).response.value.status == SuccessfulOk
    ensures Service.AsksFor(request, PrintJob) ==>
              && Service.Process(p, clock, request).response.value.status == ServerErrorOperationNotSupported
              && (Process(p, clock, request).Ok? ==> Process(p, clock, request).value.status == SuccessfulOk)
  {
    Service.SuccessExactlyWhenServed(p, clock, request);
    if Service.AsksFor(request, PrintJob) {
      Projection.AttributesResponseShape(Attributes(p, clock), request);
    }
  }

  /** The legacy IppResponse with its settable version. */
  function SetVersion(resp: Response, major: int, minor: int): (r: Response)
    ensures r.major == major && r.minor == minor
    ensures r.status == resp.status && r.requestId == resp.requestId && r.groups == resp.groups
  {
    resp.(major := major, minor := minor)
  }

  /**
   * IppUtilities.EncodeResponse and DecodeRequest: a response whose groups
   * are well formed reads back with each version number cut to its low byte,
   * its status code and request id, and its groups as the program's range
   * layout leaves them (each range lower..upper as upper..0).
   */
  lemma VersionTruncated(resp: Response, major: int, minor: int)
    requires WellFormedGroups(resp.groups)
    ensures EncoderAsWritten.EncodeResponse(SetVersion(resp, major, minor)).Ok?
    ensures var r := MessageCodec.Decode(EncoderAsWritten.EncodeResponse(SetVersion(resp, major, minor)).value);
            && r.Ok? && r.value.major == major % 0x100 && r.value.minor == minor % 0x100
            && r.value.operation == resp.status.Code() && r.value.requestId == resp.requestId
            && r.value.groups == EncoderAsWritten.TurnedGroups(resp.groups)
  {
    EncoderAsWritten.RoundTrip(SetVersion(resp, major, minor));
  }

  /** Every error response, of either service, reads back as version 1.1 with its status, id and operation group. */
  lemma ErrorResponseRoundTrip(status: StatusCode, requestId: int32)
    ensures EncoderAsWritten.EncodeResponse(ErrorResponse(status, requestId)).Ok?
    ensures var r := MessageCodec.Decode(EncoderAsWritten.EncodeResponse(ErrorResponse(status, requestId)).value);
            r == Ok(Request(1, 1, status.Code(), requestId, [OperationAttributesGroup()]))
  {
    OperationAttributesGroupWellFormed();
    var groups := [OperationAttributesGroup()];
    assert EncoderAsWritten.RangeFree(groups) by {
      forall j, k | 0 <= j < |groups[0].attributes| && 0 <= k < |groups[0].attributes[j].values|
        ensures !groups[0].attributes[j].values[k].RangeValue?
      {
        assert j == 0 || j == 1;
      }
    }
    EncoderAsWritten.RangeFreeRoundTrip(ErrorResponse(status, requestId));
  }
}
