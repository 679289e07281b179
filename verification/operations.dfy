/** The operation-id constants of Processing/Operation.cs. */
module OperationIds {
  import opened Primitives

  datatype Operation =
    | PrintJob | PrintUri | ValidateJob | CreateJob | SendDocument | SendUri | CancelJob
    | GetJobAttributes | GetJobs | GetPrinterAttributes | HoldJob | ReleaseJob | RestartJob
    | PausePrinter | ResumePrinter | PurgeJobs
  {
    function Code(): int
    {
      match this
      case PrintJob => 0x02
      case PrintUri => 0x03
      case ValidateJob => 0x04
      case CreateJob => 0x05
      case SendDocument => 0x06
      case SendUri => 0x07
      case CancelJob => 0x08
      case GetJobAttributes => 0x09
      case GetJobs => 0x0a
      case GetPrinterAttributes => 0x0b
      case HoldJob => 0x0c
      case ReleaseJob => 0x0d
      case RestartJob => 0x0e
      case PausePrinter => 0x10
      case ResumePrinter => 0x11
      case PurgeJobs => 0x12
    }
  }

  /** The `(Operation)` cast of a decoded code, None for a code no member declares. */
  function OperationOf(code: int): (r: Option<Operation>)
    ensures r.Some? ==> r.value.Code() == code
  {
    if code == 0x02 then Some(PrintJob)
    else if code == 0x03 then Some(PrintUri)
    else if code == 0x04 then Some(ValidateJob)
    else if code == 0x05 then Some(CreateJob)
    else if code == 0x06 then Some(SendDocument)
    else if code == 0x07 then Some(SendUri)
    else if code == 0x08 then Some(CancelJob)
    else if code == 0x09 then Some(GetJobAttributes)
    else if code == 0x0a then Some(GetJobs)
    else if code == 0x0b then Some(GetPrinterAttributes)
    else if code == 0x0c then Some(HoldJob)
    else if code == 0x0d then Some(ReleaseJob)
    else if code == 0x0e then Some(RestartJob)
    else if code == 0x10 then Some(PausePrinter)
    else if code == 0x11 then Some(ResumePrinter)
    else if code == 0x12 then Some(PurgeJobs)
    else None
  }

  /**
   * Each operation is recovered from its code (so the codes are pairwise
   * distinct); the codes lie in 0x02..0x12 and survive the decoder's signed
   * 16-bit read unchanged.
   */
  lemma OperationCodes(op: Operation)
    ensures OperationOf(op.Code()) == Some(op)
    ensures 0x02 <= op.Code() <= 0x12
    ensures Wrap16(op.Code()) == op.Code()
  {
  }

  /** 0x0F lies inside the range but names no operation. */
  lemma CodeFifteenUndeclared()
    ensures OperationOf(0x0F) == None
    ensures forall op: Operation :: op.Code() != 0x0F
  {
  }
}
