/** The status-code constants of ServerErrorStatusCode.cs. */
module StatusCodes {
  import opened Primitives

  datatype StatusCode =
    | SuccessfulOk
    | SuccessfulOkIgnoredOrSubstitutedAttributes
    | SuccessfulOkConflictingAttributes
    | ClientErrorBadRequest
    | ServerErrorInternalError
    | ServerErrorOperationNotSupported
    | ServerErrorServiceUnavailable
    | ServerErrorVersionNotSupported
    | ServerErrorDeviceError
    | ServerErrorTemporaryError
    | ServerErrorNotAcceptingJobs
    | ServerErrorBusy
    | ServerErrorJobCanceled
    | ServerErrorMultipleDocumentJobsNotSupported
  {
    function Code(): int
    {
      match this
      case SuccessfulOk => 0x0000
      case SuccessfulOkIgnoredOrSubstitutedAttributes => 0x0001
      case SuccessfulOkConflictingAttributes => 0x0002
      case ClientErrorBadRequest => 0x0400
      case ServerErrorInternalError => 0x0500
      case ServerErrorOperationNotSupported => 0x0501
      case ServerErrorServiceUnavailable => 0x0502
      case ServerErrorVersionNotSupported => 0x0503
      case ServerErrorDeviceError => 0x0504
      case ServerErrorTemporaryError => 0x0505
      case ServerErrorNotAcceptingJobs => 0x0506
      case ServerErrorBusy => 0x0507
      case ServerErrorJobCanceled => 0x0508
      case ServerErrorMultipleDocumentJobsNotSupported => 0x0509
    }

    /** The member's name as declared in the C# enum. */
    function Name(): string
    {
      match this
      case SuccessfulOk => "SUCCESSFUL_OK"
      case SuccessfulOkIgnoredOrSubstitutedAttributes => "SUCCESSFUL_OK_IGNORED_OR_SUBSTITUTED_ATTRIBUTES"
      case SuccessfulOkConflictingAttributes => "SUCCESSFUL_OK_CONFLICTING_ATTRIBUTES"
      case ClientErrorBadRequest => "CLIENT_ERROR_BAD_REQUEST"
      case ServerErrorInternalError => "SERVER_ERROR_INTERNAL_ERROR"
      case ServerErrorOperationNotSupported => "SERVER_ERROR_OPERATION_NOT_SUPPORTED"
      case ServerErrorServiceUnavailable => "SERVER_ERROR_SERVICE_UNAVAILABLE"
      case ServerErrorVersionNotSupported => "SERVER_ERROR_VERSION_NOT_SUPPORTED"
      case ServerErrorDeviceError => "SERVER_ERROR_DEVICE_ERROR"
      case ServerErrorTemporaryError => "SERVER_ERROR_TEMPORARY_ERROR"
      case ServerErrorNotAcceptingJobs => "SERVER_ERROR_NOT_ACCEPTING_JOBS"
      case ServerErrorBusy => "SERVER_ERROR_BUSY"
      case ServerErrorJobCanceled => "SERVER_ERROR_JOB_CANCELED"
      case ServerErrorMultipleDocumentJobsNotSupported => "SERVER_ERROR_MULTIPLE_DOCUMENT_JOBS_NOT_SUPPORTED"
    }

    /** The status class is the high byte: 0x00 success, 0x04 client error, 0x05 server error. */
    predicate IsSuccess() { Code() / 0x100 == 0x00 }
  }

  /** The `(StatusCode)` cast of a number, None when no member declares it. */
  function StatusOf(code: int): (r: Option<StatusCode>)
    ensures r.Some? ==> r.value.Code() == code
  {
    if code == 0x0000 then Some(SuccessfulOk)
    else if code == 0x0001 then Some(SuccessfulOkIgnoredOrSubstitutedAttributes)
    else if code == 0x0002 then Some(SuccessfulOkConflictingAttributes)
    else if code == 0x0400 then Some(ClientErrorBadRequest)
    else if code == 0x0500 then Some(ServerErrorInternalError)
    else if code == 0x0501 then Some(ServerErrorOperationNotSupported)
    else if code == 0x0502 then Some(ServerErrorServiceUnavailable)
    else if code == 0x0503 then Some(ServerErrorVersionNotSupported)
    else if code == 0x0504 then Some(ServerErrorDeviceError)
    else if code == 0x0505 then Some(ServerErrorTemporaryError)
    else if code == 0x0506 then Some(ServerErrorNotAcceptingJobs)
    else if code == 0x0507 then Some(ServerErrorBusy)
    else if code == 0x0508 then Some(ServerErrorJobCanceled)
    else if code == 0x0509 then Some(ServerErrorMultipleDocumentJobsNotSupported)
    else None
  }

  /**
   * Each status is recovered from its code (the 14 codes are pairwise distinct),
   * every code fits a signed short so the encoder's cast is lossless, and only
   * the three SUCCESSFUL_OK codes fall in the success class.
   */
  lemma StatusCodeFacts(s: StatusCode)
    ensures StatusOf(s.Code()) == Some(s)
    ensures Wrap16(s.Code()) == s.Code()
    ensures s.IsSuccess() <==> s.Code() <= 0x0002
    ensures 0x0000 <= s.Code() <= 0x0002 || s.Code() == 0x0400 || 0x0500 <= s.Code() <= 0x0509
  {
  }
}
