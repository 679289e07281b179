/**
 * StatusCodes.GetMessage: the registered keyword of each status code.
 *
 * Every keyword is the member's name in lower case with `_` written as `-`,
 * except for two entries of the table, which are exchanged.
 */
module StatusMessages {
  import opened Primitives
  import opened StatusCodes

  /** The keyword a status name stands for: lower case, `-` for `_`. */
  function KeywordChar(c: char): char
  {
    if c == '_' then '-' else if 'A' <= c <= 'Z' then (c as int + 0x20) as char else c
  }

  function Keyword(name: string): (r: string)
    ensures |r| == |name|
  {
    seq(|name|, i requires 0 <= i < |name| => KeywordChar(name[i]))
  }

  lemma KeywordConcat(a: string, b: string)
    ensures Keyword(a + b) == Keyword(a) + Keyword(b)
  {
  }

  /*
   * The keyword of each declared name, one literal per lemma: the solver
   * unfolds a sequence comprehension over a literal cheaply only in isolation.
   * The two longest names are done in halves.
   */
  lemma SuccessfulOkKeyword() ensures Keyword("SUCCESSFUL_OK") == "successful-ok" {}
  lemma ClientErrorBadRequestKeyword() ensures Keyword("CLIENT_ERROR_BAD_REQUEST") == "client-error-bad-request" {}
  lemma ServerErrorInternalErrorKeyword() ensures Keyword("SERVER_ERROR_INTERNAL_ERROR") == "server-error-internal-error" {}
  lemma ServerErrorOperationNotSupportedKeyword() ensures Keyword("SERVER_ERROR_OPERATION_NOT_SUPPORTED") == "server-error-operation-not-supported" {}
  lemma ServerErrorServiceUnavailableKeyword() ensures Keyword("SERVER_ERROR_SERVICE_UNAVAILABLE") == "server-error-service-unavailable" {}
  lemma ServerErrorVersionNotSupportedKeyword() ensures Keyword("SERVER_ERROR_VERSION_NOT_SUPPORTED") == "server-error-version-not-supported" {}
  lemma ServerErrorDeviceErrorKeyword() ensures Keyword("SERVER_ERROR_DEVICE_ERROR") == "server-error-device-error" {}
  lemma ServerErrorTemporaryErrorKeyword() ensures Keyword("SERVER_ERROR_TEMPORARY_ERROR") == "server-error-temporary-error" {}
  lemma ServerErrorNotAcceptingJobsKeyword() ensures Keyword("SERVER_ERROR_NOT_ACCEPTING_JOBS") == "server-error-not-accepting-jobs" {}
  lemma ServerErrorBusyKeyword() ensures Keyword("SERVER_ERROR_BUSY") == "server-error-busy" {}
  lemma ServerErrorJobCanceledKeyword() ensures Keyword("SERVER_ERROR_JOB_CANCELED") == "server-error-job-canceled" {}
  lemma SuccessfulOkConflictingAttributesKeyword() ensures Keyword("SUCCESSFUL_OK_CONFLICTING_ATTRIBUTES") == "successful-ok-conflicting-attributes" {}

  lemma IgnoredOrSubstitutedAttributesKeyword()
    ensures Keyword("SUCCESSFUL_OK_IGNORED_OR_SUBSTITUTED_ATTRIBUTES") == "successful-ok-ignored-or-substituted-attributes"
  {
    IgnoredOrSubstitutedHalves();
    IgnoredOrSubstitutedKeywordHalves();
    KeywordConcat("SUCCESSFUL_OK_", "IGNORED_OR_SUBSTITUTED_ATTRIBUTES");
    SuccessfulOkPrefixKeyword();
    IgnoredOrSubstitutedSuffixKeyword();
  }

  lemma MultipleDocumentJobsNotSupportedKeyword()
    ensures Keyword("SERVER_ERROR_MULTIPLE_DOCUMENT_JOBS_NOT_SUPPORTED") == "server-error-multiple-document-jobs-not-supported"
  {
    MultipleDocumentHalves();
    MultipleDocumentKeywordHalves();
    KeywordConcat("SERVER_ERROR_", "MULTIPLE_DOCUMENT_JOBS_NOT_SUPPORTED");
    ServerErrorPrefixKeyword();
    MultipleDocumentSuffixKeyword();
  }

  lemma IgnoredOrSubstitutedHalves()
    ensures "SUCCESSFUL_OK_IGNORED_OR_SUBSTITUTED_ATTRIBUTES" == "SUCCESSFUL_OK_" + "IGNORED_OR_SUBSTITUTED_ATTRIBUTES"
  {
  }

  lemma IgnoredOrSubstitutedKeywordHalves()
    ensures "successful-ok-ignored-or-substituted-attributes" == "successful-ok-" + "ignored-or-substituted-attributes"
  {
  }

  lemma MultipleDocumentHalves()
    ensures "SERVER_ERROR_MULTIPLE_DOCUMENT_JOBS_NOT_SUPPORTED" == "SERVER_ERROR_" + "MULTIPLE_DOCUMENT_JOBS_NOT_SUPPORTED"
  {
  }

  lemma MultipleDocumentKeywordHalves()
    ensures "server-error-multiple-document-jobs-not-supported" == "server-error-" + "multiple-document-jobs-not-supported"
  {
  }

  lemma SuccessfulOkPrefixKeyword() ensures Keyword("SUCCESSFUL_OK_") == "successful-ok-" {}
  lemma IgnoredOrSubstitutedSuffixKeyword() ensures Keyword("IGNORED_OR_SUBSTITUTED_ATTRIBUTES") == "ignored-or-substituted-attributes" {}
  lemma ServerErrorPrefixKeyword() ensures Keyword("SERVER_ERROR_") == "server-error-" {}
  lemma MultipleDocumentSuffixKeyword() ensures Keyword("MULTIPLE_DOCUMENT_JOBS_NOT_SUPPORTED") == "multiple-document-jobs-not-supported" {}

  /**
   * The dictionary of StatusCodes.cs as written. It holds an entry for every
   * declared code, so the lookup never throws for a StatusCode value.
   */
  function GetMessageAsWritten(code: StatusCode): string
  {
    match code
    case SuccessfulOk => "successful-ok"
    case SuccessfulOkConflictingAttributes => "successful-ok-ignored-or-substituted-attributes"
    case SuccessfulOkIgnoredOrSubstitutedAttributes => "successful-ok-conflicting-attributes"
    case ClientErrorBadRequest => "client-error-bad-request"
    case ServerErrorInternalError => "server-error-internal-error"
    case ServerErrorOperationNotSupported => "server-error-operation-not-supported"
    case ServerErrorServiceUnavailable => "server-error-service-unavailable"
    case ServerErrorVersionNotSupported => "server-error-version-not-supported"
    case ServerErrorDeviceError => "server-error-device-error"
    case ServerErrorTemporaryError => "server-error-temporary-error"
    case ServerErrorNotAcceptingJobs => "server-error-not-accepting-jobs"
    case ServerErrorBusy => "server-error-busy"
    case ServerErrorJobCanceled => "server-error-job-canceled"
    case ServerErrorMultipleDocumentJobsNotSupported => "server-error-multiple-document-jobs-not-supported"
  }

  /** The table with the two SUCCESSFUL_OK_* entries put back under their own codes. */
  function GetMessage(code: StatusCode): string
  {
    match code
    case SuccessfulOkConflictingAttributes => GetMessageAsWritten(SuccessfulOkIgnoredOrSubstitutedAttributes)
    case SuccessfulOkIgnoredOrSubstitutedAttributes => GetMessageAsWritten(SuccessfulOkConflictingAttributes)
    case _ => GetMessageAsWritten(code)
  }

  /** The as-written table gives SUCCESSFUL_OK_CONFLICTING_ATTRIBUTES the other code's keyword. */
  lemma AsWrittenMessageSwapped()
    ensures var c := SuccessfulOkConflictingAttributes;
            GetMessageAsWritten(c) == Keyword(SuccessfulOkIgnoredOrSubstitutedAttributes.Name())
            && GetMessageAsWritten(c) != Keyword(c.Name())
  {
    var c := SuccessfulOkConflictingAttributes;
    IgnoredOrSubstitutedAttributesKeyword();
    assert Keyword(c.Name())[14] == 'c';
  }

  /** The corrected table answers every code with the keyword of its own name. */
  lemma GetMessageIsKeyword(code: StatusCode)
    ensures GetMessage(code) == Keyword(code.Name())
  {
    match code
    case SuccessfulOk => SuccessfulOkKeyword();
    case ClientErrorBadRequest => ClientErrorBadRequestKeyword();
    case ServerErrorInternalError => ServerErrorInternalErrorKeyword();
    case ServerErrorOperationNotSupported => ServerErrorOperationNotSupportedKeyword();
    case ServerErrorServiceUnavailable => ServerErrorServiceUnavailableKeyword();
    case ServerErrorVersionNotSupported => ServerErrorVersionNotSupportedKeyword();
    case ServerErrorDeviceError => ServerErrorDeviceErrorKeyword();
    case ServerErrorTemporaryError => ServerErrorTemporaryErrorKeyword();
    case ServerErrorNotAcceptingJobs => ServerErrorNotAcceptingJobsKeyword();
    case ServerErrorBusy => ServerErrorBusyKeyword();
    case ServerErrorJobCanceled => ServerErrorJobCanceledKeyword();
    case SuccessfulOkConflictingAttributes => SuccessfulOkConflictingAttributesKeyword();
    case SuccessfulOkIgnoredOrSubstitutedAttributes => IgnoredOrSubstitutedAttributesKeyword();
    case ServerErrorMultipleDocumentJobsNotSupported => MultipleDocumentJobsNotSupportedKeyword();
  }

  /**
   * The code a message of the table as written belongs to, told apart by
   * its length and, for the two lengths that occur twice, its last letter.
   */
  function CodeOfMessage(m: string): Option<StatusCode>
  {
    if |m| == 0 then None
    else
      var last := m[|m| - 1];
      match |m|
      case 13 => Some(SuccessfulOk)
      case 47 => Some(SuccessfulOkConflictingAttributes)
      case 36 => Some(if last == 's' then SuccessfulOkIgnoredOrSubstitutedAttributes else ServerErrorOperationNotSupported)
      case 24 => Some(ClientErrorBadRequest)
      case 27 => Some(ServerErrorInternalError)
      case 32 => Some(ServerErrorServiceUnavailable)
      case 34 => Some(ServerErrorVersionNotSupported)
      case 25 => Some(if last == 'r' then ServerErrorDeviceError else ServerErrorJobCanceled)
      case 28 => Some(ServerErrorTemporaryError)
      case 31 => Some(ServerErrorNotAcceptingJobs)
      case 17 => Some(ServerErrorBusy)
      case 49 => Some(ServerErrorMultipleDocumentJobsNotSupported)
      case _ => None
  }

  /** Every message of the table as written leads back to its code. */
  lemma MessageIdentifiesCode(code: StatusCode)
    ensures CodeOfMessage(GetMessageAsWritten(code)) == Some(code)
  {
  }

  /** No two status codes share a message, in the table as written or corrected. */
  lemma MessagesDistinct(a: StatusCode, b: StatusCode)
    requires a != b
    ensures GetMessageAsWritten(a) != GetMessageAsWritten(b)
    ensures GetMessage(a) != GetMessage(b)
  {
    MessageIdentifiesCode(a);
    MessageIdentifiesCode(b);
    var a' := ExchangedCode(a);
    var b' := ExchangedCode(b);
    MessageIdentifiesCode(a');
    MessageIdentifiesCode(b');
  }

  /** The code whose as-written entry the corrected table answers with. */
  function ExchangedCode(code: StatusCode): (r: StatusCode)
    ensures GetMessage(code) == GetMessageAsWritten(r)
    ensures r == code <==> code != SuccessfulOkConflictingAttributes && code != SuccessfulOkIgnoredOrSubstitutedAttributes
  {
    match code
    case SuccessfulOkConflictingAttributes => SuccessfulOkIgnoredOrSubstitutedAttributes
    case SuccessfulOkIgnoredOrSubstitutedAttributes => SuccessfulOkConflictingAttributes
    case _ => code
  }

  /** Apart from the exchanged pair the two tables agree. */
  lemma GetMessageAgreesElsewhere(code: StatusCode)
    requires code != SuccessfulOkConflictingAttributes && code != SuccessfulOkIgnoredOrSubstitutedAttributes
    ensures GetMessageAsWritten(code) == GetMessage(code)
  {
  }
}
