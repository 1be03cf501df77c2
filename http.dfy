/** What the HTTP handlers make of a verification result: the JSON response or the HTTP error,
    and the record of a verified contract, whose address is stored lower-cased. */
module Http {
  import opened Wrappers
  import opened Verifier

  datatype Status = BadRequest | InternalServerError

  function StatusCode(status: Status): nat {
    match status
    case BadRequest => 400
    case InternalServerError => 500
  }

  /** What a failure response carries: a verification error, or the text of any other error. */
  datatype Cause = Failed(error: VerificationError) | Message(text: string)

  /** The JSON body: `VerificationResponse::ok` with the match, or `VerificationResponse::err`. */
  datatype VerificationResponse = Verified(result: Success) | NotVerified(cause: Cause)

  /** A handler's reply: a 200 response with a JSON body, or an HTTP error. */
  datatype Reply = Json(response: VerificationResponse) | HttpError(status: Status, cause: Cause)

  /** Errors that say the request's own input was wrong are reported in an ordinary response;
      a verifier that could not be set up, or a compiler version not in the catalog, is a client
      error; an internal failure is a server error. Each error is carried unchanged. */
  function ClassifyError(error: VerificationError): (reply: Reply)
    ensures reply.Json?
        <==> error.Compilation? || error.NoMatchingContracts? || error.CompilerVersionMismatch?
    ensures reply.HttpError? && reply.status == BadRequest
        <==> error.Initialization? || error.VersionNotFound?
    ensures reply.HttpError? && reply.status == InternalServerError <==> error.Internal?
    ensures reply.Json? ==> reply.response == NotVerified(Failed(error))
    ensures reply.HttpError? ==> reply.cause == Failed(error)
  {
    match error
    case Compilation(_) => Json(NotVerified(Failed(error)))
    case NoMatchingContracts => Json(NotVerified(Failed(error)))
    case CompilerVersionMismatch(_) => Json(NotVerified(Failed(error)))
    case Initialization(_) => HttpError(BadRequest, Failed(error))
    case VersionNotFound(_) => HttpError(BadRequest, Failed(error))
    case Internal(_) => HttpError(InternalServerError, Failed(error))
  }

  /** ASCII lower-casing of one character; every other character is left alone. */
  function LowerChar(c: char): char {
    if 'A' <= c <= 'Z' then (c as int - 'A' as int + 'a' as int) as char else c
  }

  /** `to_lowercase` on an address: every character lower-cased, in place. */
  function ToLower(s: string): (r: string)
    ensures |r| == |s|
    ensures forall i :: 0 <= i < |s| ==> r[i] == LowerChar(s[i])
  {
    if s == [] then [] else [LowerChar(s[0])] + ToLower(s[1..])
  }

  /** Lower-casing leaves no upper-case ASCII letter and is idempotent. */
  lemma ToLowerIsLower(s: string)
    ensures forall i :: 0 <= i < |ToLower(s)| ==> !('A' <= ToLower(s)[i] <= 'Z')
    ensures ToLower(ToLower(s)) == ToLower(s)
  {
  }

  /** Two spellings of an address that differ only in the case of ASCII letters (a checksummed
      and a plain hex address, say) are lower-cased to the same string. */
  lemma ToLowerIgnoresCase(a: string, b: string)
    requires |a| == |b|
    requires forall i :: 0 <= i < |a| ==> LowerChar(a[i]) == LowerChar(b[i])
    ensures ToLower(a) == ToLower(b)
  {
  }

  /** The record of a verified contract that is written to the database. */
  datatype ContractRecord = ContractRecord(contractAddress: string, result: Success)

  /** The handlers' treatment of a verification result: a match becomes an ordinary response
      and a record under the lower-cased address; an error is classified and records nothing. */
  function Respond(contractAddress: string, result: VerifyResult): (out: (Reply, Option<ContractRecord>))
    ensures result.Ok? ==> out.0 == Json(Verified(result.value))
    ensures result.Ok? ==> out.1 == Some(ContractRecord(ToLower(contractAddress), result.value))
    ensures result.Err? ==> out.0 == ClassifyError(result.error) && out.1.None?
  {
    match result
    case Ok(success) => (Json(Verified(success)), Some(ContractRecord(ToLower(contractAddress), success)))
    case Err(error) => (ClassifyError(error), None)
  }

  /** The outcome class of a reply to a verification result: a match, a response carrying an
      error, a client error or a server error. */
  datatype OutcomeClass = Matched | OkWithError | ClientError | ServerError

  function ClassOf(reply: Reply): OutcomeClass {
    match reply
    case Json(Verified(_)) => Matched
    case Json(NotVerified(_)) => OkWithError
    case HttpError(BadRequest, _) => ClientError
    case HttpError(InternalServerError, _) => ServerError
  }

  /** Every result falls in exactly one class, and only a match is recorded. */
  lemma RespondClasses(contractAddress: string, result: VerifyResult)
    ensures var (reply, record) := Respond(contractAddress, result);
            && (ClassOf(reply) == Matched <==> result.Ok?)
            && (record.Some? <==> ClassOf(reply) == Matched)
            && (ClassOf(reply) == OkWithError <==>
                  result.Err? && (result.error.Compilation? || result.error.NoMatchingContracts?
                                  || result.error.CompilerVersionMismatch?))
            && (ClassOf(reply) == ClientError <==>
                  result.Err? && (result.error.Initialization? || result.error.VersionNotFound?))
            && (ClassOf(reply) == ServerError <==> result.Err? && result.error.Internal?)
  {
  }
}
