/** The HTTP handler for standard-JSON verification: the request carries one pre-assembled
    compiler input as a JSON string. Its verification routine is not part of this model and is
    a parameter here. */
module StandardJsonHandler {
  import opened Wrappers
  import opened Solc
  import opened Verifier
  import Http

  datatype StandardJson = StandardJson(input: string)

  datatype VerificationRequest = VerificationRequest(
    contractAddress: string,
    creationBytecode: Option<string>,
    compilerVersion: string,
    content: StandardJson)

  datatype StandardJsonContent = StandardJsonContent(input: CompilerInput)

  /** The typed request the standard-JSON verifier takes. */
  datatype StandardJsonRequest = StandardJsonRequest(
    contractAddress: string,
    creationBytecode: Option<Bytes>,
    compilerVersion: Version,
    content: StandardJsonContent)

  /** Why a request could not be converted: content that is not a compiler input, or any other
      bad field. */
  const InvalidContentPrefix := "content is not valid standard json: "

  datatype ParseError = InvalidContent(failure: ParseFailure) | BadRequest(message: string)

  /** The error's message: invalid content is announced as such, followed by the parser's own
      message; any other error shows its message as it is. */
  function Display(error: ParseError): (text: string)
    ensures error.InvalidContent? ==>
              InvalidContentPrefix <= text && text[|InvalidContentPrefix|..] == error.failure.display
    ensures error.BadRequest? ==> text == error.message
  {
    match error
    case InvalidContent(failure) => InvalidContentPrefix + failure.display
    case BadRequest(message) => message
  }

  /** The content must deserialize as a compiler input; if it does not, that is `InvalidContent`. */
  function ToContent(json: StandardJson, parsers: Parsers): (r: Result<StandardJsonContent, ParseError>)
    ensures r.Ok? <==> parsers.compilerInput(json.input).Ok?
    ensures r.Ok? ==> r.value.input == parsers.compilerInput(json.input).value
    ensures r.Err? ==> r.error == InvalidContent(parsers.compilerInput(json.input).error)
  {
    match parsers.compilerInput(json.input)
    case Ok(input) => Ok(StandardJsonContent(input))
    case Err(failure) => Err(InvalidContent(failure))
  }

  predicate BadCreationBytecode(params: VerificationRequest, parsers: Parsers) {
    params.creationBytecode.Some? && parsers.bytes(params.creationBytecode.value).Err?
  }

  /** Converts the request, checking the creation bytecode, then the compiler version, then the
      content. A bad bytecode or version is a `BadRequest`; only bad content is `InvalidContent`. */
  function ToRequest(params: VerificationRequest, parsers: Parsers): (r: Result<StandardJsonRequest, ParseError>)
    ensures r.Ok? ==> r.value.contractAddress == params.contractAddress
    ensures r.Ok? ==> (r.value.creationBytecode.None? <==> params.creationBytecode.None?)
    ensures r.Ok? && params.creationBytecode.Some? ==>
              parsers.bytes(params.creationBytecode.value) == Ok(r.value.creationBytecode.value)
    ensures r.Ok? ==> parsers.version(params.compilerVersion) == Ok(r.value.compilerVersion)
    ensures r.Ok? ==> ToContent(params.content, parsers) == Ok(r.value.content)
    ensures BadCreationBytecode(params, parsers) ==>
              r == Err(BadRequest("Invalid creation bytecode: " + parsers.bytes(params.creationBytecode.value).error.debug))
    ensures !BadCreationBytecode(params, parsers) && parsers.version(params.compilerVersion).Err? ==>
              r == Err(BadRequest("Invalid compiler version: " + parsers.version(params.compilerVersion).error.display))
    ensures r.Err? && r.error.InvalidContent? <==>
              !BadCreationBytecode(params, parsers) && parsers.version(params.compilerVersion).Ok?
              && parsers.compilerInput(params.content.input).Err?
    ensures r.Err? && r.error.InvalidContent? ==> r.error == ToContent(params.content, parsers).error
    ensures r.Err? <==>
              BadCreationBytecode(params, parsers) || parsers.version(params.compilerVersion).Err?
              || parsers.compilerInput(params.content.input).Err?
  {
    var creationBytecode :-
      match params.creationBytecode
      case None => Ok(None)
      case Some(text) =>
        match parsers.bytes(text)
        case Ok(bytes) => Ok(Some(bytes))
        case Err(failure) => Err(BadRequest("Invalid creation bytecode: " + failure.debug));
    var compilerVersion :-
      match parsers.version(params.compilerVersion)
      case Ok(version) => Ok(version)
      case Err(failure) => Err(BadRequest("Invalid compiler version: " + failure.display));
    var content :- ToContent(params.content, parsers);
    Ok(StandardJsonRequest(params.contractAddress, creationBytecode, compilerVersion, content))
  }

  /** The handler, with `verify` standing for the standard-JSON verification routine. Invalid
      content is a 400; any other conversion failure is an ordinary response carrying its
      message; neither records anything. A converted request is verified and answered as
      `Http.Respond` says. */
  function Verify(params: VerificationRequest, parsers: Parsers, verify: StandardJsonRequest -> VerifyResult)
    : (out: (Http.Reply, Option<Http.ContractRecord>))
    ensures ToRequest(params, parsers).Err? ==> out.1.None?
    ensures ToRequest(params, parsers).Err? && ToRequest(params, parsers).error.InvalidContent? ==>
              out.0 == Http.HttpError(Http.BadRequest, Http.Message(Display(ToRequest(params, parsers).error)))
    ensures ToRequest(params, parsers).Err? && ToRequest(params, parsers).error.BadRequest? ==>
              out.0 == Http.Json(Http.NotVerified(Http.Message(Display(ToRequest(params, parsers).error))))
    ensures ToRequest(params, parsers).Ok? ==>
              out == Http.Respond(params.contractAddress, verify(ToRequest(params, parsers).value))
  {
    match ToRequest(params, parsers)
    case Err(error) =>
      (match error
       case InvalidContent(_) => (Http.HttpError(Http.BadRequest, Http.Message(Display(error))), None)
       case BadRequest(_) => (Http.Json(Http.NotVerified(Http.Message(Display(error)))), None))
    case Ok(request) => Http.Respond(request.contractAddress, verify(request))
  }

  /** A request that does not convert never reaches the verifier: the reply is the same whatever
      the verifier would have answered. */
  lemma ParseFailureSkipsVerification(params: VerificationRequest, parsers: Parsers,
                                      verify1: StandardJsonRequest -> VerifyResult,
                                      verify2: StandardJsonRequest -> VerifyResult)
    requires ToRequest(params, parsers).Err?
    ensures Verify(params, parsers, verify1) == Verify(params, parsers, verify2)
  {
  }

  /** Verification errors are classified exactly as in the multi-part handler. */
  lemma VerificationErrorClassification(params: VerificationRequest, parsers: Parsers,
                                        verify: StandardJsonRequest -> VerifyResult)
    requires ToRequest(params, parsers).Ok? && verify(ToRequest(params, parsers).value).Err?
    ensures Verify(params, parsers, verify).0 == Http.ClassifyError(verify(ToRequest(params, parsers).value).error)
    ensures Verify(params, parsers, verify).1.None?
  {
  }
}
