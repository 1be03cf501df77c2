/** The HTTP handler for multi-part verification: converting the request's strings into typed
    values, running the search, and turning its result into a reply and a database record. */
module MultiPartHandler {
  import opened Wrappers
  import opened Solc
  import opened Verifier
  import opened Http
  import MultiPart

  datatype MultiPartFiles = MultiPartFiles(
    sources: map<Path, string>,
    evmVersion: string,
    optimizationRuns: Option<nat>,
    contractLibraries: Option<map<string, string>>)

  datatype VerificationRequest = VerificationRequest(
    contractAddress: string,
    creationBytecode: Option<string>,
    compilerVersion: string,
    content: MultiPartFiles)

  /** The EVM version `"default"` means "let the compiler choose"; any other name is parsed. */
  function ToMultiFileContent(files: MultiPartFiles, parsers: Parsers): (r: Result<MultiPart.MultiFileContent, string>)
    ensures r.Ok? ==> r.value.sources == files.sources
    ensures r.Ok? ==> r.value.optimizationRuns == files.optimizationRuns
    ensures r.Ok? ==> r.value.contractLibraries == files.contractLibraries
    ensures files.evmVersion == "default" ==> r.Ok? && r.value.evmVersion.None?
    ensures files.evmVersion != "default" ==>
              match parsers.evmVersion(files.evmVersion)
              case Ok(version) => r.Ok? && r.value.evmVersion == Some(version)
              case Err(failure) => r == Err(failure.display)
  {
    var evmVersion :-
      if files.evmVersion != "default" then
        match parsers.evmVersion(files.evmVersion)
        case Ok(version) => Ok(Some(version))
        case Err(failure) => Err(failure.display)
      else Ok(None);
    Ok(MultiPart.MultiFileContent(files.sources, evmVersion, files.optimizationRuns, files.contractLibraries))
  }

  /** The creation bytecode, when given, must parse. */
  predicate BadCreationBytecode(params: VerificationRequest, parsers: Parsers) {
    params.creationBytecode.Some? && parsers.bytes(params.creationBytecode.value).Err?
  }

  /** Converts the request, checking the creation bytecode, then the compiler version, then
      the content; the first failure is the reply's message. */
  function ToRequest(params: VerificationRequest, parsers: Parsers): (r: Result<MultiPart.VerificationRequest, string>)
    ensures r.Ok? ==> r.value.contractAddress == params.contractAddress
    ensures r.Ok? ==> (r.value.creationBytecode.None? <==> params.creationBytecode.None?)
    ensures r.Ok? && params.creationBytecode.Some? ==>
              parsers.bytes(params.creationBytecode.value) == Ok(r.value.creationBytecode.value)
    ensures r.Ok? ==> parsers.version(params.compilerVersion) == Ok(r.value.compilerVersion)
    ensures r.Ok? ==> ToMultiFileContent(params.content, parsers) == Ok(r.value.content)
    ensures BadCreationBytecode(params, parsers) ==>
              r == Err("Invalid creation bytecode: " + parsers.bytes(params.creationBytecode.value).error.debug)
    ensures !BadCreationBytecode(params, parsers) && parsers.version(params.compilerVersion).Err? ==>
              r == Err("Invalid compiler version: " + parsers.version(params.compilerVersion).error.display)
    ensures !BadCreationBytecode(params, parsers) && parsers.version(params.compilerVersion).Ok?
            && ToMultiFileContent(params.content, parsers).Err? ==>
              r == Err(ToMultiFileContent(params.content, parsers).error)
    ensures r.Err? <==>
              BadCreationBytecode(params, parsers) || parsers.version(params.compilerVersion).Err?
              || ToMultiFileContent(params.content, parsers).Err?
  {
    var creationBytecode :-
      match params.creationBytecode
      case None => Ok(None)
      case Some(text) =>
        match parsers.bytes(text)
        case Ok(bytes) => Ok(Some(bytes))
        case Err(failure) => Err("Invalid creation bytecode: " + failure.debug);
    var compilerVersion :-
      match parsers.version(params.compilerVersion)
      case Ok(version) => Ok(version)
      case Err(failure) => Err("Invalid compiler version: " + failure.display);
    var content :- ToMultiFileContent(params.content, parsers);
    Ok(MultiPart.VerificationRequest(params.contractAddress, creationBytecode, compilerVersion, content))
  }

  /** The handler, given the bytecode deployed at the request's address. A request that does not
      convert is a 400 and reaches neither the verifier nor the middleware; otherwise the result
      of the search is answered as `Respond` says. */
  method Verify(client: Client, params: VerificationRequest, parsers: Parsers, deployedBytecode: Bytes)
    returns (reply: Reply, record: Option<ContractRecord>)
    modifies client.middleware
    ensures match ToRequest(params, parsers)
            case Err(message) =>
              && reply == HttpError(BadRequest, Message(message)) && record.None?
              && (client.middleware != null ==> client.middleware.received == old(client.middleware.received))
            case Ok(request) =>
              var result := MultiPart.VerifyOutcome(client, request, deployedBytecode);
              && (reply, record) == Respond(request.contractAddress, result)
              && (client.middleware != null ==>
                    client.middleware.received == old(client.middleware.received) + (if result.Ok? then [result.value] else []))
  {
    var converted := ToRequest(params, parsers);
    if converted.Err? {
      return HttpError(BadRequest, Message(converted.error)), None;
    }
    var result, _ := MultiPart.Verify(client, converted.value, deployedBytecode);
    var response := Respond(converted.value.contractAddress, result);
    reply, record := response.0, response.1;
  }

  /** `"default"` gives no EVM version whatever the parser would have said. */
  lemma DefaultEvmVersion(parsers: Parsers)
    ensures ToMultiFileContent(MultiPartFiles(map[], "default", None, None), parsers)
            == Ok(MultiPart.MultiFileContent(map[], None, None, None))
  {
  }
}
