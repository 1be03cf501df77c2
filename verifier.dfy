/** The external collaborators of the search: the closed error taxonomy, the compiler-and-matcher
    (`ContractVerifier`), and the client that creates it and holds the optional middleware. */
module Verifier {
  import opened Wrappers
  import opened Solc

  /** The verifier's errors; their payloads are kept as text. */
  datatype VerificationError =
    | Compilation(messages: seq<string>)
    | NoMatchingContracts
    | CompilerVersionMismatch(message: string)
    | Initialization(message: string)
    | VersionNotFound(message: string)
    | Internal(message: string)

  /** What the matcher reports for a matched contract. Its remaining fields (ABI, constructor
      arguments) are produced by the matcher and never read by the search. */
  datatype Success = Success(filePath: string, contractName: string)

  type VerifyResult = Result<Success, VerificationError>

  /** The one outcome that lets the search go on: compiled, but nothing matched. */
  predicate Continues(r: VerifyResult) {
    r.Err? && r.error.NoMatchingContracts?
  }

  /** A verifier bound to one compiler version, creation bytecode and deployed bytecode.
      `verify(n, input)` is what its `verify` returns on its n-th call (counting from 0) with
      `input`: a matcher that only looks at the input and a scripted sequence of replies are
      both instances. */
  datatype ContractVerifier = ContractVerifier(verify: (nat, CompilerInput) -> VerifyResult)

  /** A middleware that observes verified contracts; `received` logs each call's argument. */
  class Middleware {
    var received: seq<Success>

    method Call(success: Success)
      modifies this
      ensures received == old(received) + [success]
    {
      received := received + [success];
    }
  }

  /** The client: `newVerifier` stands for `ContractVerifier::new` over its compiler catalog
      (creating the verifier may fail), `middleware` for `client.middleware()`. */
  datatype Client = Client(
    newVerifier: (Version, Option<Bytes>, Bytes) -> Result<ContractVerifier, VerificationError>,
    middleware: Middleware?)
}
