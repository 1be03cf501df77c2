# Multi-part Solidity verification: candidate search and HTTP handling

This project models, in Dafny, how the smart-contract verifier decides which compiler inputs to
try for one verification request and how each attempt steers the search. It also models how the
HTTP handlers turn requests and results into replies.

- **Candidate builder** (`MultiPart.BuildSettings`, `MultiPart.ToCompilerInputs`). One `Settings`
  value is built from a `MultiFileContent`:
  - the optimizer is enabled exactly when a run count is given, and the runs are copied;
  - the EVM version is copied;
  - the library map is attached to every source file, because the file that declares each
    library is unknown.
  The sources are then split by extension into a Solidity input and a Yul input, Solidity first,
  and an empty partition emits no input. Every input gets the same settings.
- **Metadata variants** (`MultiPart.SettingsMetadataVariants`). A compiler below 0.6.0 gets the
  single variant "metadata unset". Any other compiler gets the `bytecodeHash` options Ipfs, None
  and Bzzr1, in that order. Versions are compared as semver compares them against `<0.6.0`, so a
  pre-release such as a 0.5.x nightly does not match and gets the three variants.
- **Search** (`MultiPart.Search`, `MultiPart.Verify`). A nested loop runs over inputs and then
  variants. It sets the input's metadata in place and calls the verifier.
  - `NoMatchingContracts` moves to the next attempt.
  - Any other error is returned at once.
  - A match is handed to the middleware, if there is one, and returned.
  - When every attempt reports no match, the result is `NoMatchingContracts`.
  The method is proved against `Attempts` (every attempt in nested order) and `SearchOutcome` /
  `CallCount` (the outcome and the number of calls). Lemmas about those functions state
  short-circuiting, exhaustion and the nested order.
- **HTTP handlers** (`Http`, `MultiPartHandler`, `StandardJsonHandler`).
  - Requests are converted: the creation bytecode is checked first, then the compiler version,
    then the content. `"default"` as the EVM version means none.
  - Verification errors are classified as an ordinary response carrying the error, a 400, or a 500.
  - A verified contract is recorded under its lower-cased address.
  - In the standard-JSON handler, content that does not deserialize is a 400. Any other
    conversion failure is an ordinary response carrying its message, and verification is not
    reached.

The external collaborators are parameters:
- the compiler-and-matcher: `ContractVerifier.verify(n, input)` is the reply to the n-th call;
- `ContractVerifier::new`: `Client.newVerifier`;
- the foreign parsers: `Solc.Parsers`;
- the standard-JSON verification routine: the `verify` argument of `StandardJsonHandler.Verify`;
- the bytecode deployed at the contract's address: the `deployedBytecode` argument.

## Model

| member | source | states |
|---|---|---|
| `Solc.MetadataFromHash` | smart-contract-verifier/src/solidity/multi_part.rs:138 | `SettingsMetadata::from(hash)` sets the bytecode hash to `hash` and leaves `useLiteralContent` unset. |
| `Solc.IsYulPath` | smart-contract-verifier/src/solidity/multi_part.rs:57 | The language test of `CompilerInput::with_sources`, by definition: a path is Yul when its file name has extension `yul`. The file name is the last '/'-separated component, ignoring trailing separators, and the extension needs a non-empty stem. |
| `Solc.YulFileName` | smart-contract-verifier/src/solidity/multi_part.rs:57 | A bare file name is Yul iff it ends in `.yul` after at least one other character. |
| `Solc.YulPathIgnoresDirectory` | smart-contract-verifier/src/solidity/multi_part.rs:57 | Prefixing a file name with any directory does not change its language. |
| `Solc.WithSources` | smart-contract-verifier/src/solidity/multi_part.rs:57 | `CompilerInput::with_sources`: at most two (language, sources) pairs, each a non-empty partition of the files by language, the Solidity pair before the Yul pair. |
| `MultiPart.BuildSettings` | smart-contract-verifier/src/solidity/multi_part.rs:37-50 | The optimizer is enabled iff a run count is given, and the runs are copied verbatim. The EVM version is copied. Metadata is unset and the output selection is the default. Without a library map the library table is empty; with map `m` it has exactly one entry per source path, each being all of `m`. |
| `MultiPart.ToCompilerInputs` | smart-contract-verifier/src/solidity/multi_part.rs:35-63 | At most two inputs, none of them empty, all carrying the settings of `BuildSettings`. |
| `MultiPart.CandidatesHoldOwnFiles` | smart-contract-verifier/src/solidity/multi_part.rs:52-60 | Every file of every input is a request file in that input's language, with its text unchanged. |
| `MultiPart.CandidatesOrdered` | smart-contract-verifier/src/solidity/multi_part.rs:57 | When there are two inputs, the Solidity input comes first and the Yul input second. |
| `MultiPart.CandidatesCoverSources` | smart-contract-verifier/src/solidity/multi_part.rs:52-60 | The union of the inputs' sources is exactly the request's sources: no file is lost. |
| `MultiPart.CandidatesDisjoint` | smart-contract-verifier/src/solidity/multi_part.rs:52-60 | No two inputs share a source path: no file is compiled twice. |
| `MultiPart.CandidateForEachLanguage` | smart-contract-verifier/src/solidity/multi_part.rs:57-60 | There is an input of a given language iff some source file is in that language. A bundle of both dialects therefore yields exactly two inputs. |
| `MultiPart.YulAndSolidityToInputs` | smart-contract-verifier/src/solidity/multi_part.rs:192-203 | The source's test: `source.sol` and `source2.yul` give a Solidity input and then a Yul input, with identical settings and an empty library table. |
| `MultiPart.MultiPartToInput` | smart-contract-verifier/src/solidity/multi_part.rs:170-181 | The source's test, first case: one file with library map `{some_library: some_address}` gives one Solidity input. Its library table maps `source.sol` to that map, and the optimizer is on at 200 runs. |
| `MultiPart.MultiPartToInputWithoutOptions` | smart-contract-verifier/src/solidity/multi_part.rs:182-189 | The same test, second case: one file with neither a run count nor a library map gives one Solidity input. Its optimizer is disabled with no runs, and its library table is empty. |
| `MultiPart.SettingsMetadataVariants` | smart-contract-verifier/src/solidity/multi_part.rs:126-141 | The list is never empty. Below 0.6.0 (release versions only) it is exactly `[None]`. Otherwise it is three variants that set only `bytecodeHash`, to Ipfs, None and Bzzr1 in that order. |
| `MultiPart.VariantsDistinctAndComplete` | smart-contract-verifier/src/solidity/multi_part.rs:127-140 | From 0.6.0 on, the variants are pairwise distinct and every bytecode hash is tried. |
| `MultiPart.AttemptsLength` | smart-contract-verifier/src/solidity/multi_part.rs:95-96 | The search has exactly inputs × variants attempts. |
| `MultiPart.AttemptAt` | smart-contract-verifier/src/solidity/multi_part.rs:95-98 | Attempt `i·|variants| + j` is input `i` with its metadata set to variant `j`: inputs outermost, variants innermost. |
| `MultiPart.FirstDecisive` | smart-contract-verifier/src/solidity/multi_part.rs:99-107 | The index found is the first attempt whose reply is not `NoMatchingContracts`; every earlier reply is. |
| `MultiPart.SearchStopsAtFirstDecisive` | smart-contract-verifier/src/solidity/multi_part.rs:101-111 | When attempt `k` is the first reply other than `NoMatchingContracts`, the search returns that reply unchanged after exactly `k + 1` calls. This holds for a match and for any other error. |
| `MultiPart.SearchExhausted` | smart-contract-verifier/src/solidity/multi_part.rs:101-116 | The search returns `NoMatchingContracts` iff every attempt did, and then it made every attempt. |
| `MultiPart.DecisiveOutcomeIsLastReply` | smart-contract-verifier/src/solidity/multi_part.rs:105-111 | Any outcome other than `NoMatchingContracts` is the unchanged reply to the last call made. |
| `MultiPart.MatchOnThirdAttempt` | smart-contract-verifier/src/solidity/multi_part.rs:95-111 | For any non-empty input list and a version from 0.6.0 on, a verifier answering no-match, no-match, then a match is called exactly three times, and the match is the result. With more than one input, fewer calls are made than there are attempts: the search stops at the match. |
| `MultiPart.CompilationErrorStopsSearch` | smart-contract-verifier/src/solidity/multi_part.rs:101-107 | A compilation error on the first attempt is returned after one call, even when later attempts would have matched. |
| `MultiPart.TryVariants` | smart-contract-verifier/src/solidity/multi_part.rs:96-112 | The inner loop sets the input's metadata to each variant in turn and numbers the calls on from the attempts already made. With no decisive reply, it has made exactly one call per variant (the input's row of attempts), all `NoMatchingContracts`. Otherwise it stops right after the first other reply and returns that reply. It has then made between one call and one per variant: a prefix of the row whose earlier replies were all `NoMatchingContracts`. |
| `MultiPart.Search` | smart-contract-verifier/src/solidity/multi_part.rs:94-116 | The nested loop returns `SearchOutcome` over `Attempts(inputs, variants)`. The inputs passed to the verifier are exactly the first `CallCount` attempts, in order. |
| `MultiPart.Verify` | smart-contract-verifier/src/solidity/multi_part.rs:83-116 | A failure of `ContractVerifier::new` is returned before any attempt. Otherwise the result is the search's outcome. The middleware, if present, receives the success exactly once on a match and is not called otherwise. |
| `Verifier.Middleware.Call` | smart-contract-verifier/src/solidity/multi_part.rs:108-110 | The middleware's log gains exactly the success it was called with. |
| `Http.ClassifyError` | smart-contract-verifier-http/src/handlers/solidity_multi_part.rs:62-71 | `Compilation`, `NoMatchingContracts` and `CompilerVersionMismatch` give an ordinary response. `Initialization` and `VersionNotFound` give a 400. `Internal` gives a 500. Each holds in both directions, and the error is carried unchanged. |
| `Http.Respond` | smart-contract-verifier-http/src/handlers/solidity_multi_part.rs:37-71 | A match gives an ordinary response with the match and a record under the lower-cased address. An error is classified and records nothing. |
| `Http.RespondClasses` | smart-contract-verifier-http/src/handlers/solidity_multi_part.rs:37-71 | Every result falls in exactly one of four classes: matched, ordinary response with error, client error, server error. Only a match is recorded. |
| `Http.ToLower` | smart-contract-verifier-http/src/handlers/solidity_multi_part.rs:51 | The result has the same length, and each character is the ASCII lower case of the input's. |
| `Http.ToLowerIsLower` | smart-contract-verifier-http/src/handlers/solidity_multi_part.rs:51 | The recorded address has no upper-case ASCII letter, and lower-casing it again changes nothing. |
| `Http.ToLowerIgnoresCase` | smart-contract-verifier-http/src/handlers/solidity_multi_part.rs:51 | Two spellings of an address that differ only in letter case are recorded identically. |
| `MultiPartHandler.ToMultiFileContent` | smart-contract-verifier-http/src/handlers/solidity_multi_part.rs:101-124 | Sources, optimization runs and libraries are carried over unchanged. `"default"` gives no EVM version whatever the parser says. Any other string is parsed, and a parse failure is an error with its message. |
| `MultiPartHandler.ToRequest` | smart-contract-verifier-http/src/handlers/solidity_multi_part.rs:74-99 | The address is unchanged, and an absent creation bytecode stays absent. Bytecode, version and content are parsed. The order of checks, with their messages, is bad bytecode, then bad version, then bad content. For bad content the message is the one from `ToMultiFileContent`, i.e. the EVM-version parser's text. It fails iff one of them fails. |
| `MultiPartHandler.Verify` | smart-contract-verifier-http/src/handlers/solidity_multi_part.rs:27-72 | An unconvertible request is a 400 carrying the conversion message: nothing is recorded and the middleware is not called. Otherwise the reply and record are `Respond` applied to the search's outcome. |
| `MultiPartHandler.DefaultEvmVersion` | smart-contract-verifier-http/src/handlers/solidity_multi_part.rs:204-219 | The source's test: `"default"` gives `None` for any EVM-version parser. |
| `StandardJsonHandler.Display` | smart-contract-verifier-http/src/handlers/solidity_standard_json.rs:76-82 | The `ParseError` messages: invalid content reads "content is not valid standard json: " followed by the deserializer's message; a bad request shows its message unchanged. |
| `StandardJsonHandler.ToContent` | smart-contract-verifier-http/src/handlers/solidity_standard_json.rs:113-121 | Conversion succeeds iff the content deserializes as a compiler input. A failure is `InvalidContent`. |
| `StandardJsonHandler.ToRequest` | smart-contract-verifier-http/src/handlers/solidity_standard_json.rs:89-111 | The address is unchanged, and an absent creation bytecode stays absent. A bad bytecode or version is `BadRequest` with its message, in that order. The error is `InvalidContent` iff both are fine and the content does not deserialize, and it then carries the deserializer's error from `ToContent`. |
| `StandardJsonHandler.Verify` | smart-contract-verifier-http/src/handlers/solidity_standard_json.rs:21-74 | `InvalidContent` is a 400. `BadRequest` is an ordinary response carrying its message. Neither records anything. A converted request is answered by `Respond` on the verifier's result. |
| `StandardJsonHandler.ParseFailureSkipsVerification` | smart-contract-verifier-http/src/handlers/solidity_standard_json.rs:26-35 | When conversion fails, the reply does not depend on the verifier, so verification is never reached. |
| `StandardJsonHandler.VerificationErrorClassification` | smart-contract-verifier-http/src/handlers/solidity_standard_json.rs:64-73 | A verification error is classified as in `Http.ClassifyError` and records nothing. |

## Left out

- Fetching the deployed bytecode (`get_Code`) is left out. That covers the RPC call to a fixed endpoint, the hex decoding and their `.expect` aborts. The bytecode is a parameter of `MultiPart.Verify`. The program aborts when the address has no code or the call fails; it does not return an error. So there is no resolver and no "no deployed code" or "resolver unavailable" error to model.
- Compiling and matching are left out. `ContractVerifier::new` and `ContractVerifier::verify` are external and appear as the functions `Client.newVerifier` and `ContractVerifier.verify`.
- `solidity::standard_json::verify` is not part of this model. Its search is unknown, and the handler receives it as a parameter.
- The foreign parsers are abstract partial functions (`Solc.Parsers`): `DisplayBytes::from_str`, `Version::from_str`, `EvmVersion::from_str` and `serde_json::from_str`. A failure carries its `Display` and `Debug` texts.
- The JSON wire shape of `CompilerInput` and the settings fields nobody sets (remappings and the like) are not modelled. The output selection is kept as a structure.
- The database write, metrics, tracing, `println!` and the actix envelope are I/O and are left out. The record the handlers would write is returned as a value.
- Async execution is not modelled. The middleware's internals are reduced to a log of the values it received.
- The compiler version is reduced to its semver part. Its build metadata is kept but never compared.
- `Verifier.VerificationError` payloads are reduced to text.
- `MultiPart.Search`: the middleware call that the source makes inside the loop, just before returning, is made by `MultiPart.Verify` right after `Search` returns a match. No other step happens between the two.
- `CompilerInput::with_sources` comes from a compiler-bindings dependency that is not part of this model. `Solc.WithSources` and `Solc.IsYulPath` model its documented split by file extension, which uses the standard library's `Path::extension`.
- `Solc.IsYulPath` follows `Path::extension` on '/'-separated paths and ignores trailing separators. It does not normalise `.` components or Windows separators.
- `Http.ToLower` lower-cases ASCII letters only; Rust's `to_lowercase` also maps non-ASCII letters.
- `MultiPart.MultiFileContent.optimizationRuns` is an unbounded natural; `usize` has a bound, but nothing here does arithmetic on it.
