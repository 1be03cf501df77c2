/** Multi-part verification: the candidate builder that turns loose source files into compiler
    inputs, the generator of `bytecodeHash` variants, and the search that tries every
    (input, variant) pair against the deployed bytecode until one is decisive. */
module MultiPart {
  import opened Wrappers
  import opened Solc
  import opened Verifier

  datatype MultiFileContent = MultiFileContent(
    sources: map<Path, string>,
    evmVersion: Option<EvmVersion>,
    optimizationRuns: Option<nat>,
    contractLibraries: Option<map<string, string>>)

  datatype VerificationRequest = VerificationRequest(
    contractAddress: string,
    creationBytecode: Option<Bytes>,
    compilerVersion: Version,
    content: MultiFileContent)

  // ---------------------------------------------------------------------------------------------
  // Candidate builder

  /** The settings shared by every input built from `content`. The library map names no owning
      file, so every source file is assumed to declare every library. */
  function BuildSettings(content: MultiFileContent): (s: Settings)
    ensures s.optimizer.enabled == Some(content.optimizationRuns.Some?)
    ensures s.optimizer.runs == content.optimizationRuns
    ensures s.evmVersion == content.evmVersion
    ensures s.metadata.None? && s.outputSelection == DefaultOutputSelection
    ensures content.contractLibraries.None? ==> s.libraries == map[]
    ensures content.contractLibraries.Some? ==>
              s.libraries.Keys == content.sources.Keys
              && forall p :: p in s.libraries ==> s.libraries[p] == content.contractLibraries.value
  {
    var libraries :=
      match content.contractLibraries
      case None => map[]
      case Some(libs) => map p | p in content.sources :: libs;
    Settings(
      optimizer := Optimizer(Some(content.optimizationRuns.Some?), content.optimizationRuns),
      outputSelection := DefaultOutputSelection,
      evmVersion := content.evmVersion,
      libraries := libraries,
      metadata := None)
  }

  /** The compiler inputs for `content`: one per language present, Solidity before Yul, each
      holding only its own files with their text unchanged and all of them the same settings. */
  function ToCompilerInputs(content: MultiFileContent): (r: seq<CompilerInput>)
    ensures |r| <= 2
    ensures forall k :: 0 <= k < |r| ==> r[k].settings == BuildSettings(content)
    ensures forall k :: 0 <= k < |r| ==> r[k].sources != map[]
  {
    var settings := BuildSettings(content);
    var split := WithSources(content.sources);
    seq(|split|, k requires 0 <= k < |split| => CompilerInput(split[k].0, split[k].1, settings))
  }

  /** Each input holds only files of its own language, with their text unchanged. */
  lemma CandidatesHoldOwnFiles(content: MultiFileContent)
    ensures var r := ToCompilerInputs(content);
            forall k, p :: 0 <= k < |r| && p in r[k].sources ==>
              p in content.sources && r[k].sources[p] == content.sources[p] && LanguageOf(p) == r[k].language
  {
  }

  /** The Solidity input, if any, comes before the Yul input. */
  lemma CandidatesOrdered(content: MultiFileContent)
    ensures var r := ToCompilerInputs(content);
            forall k, k' :: 0 <= k < k' < |r| ==> r[k].language == Solidity && r[k'].language == Yul
  {
  }

  /** The union of the inputs' source maps. */
  function MergeSources(inputs: seq<CompilerInput>): map<Path, string> {
    if inputs == [] then map[] else inputs[0].sources + MergeSources(inputs[1..])
  }

  /** The inputs built from `content`, spelled out. */
  lemma ToCompilerInputsShape(content: MultiFileContent)
    ensures var solidity, yul := Partition(content.sources, Solidity), Partition(content.sources, Yul);
            ToCompilerInputs(content)
            == (if solidity != map[] then [CompilerInput(Solidity, solidity, BuildSettings(content))] else [])
               + (if yul != map[] then [CompilerInput(Yul, yul, BuildSettings(content))] else [])
  {
  }

  lemma UnionAssociative(x: map<Path, string>, y: map<Path, string>, z: map<Path, string>)
    ensures x + (y + z) == (x + y) + z
  {
  }

  lemma {:induction false} MergeSourcesAppend(a: seq<CompilerInput>, b: seq<CompilerInput>)
    ensures MergeSources(a + b) == MergeSources(a) + MergeSources(b)
  {
    if a != [] {
      assert (a + b)[0] == a[0];
      assert (a + b)[1..] == a[1..] + b;
      MergeSourcesAppend(a[1..], b);
      UnionAssociative(a[0].sources, MergeSources(a[1..]), MergeSources(b));
    } else {
      assert a + b == b;
    }
  }

  /** The sources of the input emitted for one partition, if any: the partition itself. */
  lemma MergePartition(sources: map<Path, string>, settings: Settings, language: Language)
    ensures var part := Partition(sources, language);
            MergeSources(if part != map[] then [CompilerInput(language, part, settings)] else []) == part
  {
    var part := Partition(sources, language);
    if part != map[] {
      assert MergeSources([CompilerInput(language, part, settings)]) == part + MergeSources([]);
    }
  }

  /** No file is lost by the split: together the inputs hold exactly the request's sources. */
  lemma CandidatesCoverSources(content: MultiFileContent)
    ensures MergeSources(ToCompilerInputs(content)) == content.sources
  {
    var s := content.sources;
    var settings := BuildSettings(content);
    var solidity, yul := Partition(s, Solidity), Partition(s, Yul);
    PartitionsCover(s);
    ToCompilerInputsShape(content);
    MergePartition(s, settings, Solidity);
    MergePartition(s, settings, Yul);
    MergeSourcesAppend(
      if solidity != map[] then [CompilerInput(Solidity, solidity, settings)] else [],
      if yul != map[] then [CompilerInput(Yul, yul, settings)] else []);
  }

  /** No file is duplicated by the split: no two inputs share a source path. */
  lemma CandidatesDisjoint(content: MultiFileContent)
    ensures var r := ToCompilerInputs(content);
            forall k, k' :: 0 <= k < k' < |r| ==> r[k].sources.Keys !! r[k'].sources.Keys
  {
    PartitionsCover(content.sources);
    ToCompilerInputsShape(content);
  }

  /** Every input holds some file of its own language. */
  lemma FileForInput(content: MultiFileContent, k: nat)
    requires k < |ToCompilerInputs(content)|
    ensures exists p :: p in content.sources && LanguageOf(p) == ToCompilerInputs(content)[k].language
  {
    var input := ToCompilerInputs(content)[k];
    CandidatesHoldOwnFiles(content);
    var p :| p in input.sources;
    assert p in content.sources && LanguageOf(p) == input.language;
  }

  /** Every file has an input of its language. */
  lemma InputForFile(content: MultiFileContent, p: Path)
    requires p in content.sources
    ensures exists k :: 0 <= k < |ToCompilerInputs(content)| && ToCompilerInputs(content)[k].language == LanguageOf(p)
  {
    var r := ToCompilerInputs(content);
    var settings := BuildSettings(content);
    var solidity, yul := Partition(content.sources, Solidity), Partition(content.sources, Yul);
    ToCompilerInputsShape(content);
    if LanguageOf(p) == Solidity {
      assert p in solidity;
      assert r[0] == CompilerInput(Solidity, solidity, settings);
    } else {
      assert p in yul;
      assert r[|r| - 1] == CompilerInput(Yul, yul, settings);
    }
  }

  /** There is an input for a language exactly when some source file is in that language. */
  lemma CandidateForEachLanguage(content: MultiFileContent, language: Language)
    ensures (exists k :: 0 <= k < |ToCompilerInputs(content)| && ToCompilerInputs(content)[k].language == language)
        <==> (exists p :: p in content.sources && LanguageOf(p) == language)
  {
    var r := ToCompilerInputs(content);
    if exists k :: 0 <= k < |r| && r[k].language == language {
      var k :| 0 <= k < |r| && r[k].language == language;
      FileForInput(content, k);
    }
    if exists p :: p in content.sources && LanguageOf(p) == language {
      var p :| p in content.sources && LanguageOf(p) == language;
      InputForFile(content, p);
    }
  }

  // ---------------------------------------------------------------------------------------------
  // Metadata variants

  /** Lexicographic `v < major.minor.patch` on the numeric parts. */
  predicate NumericallyBelow(v: Version, major: nat, minor: nat, patch: nat) {
    v.major < major
    || (v.major == major && (v.minor < minor || (v.minor == minor && v.patch < patch)))
  }

  /** The requirement `<0.6.0`. A pre-release version only satisfies a requirement one of whose
      comparators names the same major.minor.patch with a pre-release of its own; `<0.6.0` has
      none, so no pre-release version satisfies it. */
  predicate BelowMetadataHashSupport(v: Version) {
    v.pre == [] && NumericallyBelow(v, 0, 6, 0)
  }

  /** The bytecode hashes, most frequently used first. */
  const BytecodeHashes: seq<BytecodeHash> := [Ipfs, NoHash, Bzzr1]

  /** The `settings.metadata` values to try for a compiler version: compilers below 0.6.0 have no
      `bytecodeHash` setting, so the only variant leaves metadata unset; later compilers get one
      variant per hash, in the order Ipfs, None, Bzzr1, each setting the hash and nothing else. */
  function SettingsMetadataVariants(v: Version): (r: seq<Option<SettingsMetadata>>)
    ensures |r| > 0
    ensures BelowMetadataHashSupport(v) ==> r == [None]
    ensures !BelowMetadataHashSupport(v) ==>
              && |r| == 3
              && r[0] == Some(SettingsMetadata(None, Some(Ipfs)))
              && r[1] == Some(SettingsMetadata(None, Some(NoHash)))
              && r[2] == Some(SettingsMetadata(None, Some(Bzzr1)))
  {
    if BelowMetadataHashSupport(v) then [None]
    else seq(|BytecodeHashes|, i requires 0 <= i < |BytecodeHashes| => Some(MetadataFromHash(BytecodeHashes[i])))
  }

  /** From 0.6.0 on (and for every pre-release), the variants are pairwise distinct and every
      bytecode hash is tried. */
  lemma {:induction false} VariantsDistinctAndComplete(v: Version, hash: BytecodeHash)
    requires !BelowMetadataHashSupport(v)
    ensures var r := SettingsMetadataVariants(v);
            && (forall i, j :: 0 <= i < j < |r| ==> r[i] != r[j])
            && exists i :: 0 <= i < |r| && r[i] == Some(MetadataFromHash(hash))
  {
    var r := SettingsMetadataVariants(v);
    match hash
    case Ipfs => assert r[0] == Some(MetadataFromHash(hash));
    case NoHash => assert r[1] == Some(MetadataFromHash(hash));
    case Bzzr1 => assert r[2] == Some(MetadataFromHash(hash));
  }

  // ---------------------------------------------------------------------------------------------
  // The search, as a specification

  /** `input` with its metadata slot set to `metadata`. */
  function WithMetadata(input: CompilerInput, metadata: Option<SettingsMetadata>): CompilerInput {
    input.(settings := input.settings.(metadata := metadata))
  }

  /** One input tried with each variant in turn. */
  function Row(input: CompilerInput, variants: seq<Option<SettingsMetadata>>): seq<CompilerInput> {
    seq(|variants|, j requires 0 <= j < |variants| => WithMetadata(input, variants[j]))
  }

  /** Every attempt of the search, in order: inputs outermost, variants innermost. */
  function Attempts(inputs: seq<CompilerInput>, variants: seq<Option<SettingsMetadata>>): seq<CompilerInput>
    decreases |inputs|
  {
    if inputs == [] then []
    else Attempts(inputs[..|inputs| - 1], variants) + Row(inputs[|inputs| - 1], variants)
  }

  lemma {:induction false} AttemptsLength(inputs: seq<CompilerInput>, variants: seq<Option<SettingsMetadata>>)
    ensures |Attempts(inputs, variants)| == |inputs| * |variants|
    decreases |inputs|
  {
    if inputs != [] {
      var n, v := |inputs| - 1, |variants|;
      AttemptsLength(inputs[..n], variants);
      assert |Row(inputs[n], variants)| == v;
      assert n * v + v == (n + 1) * v;
    }
  }

  /** The attempts for the first `m` inputs are where the search starts. */
  lemma {:induction false} AttemptsPrefix(inputs: seq<CompilerInput>, variants: seq<Option<SettingsMetadata>>, m: nat)
    requires m <= |inputs|
    ensures Attempts(inputs[..m], variants) <= Attempts(inputs, variants)
    decreases |inputs|
  {
    if m < |inputs| {
      var init := inputs[..|inputs| - 1];
      AttemptsPrefix(init, variants, m);
      assert init[..m] == inputs[..m];
    } else {
      assert inputs[..m] == inputs;
    }
  }

  /** Attempt number i * |variants| + j is input i with its metadata set to variant j. */
  lemma AttemptAt(inputs: seq<CompilerInput>, variants: seq<Option<SettingsMetadata>>, i: nat, j: nat)
    requires i < |inputs| && j < |variants|
    ensures i * |variants| + j < |Attempts(inputs, variants)|
    ensures Attempts(inputs, variants)[i * |variants| + j] == WithMetadata(inputs[i], variants[j])
  {
    AttemptsPrefix(inputs, variants, i + 1);
    var upTo := inputs[..i + 1];
    assert upTo[..i] == inputs[..i];
    AttemptsLength(inputs[..i], variants);
    assert Attempts(upTo, variants) == Attempts(inputs[..i], variants) + Row(inputs[i], variants);
  }

  /** The index of the first decisive attempt at or after `from`, or `|attempts|` if none is. */
  function FirstDecisive(verifier: ContractVerifier, attempts: seq<CompilerInput>, from: nat): (k: nat)
    requires from <= |attempts|
    ensures from <= k <= |attempts|
    ensures forall t :: from <= t < k ==> Continues(verifier.verify(t, attempts[t]))
    ensures k < |attempts| ==> !Continues(verifier.verify(k, attempts[k]))
    decreases |attempts| - from
  {
    if from == |attempts| || !Continues(verifier.verify(from, attempts[from])) then from
    else FirstDecisive(verifier, attempts, from + 1)
  }

  /** The result of the search over `attempts`. */
  function SearchOutcome(verifier: ContractVerifier, attempts: seq<CompilerInput>): VerifyResult {
    var k := FirstDecisive(verifier, attempts, 0);
    if k < |attempts| then verifier.verify(k, attempts[k]) else Err(NoMatchingContracts)
  }

  /** How many times the search calls the verifier. */
  function CallCount(verifier: ContractVerifier, attempts: seq<CompilerInput>): nat {
    var k := FirstDecisive(verifier, attempts, 0);
    if k < |attempts| then k + 1 else k
  }

  lemma {:induction false} FirstDecisiveIs(verifier: ContractVerifier, attempts: seq<CompilerInput>, from: nat, k: nat)
    requires from <= k <= |attempts|
    requires forall t :: from <= t < k ==> Continues(verifier.verify(t, attempts[t]))
    requires k < |attempts| ==> !Continues(verifier.verify(k, attempts[k]))
    ensures FirstDecisive(verifier, attempts, from) == k
    decreases k - from
  {
    if from < k {
      FirstDecisiveIs(verifier, attempts, from + 1, k);
    }
  }

  /** Short-circuit: when attempt k is the first that is not `NoMatchingContracts`, the search
      returns its result unchanged after exactly k + 1 calls. */
  lemma SearchStopsAtFirstDecisive(verifier: ContractVerifier, attempts: seq<CompilerInput>, k: nat)
    requires k < |attempts|
    requires forall t :: 0 <= t < k ==> Continues(verifier.verify(t, attempts[t]))
    requires !Continues(verifier.verify(k, attempts[k]))
    ensures SearchOutcome(verifier, attempts) == verifier.verify(k, attempts[k])
    ensures CallCount(verifier, attempts) == k + 1
  {
    FirstDecisiveIs(verifier, attempts, 0, k);
  }

  /** Exhaustion: the search reports `NoMatchingContracts` exactly when every attempt did, and
      then it has made every attempt. */
  lemma SearchExhausted(verifier: ContractVerifier, attempts: seq<CompilerInput>)
    ensures Continues(SearchOutcome(verifier, attempts))
        <==> forall t :: 0 <= t < |attempts| ==> Continues(verifier.verify(t, attempts[t]))
    ensures Continues(SearchOutcome(verifier, attempts)) ==> CallCount(verifier, attempts) == |attempts|
  {
    if forall t :: 0 <= t < |attempts| ==> Continues(verifier.verify(t, attempts[t])) {
      FirstDecisiveIs(verifier, attempts, 0, |attempts|);
    }
  }

  /** Every outcome other than `NoMatchingContracts` is the unchanged reply to the last call made. */
  lemma DecisiveOutcomeIsLastReply(verifier: ContractVerifier, attempts: seq<CompilerInput>)
    requires !Continues(SearchOutcome(verifier, attempts))
    ensures 0 < CallCount(verifier, attempts) <= |attempts|
    ensures var n := CallCount(verifier, attempts);
            SearchOutcome(verifier, attempts) == verifier.verify(n - 1, attempts[n - 1])
  {
  }

  // ---------------------------------------------------------------------------------------------
  // The search, as the program runs it

  /** The attempts made while trying input i with its first j variants are where the whole
      search starts. */
  lemma {:induction false} PartialRowIsPrefix(inputs: seq<CompilerInput>, variants: seq<Option<SettingsMetadata>>, i: nat, j: nat)
    requires i < |inputs| && j <= |variants|
    ensures Attempts(inputs[..i], variants) + Row(inputs[i], variants)[..j] <= Attempts(inputs, variants)
  {
    AttemptsPrefix(inputs, variants, i + 1);
    assert inputs[..i + 1][..i] == inputs[..i];
    assert Attempts(inputs[..i + 1], variants) == Attempts(inputs[..i], variants) + Row(inputs[i], variants);
  }

  /** Once every variant of input i is tried, the attempts are those of the first i + 1 inputs. */
  lemma FullRow(inputs: seq<CompilerInput>, variants: seq<Option<SettingsMetadata>>, i: nat)
    requires i < |inputs|
    ensures Attempts(inputs[..i], variants) + Row(inputs[i], variants) == Attempts(inputs[..i + 1], variants)
  {
    var upTo := inputs[..i + 1];
    assert upTo[..|upTo| - 1] == inputs[..i];
    assert upTo[|upTo| - 1] == inputs[i];
  }

  /** One step of the inner loop: setting the metadata of the input in hand to variant j, whatever
      variant it held before, gives the next attempt of the row. */
  lemma AttemptStep(first: CompilerInput, variants: seq<Option<SettingsMetadata>>, j: nat, input: CompilerInput)
    requires j < |variants|
    requires j == 0 ==> input == first
    requires j > 0 ==> input == WithMetadata(first, variants[j - 1])
    ensures var next := input.(settings := input.settings.(metadata := variants[j]));
            && next == WithMetadata(first, variants[j])
            && Row(first, variants)[..j + 1] == Row(first, variants)[..j] + [next]
  {
    var row := Row(first, variants);
    assert row[j] == WithMetadata(first, variants[j]);
    assert row[..j + 1] == row[..j] + [row[j]];
  }

  /** When the search has made the attempts `tried`, a prefix of all attempts, and only the last
      of them was decisive, it returns that last reply. */
  lemma StopsAtLastTried(verifier: ContractVerifier, all: seq<CompilerInput>, tried: seq<CompilerInput>)
    requires tried <= all && tried != []
    requires AllContinue(verifier, tried[..|tried| - 1])
    requires !Continues(verifier.verify(|tried| - 1, tried[|tried| - 1]))
    ensures SearchOutcome(verifier, all) == verifier.verify(|tried| - 1, tried[|tried| - 1])
    ensures tried == all[..CallCount(verifier, all)]
  {
    assert forall t :: 0 <= t < |tried| ==> all[t] == tried[t];
    assert forall t :: 0 <= t < |tried| - 1 ==> tried[..|tried| - 1][t] == tried[t];
    SearchStopsAtFirstDecisive(verifier, all, |tried| - 1);
  }

  /** Every attempt in `tried`, the n-th made as call number n, reported `NoMatchingContracts`. */
  predicate AllContinue(verifier: ContractVerifier, tried: seq<CompilerInput>) {
    forall t :: 0 <= t < |tried| ==> Continues(verifier.verify(t, tried[t]))
  }

  /** The inner loop of `verify`, for one input: set its metadata to each variant in turn, in
      place, and call the verifier, numbering the calls on from `attempt`; stop at the first reply
      other than `NoMatchingContracts`. `before` are the attempts already made, all of which
      reported no match; `tried` extends them with this input's attempts, and `last` is the
      variant at which the loop stopped. */
  method TryVariants(verifier: ContractVerifier, first: CompilerInput, variants: seq<Option<SettingsMetadata>>,
                     attempt: nat, ghost before: seq<CompilerInput>)
    returns (decisive: Option<VerifyResult>, next: nat, ghost tried: seq<CompilerInput>, ghost last: nat)
    requires attempt == |before| && AllContinue(verifier, before)
    ensures decisive.None? ==> next == attempt + |variants|
    ensures decisive.Some? ==> attempt < next <= attempt + |variants| && !Continues(decisive.value)
    ensures next == |tried|
    ensures decisive.None? ==> tried == before + Row(first, variants) && AllContinue(verifier, tried)
    ensures decisive.Some? ==>
              && last < |variants| && tried == before + Row(first, variants)[..last + 1]
              && AllContinue(verifier, tried[..|tried| - 1])
              && decisive.value == verifier.verify(|tried| - 1, tried[|tried| - 1])
              && !Continues(decisive.value)
  {
    var input := first;
    next, tried := attempt, before;
    var j := 0;
    while j < |variants|
      invariant j <= |variants|
      invariant tried == before + Row(first, variants)[..j]
      invariant next == |tried| && AllContinue(verifier, tried)
      invariant j == 0 ==> input == first
      invariant j > 0 ==> input == WithMetadata(first, variants[j - 1])
    {
      AttemptStep(first, variants, j, input);
      input := input.(settings := input.settings.(metadata := variants[j]));
      var reply := verifier.verify(next, input);
      ghost var prior := tried;
      tried := tried + [input];
      next := next + 1;
      if !Continues(reply) {
        assert tried[..|tried| - 1] == prior;
        return Some(reply), next, tried, j;
      }
      j := j + 1;
    }
    assert Row(first, variants)[..j] == Row(first, variants);
    return None, next, tried, 0;
  }

  /** The nested loop of `verify`: for each input, try each metadata variant (`TryVariants`);
      go on after `NoMatchingContracts`, stop at anything else. `tried` records the inputs the
      verifier was called with. */
  method Search(verifier: ContractVerifier, inputs: seq<CompilerInput>, version: Version)
    returns (result: VerifyResult, ghost tried: seq<CompilerInput>)
    ensures result == SearchOutcome(verifier, Attempts(inputs, SettingsMetadataVariants(version)))
    ensures tried == Attempts(inputs, SettingsMetadataVariants(version))[..CallCount(verifier, Attempts(inputs, SettingsMetadataVariants(version)))]
  {
    var variants := SettingsMetadataVariants(version);
    ghost var all := Attempts(inputs, variants);
    tried := [];
    var attempt := 0;
    var i := 0;
    while i < |inputs|
      invariant i <= |inputs|
      invariant tried == Attempts(inputs[..i], variants)
      invariant attempt == |tried| && AllContinue(verifier, tried)
    {
      var decisive;
      ghost var last;
      decisive, attempt, tried, last := TryVariants(verifier, inputs[i], variants, attempt, tried);
      if decisive.Some? {
        PartialRowIsPrefix(inputs, variants, i, last + 1);
        StopsAtLastTried(verifier, all, tried);
        return decisive.value, tried;
      }
      FullRow(inputs, variants, i);
      i := i + 1;
    }
    assert inputs[..i] == inputs;
    SearchExhausted(verifier, all);
    FirstDecisiveIs(verifier, all, 0, |all|);
    result := Err(NoMatchingContracts);
  }

  /** The result `verify` returns for `request`, given the bytecode deployed at its address. */
  function VerifyOutcome(client: Client, request: VerificationRequest, deployedBytecode: Bytes): VerifyResult {
    match client.newVerifier(request.compilerVersion, request.creationBytecode, deployedBytecode)
    case Err(e) => Err(e)
    case Ok(verifier) =>
      SearchOutcome(verifier, Attempts(ToCompilerInputs(request.content), SettingsMetadataVariants(request.compilerVersion)))
  }

  /** `verify` once the deployed bytecode has been fetched: create the verifier (its failure is
      returned before any attempt), search, and hand a success to the middleware, if there is
      one, exactly once before returning it. */
  method Verify(client: Client, request: VerificationRequest, deployedBytecode: Bytes)
    returns (result: VerifyResult, ghost tried: seq<CompilerInput>)
    modifies client.middleware
    ensures result == VerifyOutcome(client, request, deployedBytecode)
    ensures match client.newVerifier(request.compilerVersion, request.creationBytecode, deployedBytecode)
            case Err(_) => tried == []
            case Ok(verifier) =>
              var all := Attempts(ToCompilerInputs(request.content), SettingsMetadataVariants(request.compilerVersion));
              tried == all[..CallCount(verifier, all)]
    ensures client.middleware != null ==>
              client.middleware.received == old(client.middleware.received) + (if result.Ok? then [result.value] else [])
  {
    var created := client.newVerifier(request.compilerVersion, request.creationBytecode, deployedBytecode);
    if created.Err? {
      return Err(created.error), [];
    }
    var inputs := ToCompilerInputs(request.content);
    result, tried := Search(created.value, inputs, request.compilerVersion);
    if result.Ok? && client.middleware != null {
      client.middleware.Call(result.value);
    }
  }

  // ---------------------------------------------------------------------------------------------
  // The source's own examples

  /** How a Solidity file and a Yul file are partitioned. */
  lemma PartitionTwoFiles(sol: Path, yul: Path, solText: string, yulText: string)
    requires LanguageOf(sol) == Solidity && LanguageOf(yul) == Yul
    ensures Partition(map[sol := solText, yul := yulText], Solidity) == map[sol := solText]
    ensures Partition(map[sol := solText, yul := yulText], Yul) == map[yul := yulText]
  {
  }

  /** The file names of the source's examples: `.sol` is Solidity, `.yul` is Yul. */
  lemma ExampleLanguages()
    ensures LanguageOf("source.sol") == Solidity && LanguageOf("source2.yul") == Yul
  {
    PlainFileName("source.sol");
    PlainFileName("source2.yul");
    assert "source.sol"[6..] == ".sol";
    assert "source2.yul"[7..] == ".yul";
  }

  /** A Solidity file and a Yul file give two inputs, Solidity first, one file each. */
  lemma OneFileEach(content: MultiFileContent, sol: Path, solText: string, yul: Path, yulText: string)
    requires content.sources == map[sol := solText, yul := yulText]
    requires LanguageOf(sol) == Solidity && LanguageOf(yul) == Yul
    ensures ToCompilerInputs(content)
            == [CompilerInput(Solidity, map[sol := solText], BuildSettings(content)),
                CompilerInput(Yul, map[yul := yulText], BuildSettings(content))]
  {
    PartitionTwoFiles(sol, yul, solText, yulText);
    ToCompilerInputsShape(content);
    assert sol in Partition(content.sources, Solidity);
    assert yul in Partition(content.sources, Yul);
  }

  /** The source's example: `source.sol` and `source2.yul` give a Solidity input and then a Yul
      input with the same settings. */
  lemma YulAndSolidityToInputs()
    ensures var content := MultiFileContent(
              map["source.sol" := "pragma", "source2.yul" := "object \"A\" {}"],
              Some(EvmVersion("london")), Some(200), None);
            var settings := Settings(Optimizer(Some(true), Some(200)), DefaultOutputSelection,
                                     Some(EvmVersion("london")), map[], None);
            ToCompilerInputs(content)
            == [CompilerInput(Solidity, map["source.sol" := "pragma"], settings),
                CompilerInput(Yul, map["source2.yul" := "object \"A\" {}"], settings)]
  {
    var content := MultiFileContent(
      map["source.sol" := "pragma", "source2.yul" := "object \"A\" {}"], Some(EvmVersion("london")), Some(200), None);
    ExampleLanguages();
    OneFileEach(content, "source.sol", "pragma", "source2.yul", "object \"A\" {}");
  }

  /** A single Solidity file gives exactly one input, holding that file. */
  lemma OneSolidityFile(content: MultiFileContent, p: Path, text: string)
    requires content.sources == map[p := text] && LanguageOf(p) == Solidity
    ensures ToCompilerInputs(content) == [CompilerInput(Solidity, content.sources, BuildSettings(content))]
  {
    assert p in Partition(content.sources, Solidity);
    assert Partition(content.sources, Solidity) == content.sources;
    assert p !in Partition(content.sources, Yul);
    assert Partition(content.sources, Yul) == map[];
    ToCompilerInputsShape(content);
  }

  /** With a single file, the library table maps that file to the whole library map. */
  lemma LibrariesOfOneFile(content: MultiFileContent, p: Path, text: string, libs: map<string, string>)
    requires content.sources == map[p := text] && content.contractLibraries == Some(libs)
    ensures BuildSettings(content).libraries == map[p := libs]
  {
  }

  /** A single file with a library map: the library table names that file and the whole map. */
  lemma MultiPartToInput()
    ensures var content := MultiFileContent(
              map["source.sol" := "pragma"], Some(EvmVersion("london")), Some(200),
              Some(map["some_library" := "some_address"]));
            ToCompilerInputs(content)
            == [CompilerInput(Solidity, map["source.sol" := "pragma"],
                  Settings(Optimizer(Some(true), Some(200)), DefaultOutputSelection, Some(EvmVersion("london")),
                           map["source.sol" := map["some_library" := "some_address"]], None))]
  {
    var content := MultiFileContent(map["source.sol" := "pragma"], Some(EvmVersion("london")), Some(200),
                                    Some(map["some_library" := "some_address"]));
    ExampleLanguages();
    OneSolidityFile(content, "source.sol", "pragma");
    LibrariesOfOneFile(content, "source.sol", "pragma", map["some_library" := "some_address"]);
  }

  /** The second case of the same test: without a run count the optimizer is off with no runs,
      and without a library map the library table is empty. */
  lemma MultiPartToInputWithoutOptions()
    ensures var content := MultiFileContent(map["source.sol" := ""], Some(EvmVersion("spuriousDragon")), None, None);
            ToCompilerInputs(content)
            == [CompilerInput(Solidity, map["source.sol" := ""],
                  Settings(Optimizer(Some(false), None), DefaultOutputSelection, Some(EvmVersion("spuriousDragon")),
                           map[], None))]
  {
    var content := MultiFileContent(map["source.sol" := ""], Some(EvmVersion("spuriousDragon")), None, None);
    ExampleLanguages();
    OneSolidityFile(content, "source.sol", "");
  }

  /** A verifier that reports no match twice and then a match is called three times, and the
      match is the result; with more than one input, attempts remain untried. */
  lemma MatchOnThirdAttempt(inputs: seq<CompilerInput>, version: Version, success: Success)
    requires inputs != [] && !BelowMetadataHashSupport(version)
    ensures var verifier := ContractVerifier((n: nat, input: CompilerInput) =>
                              if n < 2 then Err(NoMatchingContracts) else Ok(success));
            var all := Attempts(inputs, SettingsMetadataVariants(version));
            && SearchOutcome(verifier, all) == Ok(success) && CallCount(verifier, all) == 3
            && (|inputs| > 1 ==> CallCount(verifier, all) < |all|)
  {
    var verifier := ContractVerifier((n: nat, input: CompilerInput) =>
                      if n < 2 then Err(NoMatchingContracts) else Ok(success));
    var all := Attempts(inputs, SettingsMetadataVariants(version));
    AttemptsLength(inputs, SettingsMetadataVariants(version));
    assert |inputs| * 3 >= 3;
    assert |inputs| > 1 ==> |inputs| * 3 > 3;
    SearchStopsAtFirstDecisive(verifier, all, 2);
  }

  /** A compilation error on the first attempt is returned after that one call, even when every
      later attempt would have matched. */
  lemma CompilationErrorStopsSearch(inputs: seq<CompilerInput>, version: Version, messages: seq<string>, success: Success)
    requires inputs != []
    ensures var verifier := ContractVerifier((n: nat, input: CompilerInput) =>
                              if n == 0 then Err(Compilation(messages)) else Ok(success));
            var all := Attempts(inputs, SettingsMetadataVariants(version));
            SearchOutcome(verifier, all) == Err(Compilation(messages)) && CallCount(verifier, all) == 1
  {
    var verifier := ContractVerifier((n: nat, input: CompilerInput) =>
                      if n == 0 then Err(Compilation(messages)) else Ok(success));
    var variants := SettingsMetadataVariants(version);
    AttemptAt(inputs, variants, 0, 0);
    SearchStopsAtFirstDecisive(verifier, Attempts(inputs, variants), 0);
  }
}
