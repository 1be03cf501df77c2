/** The Solidity compiler's standard-JSON input as the ethers_solc crate types it, the semantic
    versions the compiler is identified by, and the foreign parsers the HTTP layer relies on.
    Only the structural fields the verifier sets or reads are kept; the JSON wire shape is not. */
module Solc {
  import opened Wrappers

  newtype byte = x: int | 0 <= x < 256

  type Bytes = seq<byte>

  /** A source path, as a `PathBuf` key of the sources map. */
  type Path = string

  /** A semantic version: `pre` holds the pre-release identifiers (empty for a release, non-empty
      for a nightly build) and `build` the build metadata (such as the commit), which no comparison reads. */
  datatype Version = Version(major: nat, minor: nat, patch: nat, pre: seq<string>, build: seq<string>)

  /** An EVM hard-fork target such as `london` or `spuriousDragon`; only its name is kept. */
  datatype EvmVersion = EvmVersion(name: string)

  /** `settings.metadata.bytecodeHash`: which content hash, if any, the compiler appends to the
      bytecode. `NoHash` is the option spelled `none` in the compiler's input description. */
  datatype BytecodeHash = Ipfs | NoHash | Bzzr1

  datatype SettingsMetadata = SettingsMetadata(useLiteralContent: Option<bool>, bytecodeHash: Option<BytecodeHash>)

  /** `SettingsMetadata::from(hash)`: only the bytecode hash is set. */
  function MetadataFromHash(hash: BytecodeHash): (m: SettingsMetadata)
    ensures m.bytecodeHash == Some(hash) && m.useLiteralContent.None?
  {
    SettingsMetadata(None, Some(hash))
  }

  datatype Optimizer = Optimizer(enabled: Option<bool>, runs: Option<nat>)

  datatype Settings = Settings(
    optimizer: Optimizer,
    outputSelection: map<string, map<string, seq<string>>>,
    evmVersion: Option<EvmVersion>,
    libraries: map<Path, map<string, string>>,
    metadata: Option<SettingsMetadata>)

  /** The output selection of `Settings::default()`: the AST of every file, and the ABI, both
      bytecodes and the method identifiers of every contract. */
  const DefaultOutputSelection: map<string, map<string, seq<string>>> :=
    map["*" := map["" := ["ast"], "*" := ["abi", "evm.bytecode", "evm.deployedBytecode", "evm.methodIdentifiers"]]]

  datatype Language = Solidity | Yul

  datatype CompilerInput = CompilerInput(language: Language, sources: map<Path, string>, settings: Settings)

  /** The path with its trailing '/' separators removed; path components ignore them. */
  function TrimTrailingSeparators(p: Path): (r: Path)
    ensures r <= p
    decreases |p|
  {
    if p != [] && p[|p| - 1] == '/' then TrimTrailingSeparators(p[..|p| - 1]) else p
  }

  /** What follows the last '/' of a path. */
  function LastComponent(p: Path): (r: Path)
    ensures '/' !in r
    decreases |p|
  {
    if p == [] || p[|p| - 1] == '/' then [] else LastComponent(p[..|p| - 1]) + [p[|p| - 1]]
  }

  function FileName(p: Path): Path {
    LastComponent(TrimTrailingSeparators(p))
  }

  /** A path without separators is its own file name. */
  lemma {:induction false} PlainFileName(p: Path)
    requires '/' !in p
    ensures FileName(p) == p
    decreases |p|
  {
    if p != [] {
      var init := p[..|p| - 1];
      assert '/' !in init by {
        forall i | 0 <= i < |init| ensures init[i] != '/' { assert init[i] == p[i]; }
      }
      PlainFileName(init);
      assert init + [p[|p| - 1]] == p;
    }
  }

  /** The file's extension is exactly `yul`: its name ends in ".yul" after a non-empty stem
      (a name such as ".yul" has no extension at all). */
  predicate IsYulPath(p: Path) {
    var name := FileName(p);
    |name| > 4 && name[|name| - 4..] == ".yul"
  }

  /** For a bare file name: the name ends in ".yul" after a non-empty stem. */
  lemma YulFileName(name: Path)
    requires '/' !in name
    ensures IsYulPath(name) <==> |name| > 4 && name[|name| - 4..] == ".yul"
  {
    PlainFileName(name);
  }

  /** What follows the last separator is the file name. */
  lemma {:induction false} LastComponentAfterSeparator(dir: Path, name: Path)
    requires '/' !in name
    ensures LastComponent(dir + ['/'] + name) == name
    decreases |name|
  {
    var q := dir + ['/'] + name;
    if name != [] {
      var init := name[..|name| - 1];
      assert '/' !in init by {
        forall i | 0 <= i < |init| ensures init[i] != '/' { assert init[i] == name[i]; }
      }
      assert q[..|q| - 1] == dir + ['/'] + init;
      LastComponentAfterSeparator(dir, init);
      assert init + [name[|name| - 1]] == name;
    }
  }

  /** Only the file name decides the language: the directories above it do not. */
  lemma YulPathIgnoresDirectory(dir: Path, name: Path)
    requires '/' !in name && name != []
    ensures IsYulPath(dir + ['/'] + name) == IsYulPath(name)
  {
    var q := dir + ['/'] + name;
    assert q[|q| - 1] == name[|name| - 1];
    assert TrimTrailingSeparators(q) == q;
    LastComponentAfterSeparator(dir, name);
    PlainFileName(name);
  }

  function LanguageOf(p: Path): Language {
    if IsYulPath(p) then Yul else Solidity
  }

  /** The files of `sources` that belong to `language`, contents untouched. */
  function Partition(sources: map<Path, string>, language: Language): map<Path, string> {
    map p | p in sources && LanguageOf(p) == language :: sources[p]
  }

  /** The two partitions are disjoint and together hold every file. */
  lemma PartitionsCover(sources: map<Path, string>)
    ensures Partition(sources, Solidity).Keys !! Partition(sources, Yul).Keys
    ensures Partition(sources, Solidity) + Partition(sources, Yul) == sources
  {
    var solidity, yul := Partition(sources, Solidity), Partition(sources, Yul);
    assert (solidity + yul).Keys == sources.Keys by {
      forall p | p in sources ensures p in solidity + yul {
        if LanguageOf(p) == Solidity { assert p in solidity; } else { assert p in yul; }
      }
    }
  }

  /** `CompilerInput::with_sources`: the language and sources of each input it creates, one per
      non-empty language partition, Solidity first. The inputs it creates carry default settings,
      which the only caller replaces at once, so the settings are left to that caller. */
  function WithSources(sources: map<Path, string>): (r: seq<(Language, map<Path, string>)>)
    ensures |r| <= 2
    ensures forall k :: 0 <= k < |r| ==> r[k].1 == Partition(sources, r[k].0) && r[k].1 != map[]
    ensures forall k, k' :: 0 <= k < k' < |r| ==> r[k].0 == Solidity && r[k'].0 == Yul
  {
    var solidity := Partition(sources, Solidity);
    var yul := Partition(sources, Yul);
    (if solidity != map[] then [(Solidity, solidity)] else [])
    + (if yul != map[] then [(Yul, yul)] else [])
  }

  /** How a foreign parser reports failure: its `Display` and its `Debug` renderings. */
  datatype ParseFailure = ParseFailure(display: string, debug: string)

  /** The foreign parsers the HTTP layer calls, as partial functions: `DisplayBytes::from_str`,
      `Version::from_str`, `EvmVersion::from_str` and `serde_json::from_str::<CompilerInput>`. */
  datatype Parsers = Parsers(
    bytes: string -> Result<Bytes, ParseFailure>,
    version: string -> Result<Version, ParseFailure>,
    evmVersion: string -> Result<EvmVersion, ParseFailure>,
    compilerInput: string -> Result<CompilerInput, ParseFailure>)
}
