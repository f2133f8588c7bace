/** Proof-calldata assembly: the two artifact files a proof run leaves behind
    are named from a directory and a nonce, and their decimal entries are
    turned into the fixed-shape arguments of the verifying contract's
    `transfer` call. */
module Chain {
  import opened Wrappers
  import opened Json
  import opened Decimal

  /** A Rust `[T; 2]`. */
  datatype Pair<T> = Pair(first: T, second: T) {
    function At(i: nat): T
      requires i < 2
    {
      if i == 0 then first else second
    }
  }

  /** A Rust `[[T; 2]; 2]`, row by row. */
  datatype Matrix<T> = Matrix(row0: Pair<T>, row1: Pair<T>) {
    function At(i: nat): Pair<T>
      requires i < 2
    {
      if i == 0 then row0 else row1
    }
  }

  /** `CircomCalldata`: a Groth16 proof (two curve points and one point over
      the extension field) and the circuit's public signals. */
  datatype CircomCalldata = CircomCalldata(
    piA: Pair<U256>,
    piB: Matrix<U256>,
    piC: Pair<U256>,
    signals: seq<U256>)

  /** Where an entry sits: a member of the proof document and its indices, or
      a position in the public-signals array. */
  datatype Location = ProofEntry(key: string, indices: seq<nat>) | PublicEntry(index: nat)

  /** Each `unwrap` of the assembly that can abort, as a failure value. */
  datatype AssemblyError =
    | Unreadable(path: string)              // file missing, unreadable or not JSON
    | NotAString(at: Location)              // `as_str()` found no string
    | BadNumber(at: Location, cause: DecError)  // `from_dec_str` refused the text
    | PublicNotAnArray                      // `as_array()` found no array

  /** The file system as the assembly sees it: each readable file that holds
      valid JSON, by path, already parsed. */
  type FileSystem = map<string, Value>

  const DEFAULT_DIR: string := ""
  const DEFAULT_NONCE: string := "17689783363368087877"
  const PROOF_PREFIX: string := "rapidsnark_proof_"
  const PUBLIC_PREFIX: string := "rapidsnark_public_"
  const SUFFIX: string := ".json"

  /** Name of the proof file: the directory, the prefix, the nonce and `.json`,
      glued with no separator. */
  function ProofPath(dir: string, nonce: string): (path: string)
    ensures |path| == |dir| + |PROOF_PREFIX| + |nonce| + |SUFFIX|
    ensures path[..|dir|] == dir
    ensures path[|dir|..|dir| + |PROOF_PREFIX|] == PROOF_PREFIX
    ensures path[|dir| + |PROOF_PREFIX|..|path| - |SUFFIX|] == nonce
    ensures path[|path| - |SUFFIX|..] == SUFFIX
  {
    dir + PROOF_PREFIX + nonce + SUFFIX
  }

  /** Name of the public-signals file, built the same way. */
  function PublicPath(dir: string, nonce: string): (path: string)
    ensures |path| == |dir| + |PUBLIC_PREFIX| + |nonce| + |SUFFIX|
    ensures path[..|dir|] == dir
    ensures path[|dir|..|dir| + |PUBLIC_PREFIX|] == PUBLIC_PREFIX
    ensures path[|dir| + |PUBLIC_PREFIX|..|path| - |SUFFIX|] == nonce
    ensures path[|path| - |SUFFIX|..] == SUFFIX
  {
    dir + PUBLIC_PREFIX + nonce + SUFFIX
  }

  /** For one directory, different nonces name different files, and the proof
      file and the public file of one nonce are never the same file. */
  lemma PathsDistinct(dir: string, nonce: string, nonce': string)
    ensures ProofPath(dir, nonce) == ProofPath(dir, nonce') ==> nonce == nonce'
    ensures PublicPath(dir, nonce) == PublicPath(dir, nonce') ==> nonce == nonce'
    ensures ProofPath(dir, nonce) != PublicPath(dir, nonce')
  {
    var proof, public := ProofPath(dir, nonce), PublicPath(dir, nonce');
    // "rapidsnark_pr..." against "rapidsnark_pu...": they part at offset 12
    assert proof[|dir| + 12] == PROOF_PREFIX[12] == 'r';
    assert public[|dir| + 12] == PUBLIC_PREFIX[12] == 'u';
  }

  /** Reference meaning of one entry: the number a JSON string spells in
      decimal when that number fits in 256 bits, and nothing otherwise. */
  function EntryValue(v: Value): Option<U256> {
    if v.Str? && AllDigits(v.s) && DecValue(v.s) < MODULUS then Some(DecValue(v.s)) else None
  }

  /** `U256::from_dec_str(v.as_str().unwrap()).unwrap()` on one entry. */
  function ParseEntry(v: Value, at: Location): (r: Result<U256, AssemblyError>)
    ensures r.Success? <==> EntryValue(v).Some?
    ensures r.Success? ==> r.value == EntryValue(v).value
    ensures !v.Str? ==> r == Failure(NotAString(at))
  {
    match v.AsStr()
    case None => Failure(NotAString(at))
    case Some(text) =>
      match FromDecStr(text)
      case Success(n) => Success(n)
      case Failure(e) => Failure(BadNumber(at, e))
  }

  /** `proof[key][i]`, and `proof[key][i][j]` for the nested `pi_b`. */
  function Entry(proof: Value, key: string, i: nat): Value {
    proof.Get(key).At(i)
  }

  function Entry2(proof: Value, key: string, i: nat, j: nat): Value {
    proof.Get(key).At(i).At(j)
  }

  /** The public signals, converted in order from position `from` on; the
      first entry that does not convert aborts the whole list. */
  function ParseSignals(items: seq<Value>, from: nat): (r: Result<seq<U256>, AssemblyError>)
    requires from <= |items|
    decreases |items| - from
    ensures r.Success? <==> forall k :: from <= k < |items| ==> EntryValue(items[k]).Some?
    ensures r.Success? ==> |r.value| == |items| - from
    ensures r.Success? ==> forall k :: from <= k < |items| ==> r.value[k - from] == EntryValue(items[k]).value
  {
    if from == |items| then Success([])
    else
      var head :- ParseEntry(items[from], PublicEntry(from));
      var tail :- ParseSignals(items, from + 1);
      Success([head] + tail)
  }

  /** Every one of the eight fixed positions of the proof document holds a
      decimal string that fits in 256 bits. */
  predicate ProofEntriesValid(proof: Value) {
    && EntryValue(Entry(proof, "pi_a", 0)).Some? && EntryValue(Entry(proof, "pi_a", 1)).Some?
    && (forall i, j | 0 <= i < 2 && 0 <= j < 2 :: EntryValue(Entry2(proof, "pi_b", i, j)).Some?)
    && EntryValue(Entry(proof, "pi_c", 0)).Some? && EntryValue(Entry(proof, "pi_c", 1)).Some?
  }

  /** The public document is an array every element of which is a decimal
      string that fits in 256 bits. */
  predicate PublicEntriesValid(public: Value) {
    public.Arr? && forall k :: 0 <= k < |public.items| ==> EntryValue(public.items[k]).Some?
  }

  /** The proof's three points, as read from the proof document. */
  datatype ProofPoints = ProofPoints(piA: Pair<U256>, piB: Matrix<U256>, piC: Pair<U256>)

  /** The eight fixed-position conversions of the proof document, in the
      order `pi_a`, `pi_b` row by row, `pi_c`; the first that fails aborts. */
  function ParseProof(proof: Value): (r: Result<ProofPoints, AssemblyError>)
    ensures r.Success? <==> ProofEntriesValid(proof)
    // pi_a and pi_c: entries 0 and 1, in order
    ensures r.Success? ==>
      && r.value.piA == Pair(EntryValue(Entry(proof, "pi_a", 0)).value, EntryValue(Entry(proof, "pi_a", 1)).value)
      && r.value.piC == Pair(EntryValue(Entry(proof, "pi_c", 0)).value, EntryValue(Entry(proof, "pi_c", 1)).value)
    // pi_b: a 2x2 matrix, rows and columns kept in place
    ensures r.Success? ==>
      forall i, j | 0 <= i < 2 && 0 <= j < 2 ::
        r.value.piB.At(i).At(j) == EntryValue(Entry2(proof, "pi_b", i, j)).value
  {
    var a0 :- ParseEntry(Entry(proof, "pi_a", 0), ProofEntry("pi_a", [0]));
    var a1 :- ParseEntry(Entry(proof, "pi_a", 1), ProofEntry("pi_a", [1]));
    var b00 :- ParseEntry(Entry2(proof, "pi_b", 0, 0), ProofEntry("pi_b", [0, 0]));
    var b01 :- ParseEntry(Entry2(proof, "pi_b", 0, 1), ProofEntry("pi_b", [0, 1]));
    var b10 :- ParseEntry(Entry2(proof, "pi_b", 1, 0), ProofEntry("pi_b", [1, 0]));
    var b11 :- ParseEntry(Entry2(proof, "pi_b", 1, 1), ProofEntry("pi_b", [1, 1]));
    var c0 :- ParseEntry(Entry(proof, "pi_c", 0), ProofEntry("pi_c", [0]));
    var c1 :- ParseEntry(Entry(proof, "pi_c", 1), ProofEntry("pi_c", [1]));
    Success(ProofPoints(Pair(a0, a1), Matrix(Pair(b00, b01), Pair(b10, b11)), Pair(c0, c1)))
  }

  /** The two proof documents hold the same entries at the eight positions
      the assembly reads. */
  predicate SameFixedEntries(proof: Value, proof': Value) {
    && Entry(proof', "pi_a", 0) == Entry(proof, "pi_a", 0)
    && Entry(proof', "pi_a", 1) == Entry(proof, "pi_a", 1)
    && Entry2(proof', "pi_b", 0, 0) == Entry2(proof, "pi_b", 0, 0)
    && Entry2(proof', "pi_b", 0, 1) == Entry2(proof, "pi_b", 0, 1)
    && Entry2(proof', "pi_b", 1, 0) == Entry2(proof, "pi_b", 1, 0)
    && Entry2(proof', "pi_b", 1, 1) == Entry2(proof, "pi_b", 1, 1)
    && Entry(proof', "pi_c", 0) == Entry(proof, "pi_c", 0)
    && Entry(proof', "pi_c", 1) == Entry(proof, "pi_c", 1)
  }

  /** Only the eight fixed positions of the proof document are read: two
      documents that agree there (whatever else they hold, however long
      their arrays) give the same points or the same error. */
  lemma ProofReadAtFixedPositions(proof: Value, proof': Value)
    requires SameFixedEntries(proof, proof')
    ensures ParseProof(proof') == ParseProof(proof)
  {
  }

  /** `parse_files_into_calldata(dir, nonce)`. */
  function ParseFilesIntoCalldata(dir: string, nonce: string, fs: FileSystem): (r: Result<CircomCalldata, AssemblyError>)
    // it fails exactly when a file is missing or an entry is not a fitting decimal string
    ensures r.Success? <==>
      && ProofPath(dir, nonce) in fs && PublicPath(dir, nonce) in fs
      && ProofEntriesValid(fs[ProofPath(dir, nonce)])
      && PublicEntriesValid(fs[PublicPath(dir, nonce)])
    ensures ProofPath(dir, nonce) !in fs ==> r == Failure(Unreadable(ProofPath(dir, nonce)))
    ensures ProofPath(dir, nonce) in fs && PublicPath(dir, nonce) !in fs ==> r == Failure(Unreadable(PublicPath(dir, nonce)))
    // the public document is looked at only once the proof entries convert
    ensures (&& ProofPath(dir, nonce) in fs && PublicPath(dir, nonce) in fs
             && ProofEntriesValid(fs[ProofPath(dir, nonce)]) && !fs[PublicPath(dir, nonce)].Arr?)
      ==> r == Failure(PublicNotAnArray)
    // the three points are the proof document's
    ensures r.Success? ==> ParseProof(fs[ProofPath(dir, nonce)]) == Success(ProofPoints(r.value.piA, r.value.piB, r.value.piC))
    // signals: one per element of the public array, in order
    ensures r.Success? ==>
      var items := fs[PublicPath(dir, nonce)].items;
      && |r.value.signals| == |items|
      && forall k :: 0 <= k < |items| ==> r.value.signals[k] == EntryValue(items[k]).value
  {
    var proofPath := ProofPath(dir, nonce);
    var publicPath := PublicPath(dir, nonce);
    if proofPath !in fs then Failure(Unreadable(proofPath))
    else if publicPath !in fs then Failure(Unreadable(publicPath))
    else
      var points :- ParseProof(fs[proofPath]);
      var public := fs[publicPath];
      var items :- if public.Arr? then Success(public.items) else Failure(PublicNotAnArray);
      var signals :- ParseSignals(items, 0);
      Success(CircomCalldata(points.piA, points.piB, points.piC, signals))
  }

  /** The assembly reads the proof document only at its eight fixed positions. */
  lemma OnlyFixedPositionsRead(dir: string, nonce: string, fs: FileSystem, proof': Value)
    requires ProofPath(dir, nonce) in fs
    requires SameFixedEntries(fs[ProofPath(dir, nonce)], proof')
    ensures ParseFilesIntoCalldata(dir, nonce, fs[ProofPath(dir, nonce) := proof']) == ParseFilesIntoCalldata(dir, nonce, fs)
  {
    var fs' := fs[ProofPath(dir, nonce) := proof'];
    PathsDistinct(dir, nonce, nonce);
    assert PublicPath(dir, nonce) in fs' <==> PublicPath(dir, nonce) in fs;
    assert PublicPath(dir, nonce) in fs ==> fs'[PublicPath(dir, nonce)] == fs[PublicPath(dir, nonce)];
    ProofReadAtFixedPositions(fs[ProofPath(dir, nonce)], proof');
  }

  /** `get_calldata(dir, nonce)`: a missing directory is the empty string, a
      missing nonce is the fixed default, and given ones pass through. */
  function GetCalldata(dir: Option<string>, nonce: Option<string>, fs: FileSystem): (r: Result<CircomCalldata, AssemblyError>)
    ensures dir.None? && nonce.None? ==> r == ParseFilesIntoCalldata("", "17689783363368087877", fs)
    ensures dir.None? && nonce.Some? ==> r == ParseFilesIntoCalldata("", nonce.value, fs)
    ensures dir.Some? && nonce.None? ==> r == ParseFilesIntoCalldata(dir.value, "17689783363368087877", fs)
    ensures dir.Some? && nonce.Some? ==> r == ParseFilesIntoCalldata(dir.value, nonce.value, fs)
  {
    ParseFilesIntoCalldata(dir.GetOr(DEFAULT_DIR), nonce.GetOr(DEFAULT_NONCE), fs)
  }

  /** The contract call `send_to_chain` makes: the method name and its four
      positional arguments. */
  datatype TransferCall = TransferCall(
    name: string,
    piA: Pair<U256>,
    piB: Matrix<U256>,
    piC: Pair<U256>,
    signals: seq<U256>)

  /** The call `send_to_chain(test, dir, nonce)` submits, when the calldata
      assembles; the assembly's failure aborts it before any call is made. */
  function TransferCallFor(dir: string, nonce: string, fs: FileSystem): (r: Result<TransferCall, AssemblyError>)
    ensures r.Success? <==> ParseFilesIntoCalldata(dir, nonce, fs).Success?
    ensures r.Failure? ==> r.error == ParseFilesIntoCalldata(dir, nonce, fs).error
    ensures r.Success? ==>
      var cd := ParseFilesIntoCalldata(dir, nonce, fs).value;
      r.value == TransferCall("transfer", cd.piA, cd.piB, cd.piC, cd.signals)
    // the arguments come from the two documents, never from fixed numbers
    ensures r.Success? ==>
      var proof, public := fs[ProofPath(dir, nonce)], fs[PublicPath(dir, nonce)];
      && r.value.piA == Pair(EntryValue(Entry(proof, "pi_a", 0)).value, EntryValue(Entry(proof, "pi_a", 1)).value)
      && (forall i, j | 0 <= i < 2 && 0 <= j < 2 ::
            r.value.piB.At(i).At(j) == EntryValue(Entry2(proof, "pi_b", i, j)).value)
      && r.value.piC == Pair(EntryValue(Entry(proof, "pi_c", 0)).value, EntryValue(Entry(proof, "pi_c", 1)).value)
      && |r.value.signals| == |public.items|
      && forall k :: 0 <= k < |public.items| ==> r.value.signals[k] == EntryValue(public.items[k]).value
  {
    var cd :- GetCalldata(Some(dir), Some(nonce), fs);
    Success(TransferCall("transfer", cd.piA, cd.piB, cd.piC, cd.signals))
  }
}
