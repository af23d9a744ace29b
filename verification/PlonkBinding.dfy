/** How a proof is bound to its statement (zk/provers/plonk_prover.py, zk/verifiers/plonk_verifier.py,
    zk/witness/generator.py): public inputs as text entries, hashes as 64-bit limbs, and the
    verifier that rebuilds the prover's instance. The proving backend is an oracle. */
module PlonkBinding {
  import opened Common
  import opened Ordering
  import opened Text
  import opened CanonicalJson
  import opened VrlHashing

  type PublicInputs = map<string, string>

  // ---------------------------------------------------------------- text entries

  function EntriesOf(keys: seq<string>, m: PublicInputs): seq<string>
    requires forall k :: k in keys ==> k in m
  {
    if keys == [] then []
    else
      var last := keys[|keys| - 1];
      EntriesOf(keys[..|keys| - 1], m) + [last + "=" + m[last]]
  }

  /** `serialize_public_inputs`. */
  function SerializePublicInputs(m: PublicInputs): seq<string> {
    EntriesOf(SortedStrings(m.Keys), m)
  }

  datatype Parsed = Inputs(inputs: PublicInputs) | NoSeparator(entry: string) | EmptyKey(entry: string)

  /** The position of the first '=', or the length without one. */
  function FirstEquals(entry: string): (n: nat)
    ensures n <= |entry| && '=' !in entry[..n] && (n < |entry| ==> entry[n] == '=')
    ensures n == |entry| <==> '=' !in entry
  {
    if entry == "" || entry[0] == '=' then 0
    else
      var n := 1 + FirstEquals(entry[1..]);
      assert entry[..n] == [entry[0]] + entry[1..][..n - 1];
      assert entry == [entry[0]] + entry[1..];
      n
  }

  /** The effect of one entry: split at its first '='. */
  function AddEntry(m: PublicInputs, entry: string): Parsed {
    var n := FirstEquals(entry);
    if n == |entry| then NoSeparator(entry)
    else if n == 0 then EmptyKey(entry)
    else Inputs(m[entry[..n] := entry[n + 1..]])
  }

  /** The map that the entries give, the first bad entry in their order otherwise. */
  function Parse(entries: seq<string>): Parsed {
    if entries == [] then Inputs(map[])
    else
      var front := Parse(entries[..|entries| - 1]);
      if front.Inputs? then AddEntry(front.inputs, entries[|entries| - 1]) else front
  }

  lemma {:induction false} BadPrefix(entries: seq<string>, i: nat)
    requires i <= |entries| && !Parse(entries[..i]).Inputs?
    ensures Parse(entries) == Parse(entries[..i])
    decreases |entries|
  {
    if i == |entries| {
      assert entries[..i] == entries;
    } else {
      assert entries[..|entries| - 1][..i] == entries[..i];
      BadPrefix(entries[..|entries| - 1], i);
    }
  }

  /** `_parse_public_inputs`. */
  method ParsePublicInputs(entries: seq<string>) returns (result: Parsed)
    ensures result == Parse(entries)
  {
    var publicInputs: PublicInputs := map[];
    for i := 0 to |entries|
      invariant Parse(entries[..i]) == Inputs(publicInputs)
    {
      var entry := entries[i];
      assert entries[..i + 1][..i] == entries[..i];
      var n := FirstEquals(entry);
      if n == |entry| {
        BadPrefix(entries, i + 1);
        return NoSeparator(entry);
      }
      var key, value := entry[..n], entry[n + 1..];
      if key == "" {
        BadPrefix(entries, i + 1);
        return EmptyKey(entry);
      }
      publicInputs := publicInputs[key := value];
    }
    assert entries[..|entries|] == entries;
    return Inputs(publicInputs);
  }

  /** The keys that text entries can carry. */
  predicate PlainKeys(m: PublicInputs) {
    forall k :: k in m ==> k != "" && '=' !in k
  }

  lemma {:induction false} ParsedKeysArePlain(entries: seq<string>)
    ensures Parse(entries).Inputs? ==> PlainKeys(Parse(entries).inputs)
  {
    if entries != [] {
      ParsedKeysArePlain(entries[..|entries| - 1]);
    }
  }

  lemma {:induction false} FirstEqualsAt(e: string, n: nat)
    requires n < |e| && e[n] == '=' && '=' !in e[..n]
    ensures FirstEquals(e) == n
  {
    if n > 0 {
      assert e[..n][0] == e[0];
      assert e[..n] == [e[0]] + e[1..][..n - 1];
      FirstEqualsAt(e[1..], n - 1);
    }
  }

  lemma EntrySplits(m: PublicInputs, key: string, value: string)
    requires '=' !in key && key != ""
    ensures AddEntry(m, key + "=" + value) == Inputs(m[key := value])
  {
    var e := key + "=" + value;
    assert e[..|key|] == key && e[|key| + 1..] == value;
    FirstEqualsAt(e, |key|);
  }

  function Restrict(m: PublicInputs, keys: seq<string>): PublicInputs {
    map k | k in m && k in keys :: m[k]
  }

  lemma RestrictNext(m: PublicInputs, keys: seq<string>, last: string)
    requires last in m
    ensures Restrict(m, keys + [last]) == Restrict(m, keys)[last := m[last]]
  {}

  lemma {:induction false} EntriesParse(keys: seq<string>, m: PublicInputs)
    requires PlainKeys(m) && forall k :: k in keys ==> k in m
    ensures Parse(EntriesOf(keys, m)) == Inputs(Restrict(m, keys))
  {
    if keys != [] {
      var front, last := keys[..|keys| - 1], keys[|keys| - 1];
      EntriesParse(front, m);
      EntriesNext(front, last, m);
      EntrySplits(Restrict(m, front), last, m[last]);
      RestrictNext(m, front, last);
      assert keys == front + [last];
    }
  }

  lemma EntriesNext(keys: seq<string>, last: string, m: PublicInputs)
    requires last in m && forall k :: k in keys ==> k in m
    ensures var p := Parse(EntriesOf(keys, m));
      Parse(EntriesOf(keys + [last], m)) == if p.Inputs? then AddEntry(p.inputs, last + "=" + m[last]) else p
  {
    assert (keys + [last])[..|keys|] == keys;
    var e := EntriesOf(keys, m);
    assert (e + [last + "=" + m[last]])[..|e|] == e;
  }

  /** Serializing and parsing give the inputs back exactly when no key is empty or contains '='. */
  lemma PublicInputsRoundTrip(m: PublicInputs)
    ensures Parse(SerializePublicInputs(m)) == Inputs(m) <==> PlainKeys(m)
  {
    var keys := SortedStrings(m.Keys);
    ParsedKeysArePlain(SerializePublicInputs(m));
    if PlainKeys(m) {
      EntriesParse(keys, m);
      assert Restrict(m, keys) == m;
    }
  }

  // ----------------------------------------------------------------- hashes as limbs

  /** `hash_hex_to_limbs`, on lower-case hexadecimal text. */
  function HashHexToLimbs(hex: string): Option<seq<int>> {
    if |hex| != 64 || !IsHex(hex) then None
    else Some([ReadHex(hex[..16]), ReadHex(hex[16..32]), ReadHex(hex[32..48]), ReadHex(hex[48..])])
  }

  lemma LimbsInjective(a: string, b: string)
    requires HashHexToLimbs(a).Some? && HashHexToLimbs(a) == HashHexToLimbs(b)
    ensures a == b
  {
    var x, y := HashHexToLimbs(a).value, HashHexToLimbs(b).value;
    assert x[0] == y[0] && x[1] == y[1] && x[2] == y[2] && x[3] == y[3];
    ReadHexInjective(a[..16], b[..16]);
    ReadHexInjective(a[16..32], b[16..32]);
    ReadHexInjective(a[32..48], b[32..48]);
    ReadHexInjective(a[48..], b[48..]);
    assert a == a[..16] + a[16..32] + a[32..48] + a[48..];
    assert b == b[..16] + b[16..32] + b[32..48] + b[48..];
  }

  /** Every limb is below 2^64. */
  lemma LimbsFit(hex: string, i: nat)
    requires HashHexToLimbs(hex).Some? && i < 4
    ensures 0 <= HashHexToLimbs(hex).value[i] < 0x1_0000_0000_0000_0000
  {
    ReadHexOfLimb(hex[..16]);
    ReadHexOfLimb(hex[16..32]);
    ReadHexOfLimb(hex[32..48]);
    ReadHexOfLimb(hex[48..]);
  }

  lemma ReadHexOfLimb(s: string)
    requires |s| == 16 && IsHex(s)
    ensures 0 <= ReadHex(s) < 0x1_0000_0000_0000_0000
  {
    SixteenDigits();
    ReadHexBound(s);
  }

  lemma SixteenDigits()
    ensures Pow16(16) == 0x1_0000_0000_0000_0000
  {
    assert Pow16(4) == 0x1_0000;
    assert Pow16(8) == 0x1_0000_0000;
    assert Pow16(12) == 0x1_0000_0000_0000;
  }

  const LIMB: int := 0x1_0000_0000_0000_0000

  /** The 256-bit number that four limbs of 64 bits spell, the first one the highest. */
  function Joined(limbs: seq<int>): int
    requires |limbs| == 4
  {
    ((limbs[0] * LIMB + limbs[1]) * LIMB + limbs[2]) * LIMB + limbs[3]
  }

  lemma LimbAppends(a: string, b: string)
    requires |b| == 16
    ensures ReadHex(a + b) == ReadHex(a) * LIMB + ReadHex(b)
  {
    SixteenDigits();
    ReadHexConcat(a, b);
  }

  lemma LimbsSpellHash(hex: string)
    requires HashHexToLimbs(hex).Some?
    ensures Joined(HashHexToLimbs(hex).value) == ReadHex(hex)
  {
    FourLimbs(hex[..16], hex[16..32], hex[32..48], hex[48..]);
    FourParts(hex);
  }

  lemma FourParts(s: string)
    requires |s| == 64
    ensures s[..16] + s[16..32] + s[32..48] + s[48..] == s
  {}

  lemma FourLimbs(a: string, b: string, c: string, d: string)
    requires |b| == |c| == |d| == 16
    ensures Joined([ReadHex(a), ReadHex(b), ReadHex(c), ReadHex(d)]) == ReadHex(a + b + c + d)
  {
    LimbAppends(a, b);
    LimbAppends(a + b, c);
    LimbAppends(a + b + c, d);
  }

  /** `build_instance_values`: the landed cost and three hashes, 13 values. */
  function BuildInstanceValues(landedCost: int, traceHash: string, circuitHash: string, publicInputsHash: string): Option<seq<int>> {
    var t, c, p := HashHexToLimbs(traceHash), HashHexToLimbs(circuitHash), HashHexToLimbs(publicInputsHash);
    if t.Some? && c.Some? && p.Some? then Some([landedCost] + t.value + c.value + p.value) else None
  }

  lemma FourAndFour<T>(a: seq<T>, b: seq<T>, c: seq<T>, a': seq<T>, b': seq<T>, c': seq<T>)
    requires |a| == |a'| && |b| == |b'| && a + b + c == a' + b' + c'
    ensures a == a' && b == b' && c == c'
  {
    assert a == (a + b + c)[..|a|] && a' == (a' + b' + c')[..|a|];
    assert b == (a + b + c)[|a|..|a| + |b|] && b' == (a' + b' + c')[|a|..|a| + |b|];
    assert c == (a + b + c)[|a| + |b|..] && c' == (a' + b' + c')[|a| + |b|..];
  }

  /** The instance determines the landed cost and all three hashes. */
  lemma InstanceDeterminesStatement(l: int, t: string, c: string, p: string, l': int, t': string, c': string, p': string)
    requires BuildInstanceValues(l, t, c, p).Some? && BuildInstanceValues(l, t, c, p) == BuildInstanceValues(l', t', c', p')
    ensures |BuildInstanceValues(l, t, c, p).value| == 13
    ensures l == l' && t == t' && c == c' && p == p'
  {
    FourAndFour([l] + HashHexToLimbs(t).value, HashHexToLimbs(c).value, HashHexToLimbs(p).value,
                [l'] + HashHexToLimbs(t').value, HashHexToLimbs(c').value, HashHexToLimbs(p').value);
    FourAndFour([l], HashHexToLimbs(t).value, [], [l'], HashHexToLimbs(t').value, []);
    LimbsInjective(t, t');
    LimbsInjective(c, c');
    LimbsInjective(p, p');
  }

  lemma Quarters(l: int, t: seq<int>, c: seq<int>, p: seq<int>)
    requires |t| == |c| == |p| == 4
    ensures var x := [l] + t + c + p; |x| == 13 && x[0] == l && x[1..5] == t && x[5..9] == c && x[9..] == p
  {}

  /** The landed cost comes first, then the numbers of the trace, circuit and inputs hashes. */
  lemma InstanceLayout(l: int, t: string, c: string, p: string, x: seq<int>)
    requires BuildInstanceValues(l, t, c, p) == Some(x)
    ensures |x| == 13 && x[0] == l
    ensures Joined(x[1..5]) == ReadHex(t) && Joined(x[5..9]) == ReadHex(c) && Joined(x[9..]) == ReadHex(p)
  {
    Quarters(l, HashHexToLimbs(t).value, HashHexToLimbs(c).value, HashHexToLimbs(p).value);
    LimbsSpellHash(t);
    LimbsSpellHash(c);
    LimbsSpellHash(p);
  }

  // ------------------------------------------------------------- prover and verifier

  function InputsObject(m: PublicInputs): Json {
    Obj(map k | k in m :: Str(m[k]))
  }

  /** `canonical_public_inputs_hash`. */
  function PublicInputsHash(sha: Sha, m: PublicInputs): string {
    JsonHash(sha, InputsObject(m))
  }

  /** The entries of a proof's metadata that bind it; the rest is not read. */
  datatype Metadata = Metadata(
    circuitHash: Option<string>, traceHash: Option<string>, publicInputsHash: Option<string>, verificationKeyId: Option<string>)

  datatype Proof = Proof(
    proofSystem: string, commitments: seq<string>, publicInputs: seq<string>, metadata: Metadata,
    proofBlobHex: string, traceHash: string, finalProof: string)

  /** `metadata.get(key, default)`. */
  function GetOr(entry: Option<string>, default: string): string {
    if entry.Some? then entry.value else default
  }

  function FinalProofObject(blob: string, commitments: seq<string>, publicInputs: seq<string>, circuitHash: string, traceHash: string, publicInputsHash: string): Json {
    Obj(map["proof_bytes" := Str(blob), "commitments" := StrArr(commitments), "public_inputs" := StrArr(publicInputs),
            "proving_system" := Str("plonk"), "circuit_hash" := Str(circuitHash), "trace_hash" := Str(traceHash),
            "public_inputs_hash" := Str(publicInputsHash)])
  }

  /** `_final_proof_hash`, the same in prover and verifier. */
  function FinalProofHash(sha: Sha, blob: string, commitments: seq<string>, publicInputs: seq<string>, circuitHash: string, traceHash: string, publicInputsHash: string): string {
    JsonHash(sha, FinalProofObject(blob, commitments, publicInputs, circuitHash, traceHash, publicInputsHash))
  }

  /** What prover and verifier share: their two hashes, the compiled circuit's hash and key id,
      the fixed-point encoding of a text (None where it is no number), and the backend's verdict
      on a blob for an instance (None where the backend fails). */
  datatype Environment = Environment(
    inputsHash: PublicInputs -> string, finalHash: (string, seq<string>, seq<string>, string, string) -> string,
    circuitHash: string, keyId: string, fixedPoint: string -> Option<int>, backend: (string, seq<int>) -> Option<bool>)

  /** The hashes of the source. */
  ghost predicate Hashes(env: Environment, sha: Sha) {
    && (forall m :: env.inputsHash(m) == PublicInputsHash(sha, m))
    && forall b, c, i, t, u :: env.finalHash(b, c, i, t, u) == FinalProofHash(sha, b, c, i, env.circuitHash, t, u)
  }

  const LANDED_COST: string := "landed_cost"

  /** The instance for a set of public inputs and a trace. */
  function InstanceFor(env: Environment, m: PublicInputs, traceHash: string): Option<seq<int>> {
    if LANDED_COST !in m then None
    else
      match env.fixedPoint(m[LANDED_COST])
      case None => None
      case Some(fp) => BuildInstanceValues(fp, traceHash, env.circuitHash, env.inputsHash(m))
  }

  const PROOF_SYSTEM: string := "plonk"

  /** The witness artifact, and what the backend returns for it. */
  datatype Witness = Witness(traceHash: string, publicInputs: PublicInputs)
  datatype BackendProof = BackendProof(blob: string, commitments: seq<string>, keyId: Option<string>)

  /** `build_plonk_proof`: fails on another trace hash and where there is no instance. */
  function BuildPlonkProof(env: Environment, w: Witness, traceHash: string, b: BackendProof): Option<Proof> {
    if w.traceHash != traceHash || InstanceFor(env, w.publicInputs, traceHash).None? then None
    else
      var entries, hash := SerializePublicInputs(w.publicInputs), env.inputsHash(w.publicInputs);
      var metadata := Metadata(Some(env.circuitHash), Some(traceHash), Some(hash), Some(GetOr(b.keyId, env.keyId)));
      Some(Proof(PROOF_SYSTEM, b.commitments, entries, metadata, b.blob, traceHash,
                 env.finalHash(b.blob, b.commitments, entries, traceHash, hash)))
  }

  predicate IsHash(s: string) {
    |s| == 64 && IsHex(s)
  }

  lemma LimbsExactly(s: string)
    ensures HashHexToLimbs(s).Some? <==> IsHash(s)
  {}

  /** The prover refuses another trace hash, inputs without a landed cost that is a number, and
      hashes that are no 64 hexadecimal digits; nothing else. */
  lemma BuildsExactly(env: Environment, w: Witness, traceHash: string, b: BackendProof)
    ensures BuildPlonkProof(env, w, traceHash, b).Some? <==>
      && w.traceHash == traceHash && IsHash(traceHash) && IsHash(env.circuitHash) && IsHash(env.inputsHash(w.publicInputs))
      && "landed_cost" in w.publicInputs && env.fixedPoint(w.publicInputs["landed_cost"]).Some?
  {
    LimbsExactly(traceHash);
    LimbsExactly(env.circuitHash);
    LimbsExactly(env.inputsHash(w.publicInputs));
    assert LANDED_COST == "landed_cost";
  }

  /** What prover and verifier hand to the backend: the landed cost and the three hashes. */
  lemma InstanceSpellsStatement(env: Environment, m: PublicInputs, traceHash: string, x: seq<int>)
    requires InstanceFor(env, m, traceHash) == Some(x)
    ensures |x| == 13 && "landed_cost" in m && env.fixedPoint(m["landed_cost"]) == Some(x[0])
    ensures Joined(x[1..5]) == ReadHex(traceHash) && Joined(x[5..9]) == ReadHex(env.circuitHash)
    ensures Joined(x[9..]) == ReadHex(env.inputsHash(m))
  {
    InstanceLayout(env.fixedPoint(m[LANDED_COST]).value, traceHash, env.circuitHash, env.inputsHash(m), x);
  }

  /** The final proof that the verifier expects. */
  function ExpectedFinal(env: Environment, p: Proof, m: PublicInputs): string {
    env.finalHash(p.proofBlobHex, p.commitments, p.publicInputs, p.traceHash, env.inputsHash(m))
  }

  /** What each binding check of the verifier finds on the parsed inputs: two of them compare
      digests and raise on text beyond ASCII. */
  function Verdict(env: Environment, p: Proof, m: PublicInputs, check: Check): Option<bool>
    requires check in BINDINGS
  {
    match check
    case CircuitHash => Some(GetOr(p.metadata.circuitHash, "") == env.circuitHash)
    case TraceHash => Some(GetOr(p.metadata.traceHash, p.traceHash) == p.traceHash)
    case InputsHash => ConstantTimeEqual(env.inputsHash(m), GetOr(p.metadata.publicInputsHash, ""))
    case FinalProof => ConstantTimeEqual(ExpectedFinal(env, p, m), p.finalProof)
    case VerificationKey => Some(GetOr(p.metadata.verificationKeyId, "") == "" || GetOr(p.metadata.verificationKeyId, "") == env.keyId)
  }

  predicate Passes(env: Environment, p: Proof, m: PublicInputs, check: Check)
    requires check in BINDINGS
  {
    Verdict(env, p, m, check) == Some(true)
  }

  predicate Bindings(env: Environment, p: Proof, m: PublicInputs) {
    && Passes(env, p, m, CircuitHash) && Passes(env, p, m, TraceHash) && Passes(env, p, m, InputsHash)
    && Passes(env, p, m, FinalProof) && Passes(env, p, m, VerificationKey)
  }

  /** Everything the verifier checks before it asks the backend. */
  predicate Bound(env: Environment, p: Proof) {
    && p.proofSystem == PROOF_SYSTEM && Parse(p.publicInputs).Inputs?
    && LANDED_COST in Parse(p.publicInputs).inputs && Bindings(env, p, Parse(p.publicInputs).inputs)
  }

  /** The backend's answer for the rebuilt instance, if there is an instance and an answer. */
  function BackendAnswer(env: Environment, p: Proof, m: PublicInputs): Option<bool> {
    var instance := InstanceFor(env, m, p.traceHash);
    if instance.None? then None else env.backend(p.proofBlobHex, instance.value)
  }

  predicate BackendAccepts(env: Environment, p: Proof, m: PublicInputs) {
    BackendAnswer(env, p, m) == Some(true)
  }

  datatype Check =
    | ProofSystem | ParseInputs | LandedCost | CompileCircuit | CircuitHash | TraceHash | InputsHash | FinalProof
    | VerificationKey | BackendError | Backend

  /** The binding checks in the verifier's order. */
  const BINDINGS: seq<Check> := [CircuitHash, TraceHash, InputsHash, FinalProof, VerificationKey]

  /** The checks that a valid result lists, in order. */
  const STAGES: seq<Check> := [ParseInputs, CompileCircuit] + BINDINGS + [Backend]

  /** The passed checks in order, and the one that failed; BackendError is an exception while
      the inputs are parsed, digests compared, the instance rebuilt or the backend asked. */
  datatype Verification = Verification(passed: seq<Check>, failed: Option<Check>)

  /** The binding checks on parsed inputs, up to the first that fails or raises. */
  method CheckBindings(env: Environment, p: Proof, m: PublicInputs) returns (passed: seq<Check>, raised: bool)
    ensures passed <= BINDINGS
    ensures forall k :: 0 <= k < |passed| ==> Passes(env, p, m, BINDINGS[k])
    ensures |passed| < |BINDINGS| ==> Verdict(env, p, m, BINDINGS[|passed|]) == if raised then None else Some(false)
    ensures raised ==> |passed| < |BINDINGS|
  {
    if GetOr(p.metadata.circuitHash, "") != env.circuitHash {
      return [], false;
    }
    if GetOr(p.metadata.traceHash, p.traceHash) != p.traceHash {
      return [CircuitHash], false;
    }
    var publicInputsHash := env.inputsHash(m);
    var sameInputs := ConstantTimeEqual(publicInputsHash, GetOr(p.metadata.publicInputsHash, ""));
    if sameInputs != Some(true) {
      return [CircuitHash, TraceHash], sameInputs.None?;
    }
    var expected := env.finalHash(p.proofBlobHex, p.commitments, p.publicInputs, p.traceHash, publicInputsHash);
    var sameFinal := ConstantTimeEqual(expected, p.finalProof);
    if sameFinal != Some(true) {
      return [CircuitHash, TraceHash, InputsHash], sameFinal.None?;
    }
    var keyId := GetOr(p.metadata.verificationKeyId, "");
    if keyId != "" && keyId != env.keyId {
      return [CircuitHash, TraceHash, InputsHash, FinalProof], false;
    }
    return [CircuitHash, TraceHash, InputsHash, FinalProof, VerificationKey], false;
  }

  /** The one failure of a proof that is not accepted, and the checks passed before it. */
  ghost predicate FailsAt(env: Environment, p: Proof, passed: seq<Check>, failed: Check) {
    var parsed := Parse(p.publicInputs);
    match failed
    case ProofSystem => p.proofSystem != PROOF_SYSTEM && passed == []
    case LandedCost => p.proofSystem == PROOF_SYSTEM && parsed.Inputs? && LANDED_COST !in parsed.inputs && passed == [ParseInputs]
    case Backend => Bound(env, p) && BackendAnswer(env, p, parsed.inputs) == Some(false) && passed == [ParseInputs, CompileCircuit] + BINDINGS
    case BackendError => RaisesAt(env, p, passed)
    case ParseInputs => false
    case CompileCircuit => false
    case _ =>
      && p.proofSystem == PROOF_SYSTEM && parsed.Inputs? && LANDED_COST in parsed.inputs
      && exists k :: EndsAtBinding(env, p, parsed.inputs, passed, k, Some(false)) && failed == BINDINGS[k]
  }

  /** The exceptions: a bad entry, a digest comparison, no instance, or no answer. */
  ghost predicate RaisesAt(env: Environment, p: Proof, passed: seq<Check>) {
    var parsed := Parse(p.publicInputs);
    && p.proofSystem == PROOF_SYSTEM
    && if !parsed.Inputs? then passed == []
       else
         && LANDED_COST in parsed.inputs
         && ((exists k :: EndsAtBinding(env, p, parsed.inputs, passed, k, None))
             || (Bound(env, p) && BackendAnswer(env, p, parsed.inputs).None? && passed == [ParseInputs, CompileCircuit] + BINDINGS))
  }

  /** The k-th binding check ends the verification with this verdict, and all before it pass. */
  ghost predicate EndsAtBinding(env: Environment, p: Proof, m: PublicInputs, passed: seq<Check>, k: int, verdict: Option<bool>) {
    && 0 <= k < |BINDINGS| && Verdict(env, p, m, BINDINGS[k]) == verdict
    && passed == [ParseInputs, CompileCircuit] + BINDINGS[..k]
    && forall j :: 0 <= j < k ==> Passes(env, p, m, BINDINGS[j])
  }

  lemma BindingEnds(env: Environment, p: Proof, m: PublicInputs, checked: seq<Check>, raised: bool)
    requires p.proofSystem == PROOF_SYSTEM && Parse(p.publicInputs) == Inputs(m) && LANDED_COST in m
    requires checked <= BINDINGS && |checked| < |BINDINGS| && forall k :: 0 <= k < |checked| ==> Passes(env, p, m, BINDINGS[k])
    requires Verdict(env, p, m, BINDINGS[|checked|]) == if raised then None else Some(false)
    ensures FailsAt(env, p, [ParseInputs, CompileCircuit] + checked, if raised then BackendError else BINDINGS[|checked|])
  {
    var passed := [ParseInputs, CompileCircuit] + checked;
    assert checked == BINDINGS[..|checked|];
    assert EndsAtBinding(env, p, m, passed, |checked|, if raised then None else Some(false));
  }

  /** The request to the backend, once every binding check has passed. */
  method AskBackend(env: Environment, p: Proof, m: PublicInputs) returns (answer: Option<bool>)
    ensures answer == BackendAnswer(env, p, m)
  {
    var instance := InstanceFor(env, m, p.traceHash);
    if instance.None? {
      return None;
    }
    answer := env.backend(p.proofBlobHex, instance.value);
  }

  lemma BackendEnds(env: Environment, p: Proof, m: PublicInputs, passed: seq<Check>)
    requires Bound(env, p) && Parse(p.publicInputs) == Inputs(m) && passed == [ParseInputs, CompileCircuit] + BINDINGS
    ensures match BackendAnswer(env, p, m)
      case None => FailsAt(env, p, passed, BackendError)
      case Some(accepted) => if accepted then passed + [Backend] == STAGES else FailsAt(env, p, passed, Backend)
  {}

  /** What is left of the verification once the landed cost is found. */
  method VerifyParsed(env: Environment, p: Proof, m: PublicInputs) returns (result: Verification)
    requires p.proofSystem == PROOF_SYSTEM && Parse(p.publicInputs) == Inputs(m) && LANDED_COST in m
    ensures result.failed.None? <==> Bound(env, p) && BackendAccepts(env, p, m)
    ensures result.failed.None? ==> result.passed == STAGES
    ensures result.failed.Some? ==> FailsAt(env, p, result.passed, result.failed.value)
  {
    var checked, raised := CheckBindings(env, p, m);
    var checks := [ParseInputs, CompileCircuit] + checked;
    AllBindings(env, p, m);
    if |checked| < |BINDINGS| {
      BindingEnds(env, p, m, checked, raised);
      return Verification(checks, Some(if raised then BackendError else BINDINGS[|checked|]));
    }
    var response := AskBackend(env, p, m);
    BackendEnds(env, p, m, checks);
    if response.None? {
      return Verification(checks, Some(BackendError));
    }
    return if response.value then Verification(checks + [Backend], None) else Verification(checks, Some(Backend));
  }

  /** The answer to a proof: all checks for one that is bound and accepted, the failure of any other. */
  ghost predicate Answers(env: Environment, p: Proof, result: Verification) {
    if result.failed.None? then result.passed == STAGES && Bound(env, p) && BackendAccepts(env, p, Parse(p.publicInputs).inputs)
    else FailsAt(env, p, result.passed, result.failed.value)
  }

  /** `verify_plonk_proof`; an exception anywhere is an invalid result. */
  method VerifyPlonkProof(env: Environment, p: Proof) returns (result: Verification)
    ensures Answers(env, p, result)
    ensures result.failed.None? <==> Bound(env, p) && BackendAccepts(env, p, Parse(p.publicInputs).inputs)
    ensures result.failed.None? ==> result.passed == STAGES
    ensures result.failed.Some? ==> FailsAt(env, p, result.passed, result.failed.value)
  {
    if p.proofSystem != PROOF_SYSTEM {
      return Verification([], Some(ProofSystem));
    }
    var parsed := ParsePublicInputs(p.publicInputs);
    if !parsed.Inputs? {
      return Verification([], Some(BackendError));
    }
    if LANDED_COST !in parsed.inputs {
      return Verification([ParseInputs], Some(LandedCost));
    }
    result := VerifyParsed(env, p, parsed.inputs);
  }

  // ------------------------------------------------------------------- tampering

  /** A proof that parses and whose first k binding checks pass and the next fails has one
      answer: that check. */
  lemma OneAnswer(env: Environment, p: Proof, m: PublicInputs, k: nat, result: Verification)
    requires p.proofSystem == PROOF_SYSTEM && Parse(p.publicInputs) == Inputs(m) && LANDED_COST in m && Answers(env, p, result)
    requires k < |BINDINGS| && Verdict(env, p, m, BINDINGS[k]) == Some(false) && forall j :: 0 <= j < k ==> Passes(env, p, m, BINDINGS[j])
    ensures result == Verification([ParseInputs, CompileCircuit] + BINDINGS[..k], Some(BINDINGS[k]))
  {
    AllBindings(env, p, m);
    if result.failed.Some? {
      var failed, verdict := result.failed.value, if result.failed.value == BackendError then None else Some(false);
      if i :| EndsAtBinding(env, p, m, result.passed, i, verdict) && (failed == BackendError || failed == BINDINGS[i]) {
        assert !(i < k) && !(k < i);
      }
    }
  }

  /** Replacing the circuit hash in the metadata of a proof whose bindings all hold: the verifier
      stops at the circuit hash check, the first of the bindings. */
  lemma TamperedCircuitHash(env: Environment, p: Proof, x: string, result: Verification)
    requires Bound(env, p) && x != env.circuitHash
    requires Answers(env, p.(metadata := p.metadata.(circuitHash := Some(x))), result)
    ensures result == Verification([ParseInputs, CompileCircuit], Some(CircuitHash))
  {
    var q, m := p.(metadata := p.metadata.(circuitHash := Some(x))), Parse(p.publicInputs).inputs;
    assert Verdict(env, q, m, BINDINGS[0]) == Some(false);
    OneAnswer(env, q, m, 0, result);
  }

  /** Another trace hash in the metadata. */
  lemma TamperedTraceHash(env: Environment, p: Proof, x: string, result: Verification)
    requires Bound(env, p) && x != p.traceHash
    requires Answers(env, p.(metadata := p.metadata.(traceHash := Some(x))), result)
    ensures result == Verification([ParseInputs, CompileCircuit, CircuitHash], Some(TraceHash))
  {
    var q, m := p.(metadata := p.metadata.(traceHash := Some(x))), Parse(p.publicInputs).inputs;
    assert Verdict(env, q, m, BINDINGS[1]) == Some(false) && Passes(env, q, m, BINDINGS[0]);
    OneAnswer(env, q, m, 1, result);
  }

  /** Another inputs hash in the metadata. */
  lemma TamperedInputsHash(env: Environment, p: Proof, x: string, result: Verification)
    requires AsciiHashes(env) && Bound(env, p) && IsAscii(x) && x != GetOr(p.metadata.publicInputsHash, "")
    requires Answers(env, p.(metadata := p.metadata.(publicInputsHash := Some(x))), result)
    ensures result == Verification([ParseInputs, CompileCircuit, CircuitHash, TraceHash], Some(InputsHash))
  {
    var q, m := p.(metadata := p.metadata.(publicInputsHash := Some(x))), Parse(p.publicInputs).inputs;
    assert Passes(env, p, m, BINDINGS[2]);
    assert Verdict(env, q, m, BINDINGS[2]) == Some(false) && Passes(env, q, m, BINDINGS[0]) && Passes(env, q, m, BINDINGS[1]);
    OneAnswer(env, q, m, 2, result);
  }

  /** Another final proof. */
  lemma TamperedFinalProof(env: Environment, p: Proof, x: string, result: Verification)
    requires AsciiHashes(env) && Bound(env, p) && IsAscii(x) && x != p.finalProof
    requires Answers(env, p.(finalProof := x), result)
    ensures result == Verification([ParseInputs, CompileCircuit, CircuitHash, TraceHash, InputsHash], Some(FinalProof))
  {
    var q, m := p.(finalProof := x), Parse(p.publicInputs).inputs;
    assert Passes(env, p, m, BINDINGS[3]);
    assert Verdict(env, q, m, BINDINGS[3]) == Some(false);
    assert Passes(env, q, m, BINDINGS[0]) && Passes(env, q, m, BINDINGS[1]) && Passes(env, q, m, BINDINGS[2]);
    OneAnswer(env, q, m, 3, result);
  }

  /** Another verification key id, unless it is empty. */
  lemma TamperedKeyId(env: Environment, p: Proof, x: string, result: Verification)
    requires Bound(env, p) && x != env.keyId && x != ""
    requires Answers(env, p.(metadata := p.metadata.(verificationKeyId := Some(x))), result)
    ensures result == Verification([ParseInputs, CompileCircuit, CircuitHash, TraceHash, InputsHash, FinalProof], Some(VerificationKey))
  {
    var q, m := p.(metadata := p.metadata.(verificationKeyId := Some(x))), Parse(p.publicInputs).inputs;
    assert Verdict(env, q, m, BINDINGS[4]) == Some(false);
    assert Passes(env, q, m, BINDINGS[0]) && Passes(env, q, m, BINDINGS[1]) && Passes(env, q, m, BINDINGS[2]) && Passes(env, q, m, BINDINGS[3]);
    OneAnswer(env, q, m, 4, result);
  }

  /** Text beyond ASCII in place of the inputs hash or the final proof: the exception is caught. */
  lemma NonAsciiIsBackendError(env: Environment, p: Proof, x: string, result: Verification)
    requires Bound(env, p) && !IsAscii(x) && Answers(env, p.(finalProof := x), result)
    ensures result == Verification([ParseInputs, CompileCircuit, CircuitHash, TraceHash, InputsHash], Some(BackendError))
  {
    var q, m := p.(finalProof := x), Parse(p.publicInputs).inputs;
    AllBindings(env, q, m);
    assert Verdict(env, q, m, BINDINGS[3]) == None;
    assert Passes(env, q, m, BINDINGS[0]) && Passes(env, q, m, BINDINGS[1]) && Passes(env, q, m, BINDINGS[2]);
    var verdict := if result.failed == Some(BackendError) then None else Some(false);
    if i :| EndsAtBinding(env, q, m, result.passed, i, verdict) {
      assert !(i < 3) && !(3 < i);
    }
  }

  /** What a proof may leave out: without a trace hash or a key id in its metadata, or with an
      empty key id, its bindings still hold; without a circuit hash they do not. */
  lemma MissingMetadata(env: Environment, p: Proof)
    requires Bound(env, p)
    ensures Bound(env, p.(metadata := p.metadata.(traceHash := None)))
    ensures Bound(env, p.(metadata := p.metadata.(verificationKeyId := None)))
    ensures Bound(env, p.(metadata := p.metadata.(verificationKeyId := Some(""))))
    ensures Bound(env, p.(metadata := p.metadata.(circuitHash := None))) <==> env.circuitHash == ""
  {}

  /** The proof system, the parsed inputs and the landed cost are checked before. */
  lemma EarlyAnswers(env: Environment, p: Proof, result: Verification)
    requires Answers(env, p, result)
    ensures p.proofSystem != "plonk" ==> result == Verification([], Some(ProofSystem))
    ensures p.proofSystem == "plonk" && !Parse(p.publicInputs).Inputs? ==> result == Verification([], Some(BackendError))
    ensures p.proofSystem == "plonk" && Parse(p.publicInputs).Inputs? && "landed_cost" !in Parse(p.publicInputs).inputs
            ==> result == Verification([ParseInputs], Some(LandedCost))
  {}

  lemma AllBindings(env: Environment, p: Proof, m: PublicInputs)
    ensures Bindings(env, p, m) <==> forall k :: 0 <= k < |BINDINGS| ==> Passes(env, p, m, BINDINGS[k])
  {
    assert BINDINGS[0] == CircuitHash && BINDINGS[1] == TraceHash && BINDINGS[2] == InputsHash;
    assert BINDINGS[3] == FinalProof && BINDINGS[4] == VerificationKey;
  }

  /** Both hashes are ASCII text, as hexadecimal digests are. */
  ghost predicate AsciiHashes(env: Environment) {
    (forall m :: IsAscii(env.inputsHash(m))) && forall b, c, i, t, u :: IsAscii(env.finalHash(b, c, i, t, u))
  }

  lemma HashesAreAscii(env: Environment, sha: Sha)
    requires Hashes(env, sha) && AsciiDigest(sha)
    ensures AsciiHashes(env)
  {}

  /** The verifier rebuilds exactly the prover's instance and hashes: an honest proof passes
      every binding check, and the backend is asked about the instance it proved. */
  lemma HonestProofReachesBackend(env: Environment, w: Witness, b: BackendProof)
    requires PlainKeys(w.publicInputs) && BuildPlonkProof(env, w, w.traceHash, b).Some? && AsciiHashes(env)
    requires GetOr(b.keyId, "") == "" || b.keyId.value == env.keyId
    ensures var p, prover := BuildPlonkProof(env, w, w.traceHash, b).value, InstanceFor(env, w.publicInputs, w.traceHash);
      && Bound(env, p) && InstanceFor(env, Parse(p.publicInputs).inputs, p.traceHash) == prover
      && (BackendAccepts(env, p, Parse(p.publicInputs).inputs) <==> env.backend(b.blob, prover.value) == Some(true))
  {
    var p := BuildPlonkProof(env, w, w.traceHash, b).value;
    PublicInputsRoundTrip(w.publicInputs);
    assert p.publicInputs == SerializePublicInputs(w.publicInputs);
    BoundByConstruction(env, p, w.publicInputs, GetOr(b.keyId, env.keyId));
  }

  lemma BoundByConstruction(env: Environment, p: Proof, m: PublicInputs, keyId: string)
    requires AsciiHashes(env) && (keyId == "" || keyId == env.keyId) && p.finalProof == ExpectedFinal(env, p, m)
    requires p.metadata == Metadata(Some(env.circuitHash), Some(p.traceHash), Some(env.inputsHash(m)), Some(keyId))
    ensures Bindings(env, p, m)
  {}

  /** The text under a proof's final hash. */
  function FinalObjectOf(env: Environment, p: Proof, hash: string): Json {
    FinalProofObject(p.proofBlobHex, p.commitments, p.publicInputs, env.circuitHash, p.traceHash, hash)
  }

  /** Two proofs that pass the binding checks with the same final proof are, unless their texts
      collide, proofs of the same public inputs and trace with the same bytes and commitments. */
  lemma FinalProofBinds(env: Environment, sha: Sha, p: Proof, q: Proof)
    requires Hashes(env, sha) && Bound(env, p) && Bound(env, q) && p.finalProof == q.finalProof
    requires SeparatesJson(sha, FinalObjectOf(env, p, env.inputsHash(Parse(p.publicInputs).inputs)), FinalObjectOf(env, q, env.inputsHash(Parse(q.publicInputs).inputs)))
    ensures p.proofBlobHex == q.proofBlobHex && p.commitments == q.commitments
    ensures p.publicInputs == q.publicInputs && p.traceHash == q.traceHash
  {
    var h, t := env.inputsHash(Parse(p.publicInputs).inputs), env.inputsHash(Parse(q.publicInputs).inputs);
    FinalHashBinds(sha, p.proofBlobHex, p.commitments, p.publicInputs, env.circuitHash, p.traceHash, h,
                   q.proofBlobHex, q.commitments, q.publicInputs, env.circuitHash, q.traceHash, t);
  }

  lemma FinalHashBinds(sha: Sha, b: string, c: seq<string>, i: seq<string>, h: string, t: string, u: string,
                       b': string, c': seq<string>, i': seq<string>, h': string, t': string, u': string)
    requires SeparatesJson(sha, FinalProofObject(b, c, i, h, t, u), FinalProofObject(b', c', i', h', t', u'))
    requires FinalProofHash(sha, b, c, i, h, t, u) == FinalProofHash(sha, b', c', i', h', t', u')
    ensures b == b' && c == c' && i == i' && t == t'
  {
    JsonHashBinds(sha, FinalProofObject(b, c, i, h, t, u), FinalProofObject(b', c', i', h', t', u'));
    FinalObjectInjective(b, c, i, h, t, u, b', c', i', h', t', u');
  }

  lemma FinalObjectInjective(b: string, c: seq<string>, i: seq<string>, h: string, t: string, u: string,
                             b': string, c': seq<string>, i': seq<string>, h': string, t': string, u': string)
    requires FinalProofObject(b, c, i, h, t, u) == FinalProofObject(b', c', i', h', t', u')
    ensures b == b' && c == c' && i == i' && t == t'
  {
    var f, g := FinalProofObject(b, c, i, h, t, u).fields, FinalProofObject(b', c', i', h', t', u').fields;
    assert f["proof_bytes"] == g["proof_bytes"];
    assert f["commitments"] == g["commitments"];
    assert f["public_inputs"] == g["public_inputs"];
    assert f["trace_hash"] == g["trace_hash"];
    StrArrInjective(c, c');
    StrArrInjective(i, i');
  }
}
