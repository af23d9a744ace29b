/** The hashes of sdk/python/vrl/hashing.py. SHA-256 is an uninterpreted function `sha`;
    wherever a hash is said to bind its inputs, it is a hypothesis that `sha` does not collide
    on the texts in question. */
module VrlHashing {
  import opened CanonicalJson
  import opened JsonReader
  import opened Text

  type Sha = string -> string

  /** The two texts are no collision. */
  predicate Separates(sha: Sha, a: string, b: string) {
    sha(a) == sha(b) ==> a == b
  }

  predicate SeparatesJson(sha: Sha, v: Json, w: Json) {
    Separates(sha, Canonical(v), Canonical(w))
  }

  ghost predicate AsciiDigest(sha: Sha) {
    forall a :: IsAscii(sha(a))
  }

  ghost predicate Digest64(sha: Sha) {
    forall a :: |sha(a)| == 64
  }

  function StrArr(xs: seq<string>): Json {
    Arr(seq(|xs|, i requires 0 <= i < |xs| => Str(xs[i])))
  }

  function JsonHash(sha: Sha, v: Json): string {
    sha(Canonical(v))
  }

  /** compute_input_hash, compute_output_hash and compute_trace_hash are this hash: unless the
      texts collide, equal hashes mean equal objects, whatever their key order. */
  lemma JsonHashBinds(sha: Sha, v: Json, w: Json)
    requires SeparatesJson(sha, v, w) && JsonHash(sha, v) == JsonHash(sha, w)
    ensures v == w
  {
    UniquelyDecodable(v, w);
  }

  datatype AiIdentity = AiIdentity(
    modelWeightsHash: string, runtimeHash: string, configHash: string,
    providerId: string, modelName: string, modelVersion: string)

  function AiIdObject(a: AiIdentity): Json {
    Obj(map[
      "model_weights_hash" := Str(a.modelWeightsHash),
      "runtime_hash" := Str(a.runtimeHash),
      "config_hash" := Str(a.configHash),
      "provider_id" := Str(a.providerId),
      "model_name" := Str(a.modelName),
      "model_version" := Str(a.modelVersion),
      "spec_version" := Str("vrl/ai-id/1.0")])
  }

  function AiId(sha: Sha, a: AiIdentity): string {
    JsonHash(sha, AiIdObject(a))
  }

  lemma AiIdObjectInjective(a: AiIdentity, b: AiIdentity)
    requires AiIdObject(a) == AiIdObject(b)
    ensures a == b
  {
    var f, g := AiIdObject(a).fields, AiIdObject(b).fields;
    assert f["model_weights_hash"] == g["model_weights_hash"];
    assert f["runtime_hash"] == g["runtime_hash"];
    assert f["config_hash"] == g["config_hash"];
    assert f["provider_id"] == g["provider_id"];
    assert f["model_name"] == g["model_name"];
    assert f["model_version"] == g["model_version"];
  }

  lemma AiIdBinds(sha: Sha, a: AiIdentity, b: AiIdentity)
    requires SeparatesJson(sha, AiIdObject(a), AiIdObject(b)) && AiId(sha, a) == AiId(sha, b)
    ensures a == b
  {
    JsonHashBinds(sha, AiIdObject(a), AiIdObject(b));
    AiIdObjectInjective(a, b);
  }

  datatype ProofParts = ProofParts(
    circuitHash: string, proofBytes: string, publicInputs: seq<string>,
    proofSystem: string, traceHash: string)

  function ProofObject(sha: Sha, x: ProofParts): Json {
    Obj(map[
      "circuit_hash" := Str(x.circuitHash),
      "proof_bytes" := Str(x.proofBytes),
      "proof_system" := Str(x.proofSystem),
      "public_inputs" := StrArr(x.publicInputs),
      "public_inputs_hash" := Str(JsonHash(sha, StrArr(x.publicInputs))),
      "trace_hash" := Str(x.traceHash)])
  }

  function ProofHash(sha: Sha, x: ProofParts): string {
    JsonHash(sha, ProofObject(sha, x))
  }

  lemma StrArrInjective(xs: seq<string>, ys: seq<string>)
    requires StrArr(xs) == StrArr(ys)
    ensures xs == ys
  {
    var a, b := StrArr(xs).items, StrArr(ys).items;
    forall i | 0 <= i < |xs| ensures xs[i] == ys[i] {
      assert a[i] == b[i];
    }
  }

  lemma ProofObjectInjective(sha: Sha, x: ProofParts, y: ProofParts)
    requires ProofObject(sha, x) == ProofObject(sha, y)
    ensures x == y
  {
    var f, g := ProofObject(sha, x).fields, ProofObject(sha, y).fields;
    assert f["circuit_hash"] == g["circuit_hash"];
    assert f["proof_bytes"] == g["proof_bytes"];
    assert f["proof_system"] == g["proof_system"];
    assert f["public_inputs"] == g["public_inputs"];
    assert f["trace_hash"] == g["trace_hash"];
    StrArrInjective(x.publicInputs, y.publicInputs);
  }

  /** Two proofs with one proof hash agree in every part, public inputs in order included. */
  lemma ProofHashBinds(sha: Sha, x: ProofParts, y: ProofParts)
    requires SeparatesJson(sha, ProofObject(sha, x), ProofObject(sha, y)) && ProofHash(sha, x) == ProofHash(sha, y)
    ensures x == y
  {
    JsonHashBinds(sha, ProofObject(sha, x), ProofObject(sha, y));
    ProofObjectInjective(sha, x, y);
  }

  function IntegrityHash(sha: Sha, inputHash: string, outputHash: string, traceHash: string): string {
    sha(inputHash + outputHash + traceHash)
  }

  /** The separator-free concatenation binds its three parts exactly when their lengths agree,
      as they do for 64-character digests. */
  lemma IntegrityHashBinds(sha: Sha, i: string, o: string, t: string, i': string, o': string, t': string)
    requires Separates(sha, i + o + t, i' + o' + t') && IntegrityHash(sha, i, o, t) == IntegrityHash(sha, i', o', t')
    ensures i == i' && o == o' && t == t' <==> |i| == |i'| && |o| == |o'|
  {
    assert (i + o) + t == (i' + o') + t';
    if |i| == |i'| && |o| == |o'| {
      CutFront(i + o, i' + o', t, t');
      CutFront(i, i', o, o');
    }
  }

  /** Without the length agreement it binds nothing but the concatenation. */
  lemma IntegrityHashNeedsLengths(sha: Sha)
    ensures IntegrityHash(sha, "ab", "c", "") == IntegrityHash(sha, "a", "bc", "")
  {
    assert "ab" + "c" + "" == "a" + "bc" + "";
  }
}
