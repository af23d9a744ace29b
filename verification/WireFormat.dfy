/** The hashed objects as they are written: which members, in which order. */
module WireFormat {
  import opened Common
  import opened Ordering
  import opened Text
  import opened CanonicalJson
  import opened VrlHashing
  import opened AuditChain
  import PlonkBinding

  function Braces(members: seq<string>): string {
    "{" + Join(members) + "}"
  }

  // ------------------------------------------------------------------- key order

  lemma {:induction false} NeighboursSuffice(ks: seq<string>)
    requires forall i :: 0 < i < |ks| ==> CodePointLess(ks[i - 1], ks[i])
    ensures Increasing(ks, StringLess)
  {
    if |ks| > 1 {
      var m := |ks| - 1;
      NeighboursSuffice(ks[..m]);
      StringLessIsCodePointLess(ks[m - 1], ks[m]);
      StringLessOrder();
      forall i | 0 <= i < m ensures StringLess(ks[i], ks[m]) {
        assert i < m - 1 ==> StringLess(ks[..m][i], ks[..m][m - 1]);
      }
      forall i, j | 0 <= i < j < m ensures StringLess(ks[i], ks[j]) {
        assert StringLess(ks[..m][i], ks[..m][j]);
      }
    }
  }

  /** There is one increasing list of a set. */
  lemma {:induction false} OneIncreasingList(a: seq<string>, b: seq<string>)
    requires Increasing(a, StringLess) && Increasing(b, StringLess) && forall x :: x in a <==> x in b
    ensures a == b
  {
    StringLessOrder();
    if b != [] {
      assert b[0] in b;
      assert b[0] in a;
    }
    if a != [] {
      assert a[0] in b;
      assert a[0] == b[0];
      forall x ensures x in a[1..] <==> x in b[1..] {
        assert x in a <==> x == a[0] || x in a[1..];
        assert x in b <==> x == b[0] || x in b[1..];
        assert a[0] !in a[1..] && b[0] !in b[1..];
      }
      OneIncreasingList(a[1..], b[1..]);
      assert a == [a[0]] + a[1..] && b == [b[0]] + b[1..];
    }
  }

  lemma KeysAre(f: map<string, Json>, ks: seq<string>)
    requires (forall k :: k in ks <==> k in f) && forall i :: 0 < i < |ks| ==> CodePointLess(ks[i - 1], ks[i])
    ensures SortedStrings(f.Keys) == ks
  {
    NeighboursSuffice(ks);
    OneIncreasingList(SortedStrings(f.Keys), ks);
  }

  /** An object is written with its members in the order of their keys. */
  ghost predicate WrittenAs(f: map<string, Json>, ks: seq<string>) {
    KeysOf(ks, f) && Canonical(Obj(f)) == Braces(PairTexts(ks, f))
  }

  lemma MembersInOrder(f: map<string, Json>, ks: seq<string>)
    requires (forall k :: k in f ==> k in ks) && KeysOf(ks, f)
    requires forall i :: 0 < i < |ks| ==> CodePointLess(ks[i - 1], ks[i])
    ensures WrittenAs(f, ks)
  {
    KeysAre(f, ks);
    ObjectText(f);
  }

  /** The order of two keys that differ after a common part. */
  lemma KeyOrder(common: string, x: string, y: string)
    requires y != "" && (x == "" || x[0] < y[0])
    ensures CodePointLess(common + x, common + y)
  {
    var a, b, k := common + x, common + y, |common|;
    assert a[..k] == common && b[..k] == common;
    assert LessAt(a, b, k);
  }

  lemma FirstLess(a: string, b: string)
    requires a != "" && b != "" && a[0] < b[0]
    ensures CodePointLess(a, b)
  {
    assert LessAt(a, b, 0);
  }

  lemma Extends(a: string, x: string)
    requires x != ""
    ensures CodePointLess(a, a + x)
  {
    KeyOrder(a, "", x);
    assert a + "" == a;
  }

  lemma PayloadBeforeType()
    ensures CodePointLess("event_payload", "event_type")
  {
    KeyOrder("event_", "payload", "type");
    assert "event_" + "payload" == "event_payload" && "event_" + "type" == "event_type";
  }

  lemma NameBeforeVersion()
    ensures CodePointLess("model_name", "model_version")
  {
    KeyOrder("model_", "name", "version");
    assert "model_" + "name" == "model_name" && "model_" + "version" == "model_version";
  }

  lemma VersionBeforeWeights()
    ensures CodePointLess("model_version", "model_weights_hash")
  {
    KeyOrder("model_", "version", "weights_hash");
    assert "model_" + "version" == "model_version" && "model_" + "weights_hash" == "model_weights_hash";
  }

  lemma BytesBeforeSystem()
    ensures CodePointLess("proof_bytes", "proof_system")
  {
    KeyOrder("proof_", "bytes", "system");
    assert "proof_" + "bytes" == "proof_bytes" && "proof_" + "system" == "proof_system";
  }

  lemma SystemBeforeInputs()
    ensures CodePointLess("proof_system", "public_inputs")
  {
    KeyOrder("p", "roof_system", "ublic_inputs");
    assert "p" + "roof_system" == "proof_system" && "p" + "ublic_inputs" == "public_inputs";
  }

  lemma InputsBeforeHash()
    ensures CodePointLess("public_inputs", "public_inputs_hash")
  {
    Extends("public_inputs", "_hash");
    assert "public_inputs" + "_hash" == "public_inputs_hash";
  }

  lemma CircuitBeforeCommitments()
    ensures CodePointLess("circuit_hash", "commitments")
  {
    KeyOrder("c", "ircuit_hash", "ommitments");
    assert "c" + "ircuit_hash" == "circuit_hash" && "c" + "ommitments" == "commitments";
  }

  lemma BytesBeforeProving()
    ensures CodePointLess("proof_bytes", "proving_system")
  {
    KeyOrder("pro", "of_bytes", "ving_system");
    assert "pro" + "of_bytes" == "proof_bytes" && "pro" + "ving_system" == "proving_system";
  }

  lemma ProvingBeforeInputs()
    ensures CodePointLess("proving_system", "public_inputs")
  {
    KeyOrder("p", "roving_system", "ublic_inputs");
    assert "p" + "roving_system" == "proving_system" && "p" + "ublic_inputs" == "public_inputs";
  }

  lemma SevenKeys(f: map<string, Json>, a: string, b: string, c: string, d: string, e: string, x: string, y: string)
    requires f.Keys == {a, b, c, d, e, x, y} && CodePointLess(a, b) && CodePointLess(b, c) && CodePointLess(c, d)
    requires CodePointLess(d, e) && CodePointLess(e, x) && CodePointLess(x, y)
    ensures WrittenAs(f, [a, b, c, d, e, x, y])
  {
    var ks := [a, b, c, d, e, x, y];
    forall i | 0 < i < |ks| ensures CodePointLess(ks[i - 1], ks[i]) {
      if i <= 3 { assert ks[..4] == [a, b, c, d]; } else { assert ks[3..] == [d, e, x, y]; }
    }
    forall k | k in f ensures k in ks {
      assert k == ks[0] || k == ks[1] || k == ks[2] || k == ks[3] || k == ks[4] || k == ks[5] || k == ks[6];
    }
    MembersInOrder(f, ks);
  }

  // ------------------------------------------------------------------- hashed objects

  lemma AuditPayloadOrder()
    ensures CodePointLess("created_at", "event_payload")
    ensures CodePointLess("event_payload", "event_type")
    ensures CodePointLess("event_type", "reference_id")
  {
    FirstLess("created_at", "event_payload");
    PayloadBeforeType();
    FirstLess("event_type", "reference_id");
  }

  lemma AuditPayloadFields(e: AuditEvent)
    ensures var f := HashPayload(e).fields;
      && f.Keys == {"created_at", "event_payload", "event_type", "reference_id"}
      && f["created_at"] == Str(e.createdAt)
      && f["event_payload"] == e.payload
      && f["event_type"] == Str(e.eventType)
      && f["reference_id"] == (if e.referenceId.Some? then Str(e.referenceId.value) else Null)
  {}

  /** The text hashed after the previous hash of an audit event. */
  lemma AuditPayloadText(e: AuditEvent)
    ensures WrittenAs(HashPayload(e).fields, ["created_at", "event_payload", "event_type", "reference_id"])
  {
    AuditPayloadOrder();
    AuditPayloadFields(e);
    MembersInOrder(HashPayload(e).fields, ["created_at", "event_payload", "event_type", "reference_id"]);
  }

  lemma AiIdOrder()
    ensures CodePointLess("config_hash", "model_name")
    ensures CodePointLess("model_name", "model_version")
    ensures CodePointLess("model_version", "model_weights_hash")
    ensures CodePointLess("model_weights_hash", "provider_id")
    ensures CodePointLess("provider_id", "runtime_hash")
    ensures CodePointLess("runtime_hash", "spec_version")
  {
    FirstLess("config_hash", "model_name");
    NameBeforeVersion();
    VersionBeforeWeights();
    FirstLess("model_weights_hash", "provider_id");
    FirstLess("provider_id", "runtime_hash");
    FirstLess("runtime_hash", "spec_version");
  }

  lemma AiIdFields(a: AiIdentity)
    ensures var f := AiIdObject(a).fields;
      && f.Keys == {"config_hash", "model_name", "model_version", "model_weights_hash", "provider_id", "runtime_hash", "spec_version"}
      && f["config_hash"] == Str(a.configHash)
      && f["model_name"] == Str(a.modelName)
      && f["model_version"] == Str(a.modelVersion)
      && f["model_weights_hash"] == Str(a.modelWeightsHash)
      && f["provider_id"] == Str(a.providerId)
      && f["runtime_hash"] == Str(a.runtimeHash)
      && f["spec_version"] == Str("vrl/ai-id/1.0")
  {}

  /** The text hashed to an AI id. */
  lemma AiIdText(a: AiIdentity)
    ensures WrittenAs(AiIdObject(a).fields, ["config_hash", "model_name", "model_version", "model_weights_hash", "provider_id", "runtime_hash", "spec_version"])
  {
    AiIdOrder();
    AiIdFields(a);
    SevenKeys(AiIdObject(a).fields, "config_hash", "model_name", "model_version", "model_weights_hash", "provider_id", "runtime_hash", "spec_version");
  }

  lemma ProofOrder()
    ensures CodePointLess("circuit_hash", "proof_bytes")
    ensures CodePointLess("proof_bytes", "proof_system")
    ensures CodePointLess("proof_system", "public_inputs")
    ensures CodePointLess("public_inputs", "public_inputs_hash")
    ensures CodePointLess("public_inputs_hash", "trace_hash")
  {
    FirstLess("circuit_hash", "proof_bytes");
    BytesBeforeSystem();
    SystemBeforeInputs();
    InputsBeforeHash();
    FirstLess("public_inputs_hash", "trace_hash");
  }

  lemma ProofFields(sha: Sha, x: ProofParts)
    ensures var f := ProofObject(sha, x).fields;
      && f.Keys == {"circuit_hash", "proof_bytes", "proof_system", "public_inputs", "public_inputs_hash", "trace_hash"}
      && f["circuit_hash"] == Str(x.circuitHash)
      && f["proof_bytes"] == Str(x.proofBytes)
      && f["proof_system"] == Str(x.proofSystem)
      && f["public_inputs"] == StrArr(x.publicInputs)
      && f["public_inputs_hash"] == Str(sha(Canonical(StrArr(x.publicInputs))))
      && f["trace_hash"] == Str(x.traceHash)
  {}

  /** The text hashed to a proof hash. */
  lemma ProofText(sha: Sha, x: ProofParts)
    ensures WrittenAs(ProofObject(sha, x).fields, ["circuit_hash", "proof_bytes", "proof_system", "public_inputs", "public_inputs_hash", "trace_hash"])
  {
    ProofOrder();
    ProofFields(sha, x);
    MembersInOrder(ProofObject(sha, x).fields, ["circuit_hash", "proof_bytes", "proof_system", "public_inputs", "public_inputs_hash", "trace_hash"]);
  }

  lemma FinalProofOrder()
    ensures CodePointLess("circuit_hash", "commitments")
    ensures CodePointLess("commitments", "proof_bytes")
    ensures CodePointLess("proof_bytes", "proving_system")
    ensures CodePointLess("proving_system", "public_inputs")
    ensures CodePointLess("public_inputs", "public_inputs_hash")
    ensures CodePointLess("public_inputs_hash", "trace_hash")
  {
    CircuitBeforeCommitments();
    FirstLess("commitments", "proof_bytes");
    BytesBeforeProving();
    ProvingBeforeInputs();
    InputsBeforeHash();
    FirstLess("public_inputs_hash", "trace_hash");
  }

  lemma FinalProofFields(blob: string, commitments: seq<string>, inputs: seq<string>, circuitHash: string, traceHash: string, inputsHash: string)
    ensures var f := PlonkBinding.FinalProofObject(blob, commitments, inputs, circuitHash, traceHash, inputsHash).fields;
      && f.Keys == {"circuit_hash", "commitments", "proof_bytes", "proving_system", "public_inputs", "public_inputs_hash", "trace_hash"}
      && f["circuit_hash"] == Str(circuitHash)
      && f["commitments"] == StrArr(commitments)
      && f["proof_bytes"] == Str(blob)
      && f["proving_system"] == Str("plonk")
      && f["public_inputs"] == StrArr(inputs)
      && f["public_inputs_hash"] == Str(inputsHash)
      && f["trace_hash"] == Str(traceHash)
  {}

  /** The text hashed to the final proof. */
  lemma FinalProofText(blob: string, commitments: seq<string>, inputs: seq<string>, circuitHash: string, traceHash: string, inputsHash: string)
    ensures WrittenAs(PlonkBinding.FinalProofObject(blob, commitments, inputs, circuitHash, traceHash, inputsHash).fields, ["circuit_hash", "commitments", "proof_bytes", "proving_system", "public_inputs", "public_inputs_hash", "trace_hash"])
  {
    FinalProofOrder();
    FinalProofFields(blob, commitments, inputs, circuitHash, traceHash, inputsHash);
    SevenKeys(PlonkBinding.FinalProofObject(blob, commitments, inputs, circuitHash, traceHash, inputsHash).fields, "circuit_hash", "commitments", "proof_bytes", "proving_system", "public_inputs", "public_inputs_hash", "trace_hash");
  }
}
