/** The checks a coordinator applies to an agent's result (coordinator/system.py,
    `_enforce_task_constraints`): what it takes for a result to count as a success. */
module TaskConstraints {
  import opened Common
  import opened ArtifactGraph

  /** An artifact of a result: its type, its size in bytes and, for a circuit, its constraints. */
  datatype Produced = Produced(kind: ArtifactType, bytes: nat, constraintCount: nat)

  datatype Limits = Limits(
    produces: seq<ArtifactType>, maxExecutionMs: Option<real>, maxArtifactBytes: Option<nat>, maxCircuitConstraints: Option<nat>)

  datatype Violation = Reported(text: string) | WrongTypes | TooSlow | TooLarge(index: nat) | TooComplex(index: nat)

  datatype AgentResult = AgentResult(
    success: bool, violations: seq<Violation>, errors: seq<Violation>, produced: seq<Produced>, durationMs: real, consumed: seq<string>)

  function Kinds(produced: seq<Produced>): seq<ArtifactType> {
    seq(|produced|, i requires 0 <= i < |produced| => produced[i].kind)
  }

  predicate Small(l: Limits, a: Produced) {
    l.maxArtifactBytes.None? || a.bytes <= l.maxArtifactBytes.value
  }

  predicate Simple(l: Limits, a: Produced) {
    l.maxCircuitConstraints.None? || !a.kind.CircuitArtifact? || a.constraintCount <= l.maxCircuitConstraints.value
  }

  /** The artifacts have the expected types, as often as expected and in any order, and are
      within the limits, as is the duration. */
  predicate Within(l: Limits, r: AgentResult) {
    && multiset(Kinds(r.produced)) == multiset(l.produces)
    && (l.maxExecutionMs.None? || r.durationMs <= l.maxExecutionMs.value)
    && forall a :: a in r.produced ==> Small(l, a) && Simple(l, a)
  }

  /** The limits themselves are allowed: one byte, constraint or millisecond more is not. */
  lemma AtTheLimits(l: Limits, r: AgentResult, a: Produced, n: nat)
    ensures l.maxArtifactBytes == Some(n) ==> (Small(l, a) <==> a.bytes < n + 1)
    ensures l.maxCircuitConstraints == Some(n) && a.kind == CircuitArtifact ==> (Simple(l, a) <==> a.constraintCount < n + 1)
    ensures l.maxExecutionMs == Some(r.durationMs) && r.produced == [] && l.produces == [] ==> Within(l, r)
    ensures l.maxArtifactBytes == l.maxCircuitConstraints == None ==> Small(l, a) && Simple(l, a)
  {}

  predicate Precedes(v: Violation, w: Violation) {
    match v
    case TooLarge(i) => w.TooComplex? || (w.TooLarge? && i < w.index)
    case TooComplex(i) => w.TooComplex? && i < w.index
    case _ => false
  }

  ghost predicate InSequence(vs: seq<Violation>) {
    forall i, j :: 0 <= i < j < |vs| ==> Precedes(vs[i], vs[j])
  }

  lemma AppendInSequence(vs: seq<Violation>, v: Violation)
    requires InSequence(vs) && forall x :: x in vs ==> Precedes(x, v)
    ensures InSequence(vs + [v])
  {
    forall i, j | 0 <= i < j < |vs| + 1 ensures Precedes((vs + [v])[i], (vs + [v])[j]) {
      assert vs[i] in vs;
    }
  }

  /** The two loops over the produced artifacts: the artifacts that are too large in order, then
      the circuits that are too complex in order. */
  method ArtifactViolations(l: Limits, produced: seq<Produced>) returns (found: seq<Violation>)
    ensures forall i: nat :: TooLarge(i) in found <==> i < |produced| && !Small(l, produced[i])
    ensures forall i: nat :: TooComplex(i) in found <==> i < |produced| && !Simple(l, produced[i])
    ensures forall v :: v in found ==> v.TooLarge? || v.TooComplex?
    ensures InSequence(found)
    ensures found == [] <==> forall a :: a in produced ==> Small(l, a) && Simple(l, a)
  {
    found := [];
    if l.maxArtifactBytes.Some? {
      for i := 0 to |produced|
        invariant forall k: nat :: TooLarge(k) in found <==> k < i && !Small(l, produced[k])
        invariant forall v :: v in found ==> v.TooLarge? && v.index < i
        invariant InSequence(found)
      {
        if produced[i].bytes > l.maxArtifactBytes.value {
          AppendInSequence(found, TooLarge(i));
          found := found + [TooLarge(i)];
        }
      }
    }
    if l.maxCircuitConstraints.Some? {
      for i := 0 to |produced|
        invariant forall k: nat :: TooLarge(k) in found <==> k < |produced| && !Small(l, produced[k])
        invariant forall k: nat :: TooComplex(k) in found <==> k < i && !Simple(l, produced[k])
        invariant forall v :: v in found ==> v.TooLarge? || (v.TooComplex? && v.index < i)
        invariant InSequence(found)
      {
        if produced[i].kind == CircuitArtifact && produced[i].constraintCount > l.maxCircuitConstraints.value {
          AppendInSequence(found, TooComplex(i));
          found := found + [TooComplex(i)];
        }
      }
    }
    NoneFound(l, produced, found);
  }

  lemma NoneFound(l: Limits, produced: seq<Produced>, found: seq<Violation>)
    requires forall v :: v in found ==> v.TooLarge? || v.TooComplex?
    requires forall i: nat :: TooLarge(i) in found <==> i < |produced| && !Small(l, produced[i])
    requires forall i: nat :: TooComplex(i) in found <==> i < |produced| && !Simple(l, produced[i])
    ensures found == [] <==> forall a :: a in produced ==> Small(l, a) && Simple(l, a)
  {
    if found != [] {
      var v := found[0];
      assert v in found;
      assert produced[v.index] in produced;
    } else {
      forall a | a in produced ensures Small(l, a) && Simple(l, a) {
        var i: nat :| i < |produced| && produced[i] == a;
        assert TooLarge(i) !in found && TooComplex(i) !in found;
      }
    }
  }

  /** A result stays a success exactly when it was one, reported no violation and is within its
      limits; otherwise its artifacts are dropped and its violations become errors. */
  method EnforceTaskConstraints(l: Limits, given: seq<string>, r: AgentResult) returns (out: AgentResult)
    ensures out.success <==> r.success && r.violations == [] && Within(l, r)
    ensures out.violations == [] <==> r.violations == [] && Within(l, r)
    ensures r.violations <= out.violations && out.errors == r.errors + out.violations
    ensures out.produced == if out.violations == [] then r.produced else []
    ensures out.consumed == if r.consumed == [] then given else r.consumed
    ensures out.durationMs == r.durationMs
  {
    var violations := r.violations;
    if multiset(Kinds(r.produced)) != multiset(l.produces) {
      violations := violations + [WrongTypes];
    }
    if l.maxExecutionMs.Some? && r.durationMs > l.maxExecutionMs.value {
      violations := violations + [TooSlow];
    }
    var found := ArtifactViolations(l, r.produced);
    violations := violations + found;
    out := r.(violations := violations, consumed := if r.consumed == [] then given else r.consumed);
    if violations != [] {
      out := out.(success := false, errors := r.errors + violations, produced := []);
    }
  }
}
