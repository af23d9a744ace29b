/** The coordinator's artifact graph (coordinator/artifact_graph.py): artifacts, dependency edges
    kept sorted, and indexes by type and producer. */
module ArtifactGraph {
  import opened Common
  import opened Ordering

  datatype ArtifactType = CircuitArtifact | TraceArtifact | WitnessArtifact | ProofArtifact | VerificationArtifact

  datatype Artifact = Artifact(id: string, kind: ArtifactType, producedBy: string, cycle: int, contentHash: string)

  datatype Edge = Edge(parent: string, child: string)

  datatype Graph = Graph(
    artifacts: map<string, Artifact>, edges: seq<Edge>,
    byType: map<ArtifactType, seq<string>>, byProducer: map<string, seq<string>>)

  datatype Outcome = Added | Existing | Collision | UnknownParent(id: string)

  // ---------------------------------------------------------------------- ordering

  predicate EdgeLess(a: Edge, b: Edge) {
    StringLess(a.parent, b.parent) || (a.parent == b.parent && StringLess(a.child, b.child))
  }

  lemma EdgeLessOrder()
    ensures StrictTotalOrder(EdgeLess)
  {
    StringLessOrder();
  }

  /** (cycle, artifact_id), as tuples compare. */
  predicate ArtifactLess(a: Artifact, b: Artifact) {
    a.cycle < b.cycle || (a.cycle == b.cycle && StringLess(a.id, b.id))
  }

  lemma ArtifactLessOrder()
    ensures StrictWeakOrder(ArtifactLess)
  {
    StringLessOrder();
  }

  /** The sort of the edge list: an ordered permutation, which keeps edges as often as they occur. */
  function SortEdges(edges: seq<Edge>): (r: seq<Edge>)
    ensures InOrder(r, EdgeLess) && multiset(r) == multiset(edges)
    ensures (forall e :: e in r <==> e in edges) && (NoRepeats(edges) ==> NoRepeats(r))
  {
    EdgeLessOrder();
    TotalIsWeak(EdgeLess);
    SortedListIs(edges, EdgeLess);
    SortedList(edges, EdgeLess)
  }

  // ------------------------------------------------------------------------ adding

  function Listed<K>(index: map<K, seq<string>>, key: K): seq<string> {
    if key in index then index[key] else []
  }

  function Register(g: Graph, a: Artifact): Graph {
    g.(artifacts := g.artifacts[a.id := a],
       byType := g.byType[a.kind := Listed(g.byType, a.kind) + [a.id]],
       byProducer := g.byProducer[a.producedBy := Listed(g.byProducer, a.producedBy) + [a.id]])
  }

  /** The known parents before the first unknown one. */
  function KnownPrefix(parents: seq<string>, artifacts: map<string, Artifact>): (k: nat)
    ensures k <= |parents| && forall i :: 0 <= i < k ==> parents[i] in artifacts
    ensures k < |parents| ==> parents[k] !in artifacts
  {
    if parents == [] || parents[0] !in artifacts then 0 else 1 + KnownPrefix(parents[1..], artifacts)
  }

  function EdgesTo(parents: seq<string>, child: string): (r: seq<Edge>)
    ensures |r| == |parents| && forall i :: 0 <= i < |r| ==> r[i] == Edge(parents[i], child)
  {
    if parents == [] then [] else EdgesTo(parents[..|parents| - 1], child) + [Edge(parents[|parents| - 1], child)]
  }

  function Parents(dependsOn: seq<string>): seq<string> {
    SortedStrings((set p | p in dependsOn))
  }

  /** `add_artifact`: an unknown parent is found only after the artifact has been registered and
      the edges before it appended, unsorted. */
  function Add(g: Graph, a: Artifact, dependsOn: seq<string>): (Graph, Outcome) {
    if a.id in g.artifacts then (g, if g.artifacts[a.id].contentHash != a.contentHash then Collision else Existing)
    else
      var h, parents := Register(g, a), Parents(dependsOn);
      var k := KnownPrefix(parents, h.artifacts);
      var edges := g.edges + EdgesTo(parents[..k], a.id);
      if k < |parents| then (h.(edges := edges), UnknownParent(parents[k])) else (h.(edges := SortEdges(edges)), Added)
  }

  // --------------------------------------------------------------------- invariants

  /** Every artifact is under its own id, and listed exactly once under its type and once under
      its producer, and nowhere else. */
  ghost predicate IndexesOk(g: Graph) {
    && (forall id :: id in g.artifacts ==> g.artifacts[id].id == id)
    && (forall t: ArtifactType :: NoRepeats(Listed(g.byType, t)))
    && (forall p: string :: NoRepeats(Listed(g.byProducer, p)))
    && (forall t: ArtifactType, id :: id in Listed(g.byType, t) <==> id in g.artifacts && g.artifacts[id].kind == t)
    && forall p: string, id :: id in Listed(g.byProducer, p) <==> id in g.artifacts && g.artifacts[id].producedBy == p
  }

  ghost predicate EndpointsKnown(g: Graph) {
    forall e :: e in g.edges ==> e.parent in g.artifacts && e.child in g.artifacts
  }

  /** What every call keeps of the edge list, failing calls included: known endpoints, and no
      edge twice. */
  ghost predicate EdgesOk(g: Graph) {
    EndpointsKnown(g) && NoRepeats(g.edges)
  }

  lemma RegisterKeepsIndexes(g: Graph, a: Artifact)
    requires IndexesOk(g) && a.id !in g.artifacts
    ensures IndexesOk(Register(g, a))
  {
    var h := Register(g, a);
    forall t: ArtifactType, id ensures id in Listed(h.byType, t) <==> id in h.artifacts && h.artifacts[id].kind == t {
      assert id in Listed(g.byType, t) <==> id in g.artifacts && g.artifacts[id].kind == t;
    }
    forall p: string, id ensures id in Listed(h.byProducer, p) <==> id in h.artifacts && h.artifacts[id].producedBy == p {
      assert id in Listed(g.byProducer, p) <==> id in g.artifacts && g.artifacts[id].producedBy == p;
    }
    forall t: ArtifactType ensures NoRepeats(Listed(h.byType, t)) {
      assert NoRepeats(Listed(g.byType, t)) && a.id !in Listed(g.byType, t);
    }
    forall p: string ensures NoRepeats(Listed(h.byProducer, p)) {
      assert NoRepeats(Listed(g.byProducer, p)) && a.id !in Listed(g.byProducer, p);
    }
  }

  lemma IndexesIgnoreEdges(g: Graph, edges: seq<Edge>)
    requires IndexesOk(g)
    ensures IndexesOk(g.(edges := edges))
  {}

  lemma NewEndpointsKnown(g: Graph, a: Artifact, parents: seq<string>, k: nat, edges: seq<Edge>)
    requires EndpointsKnown(g) && k <= |parents| && forall i :: 0 <= i < k ==> parents[i] in Register(g, a).artifacts
    requires forall e :: e in edges ==> e in g.edges || e in EdgesTo(parents[..k], a.id)
    ensures EndpointsKnown(Register(g, a).(edges := edges))
  {}

  /** The edges that a call appends are new, as they end in a fresh id, and differ from each
      other, as the parents do. */
  lemma AppendedDistinct(g: Graph, a: Artifact, parents: seq<string>)
    requires EdgesOk(g) && a.id !in g.artifacts && NoRepeats(parents)
    ensures NoRepeats(g.edges + EdgesTo(parents, a.id))
  {
    var added := EdgesTo(parents, a.id);
    forall i, j | 0 <= i < |g.edges| && 0 <= j < |added| ensures g.edges[i] != added[j] {
      assert g.edges[i] in g.edges;
    }
  }

  lemma ParentsDistinct(dependsOn: seq<string>, k: nat)
    requires k <= |Parents(dependsOn)|
    ensures NoRepeats(Parents(dependsOn)[..k])
  {
    StringLessOrder();
    IncreasingDistinct(Parents(dependsOn), StringLess);
  }

  /** Every call, failing ones included, keeps the indexes and the edge list without repetitions. */
  lemma AddKeepsIndexes(g: Graph, a: Artifact, dependsOn: seq<string>)
    requires IndexesOk(g) && EdgesOk(g)
    ensures IndexesOk(Add(g, a, dependsOn).0) && EdgesOk(Add(g, a, dependsOn).0)
  {
    AddKeepsEdges(g, a, dependsOn);
    if a.id !in g.artifacts {
      var h, parents := Register(g, a), Parents(dependsOn);
      var k := KnownPrefix(parents, h.artifacts);
      var edges := g.edges + EdgesTo(parents[..k], a.id);
      RegisterKeepsIndexes(g, a);
      IndexesIgnoreEdges(h, edges);
      IndexesIgnoreEdges(h, SortEdges(edges));
    }
  }

  lemma AddKeepsEdges(g: Graph, a: Artifact, dependsOn: seq<string>)
    requires EdgesOk(g)
    ensures EdgesOk(Add(g, a, dependsOn).0)
  {
    if a.id !in g.artifacts {
      var h, parents := Register(g, a), Parents(dependsOn);
      var k := KnownPrefix(parents, h.artifacts);
      var edges := g.edges + EdgesTo(parents[..k], a.id);
      ParentsDistinct(dependsOn, k);
      AppendedDistinct(g, a, parents[..k]);
      NewEndpointsKnown(g, a, parents, k, edges);
      NewEndpointsKnown(g, a, parents, k, SortEdges(edges));
    }
  }

  /** The edges of a new artifact with these dependencies. */
  predicate NewEdge(a: Artifact, dependsOn: seq<string>, e: Edge) {
    e.child == a.id && e.parent in dependsOn
  }

  /** h is g with a new artifact, its edges, and the edge list sorted. */
  ghost predicate AddedTo(g: Graph, h: Graph, a: Artifact, dependsOn: seq<string>) {
    && a.id !in g.artifacts && h.artifacts == g.artifacts[a.id := a] && Increasing(h.edges, EdgeLess)
    && (forall p :: p in dependsOn ==> p in g.artifacts || p == a.id)
    && forall e :: e in h.edges <==> e in g.edges || NewEdge(a, dependsOn, e)
  }

  lemma EdgesToAre(parents: seq<string>, a: Artifact, dependsOn: seq<string>, e: Edge)
    requires forall p :: p in parents <==> p in dependsOn
    ensures e in EdgesTo(parents, a.id) <==> NewEdge(a, dependsOn, e)
  {
    var r := EdgesTo(parents, a.id);
    if NewEdge(a, dependsOn, e) {
      var i :| 0 <= i < |parents| && parents[i] == e.parent;
      assert r[i] == e;
    }
  }

  lemma AddedEdges(g: Graph, a: Artifact, dependsOn: seq<string>, e: Edge)
    requires Add(g, a, dependsOn).1.Added?
    ensures e in Add(g, a, dependsOn).0.edges <==> e in g.edges || NewEdge(a, dependsOn, e)
  {
    var parents := Parents(dependsOn);
    assert parents[..|parents|] == parents;
    EdgesToAre(parents, a, dependsOn, e);
  }

  /** What a normal return means. */
  lemma AddOutcome(g: Graph, a: Artifact, dependsOn: seq<string>)
    requires EdgesOk(g)
    ensures Add(g, a, dependsOn).1.Existing? ==> Add(g, a, dependsOn).0 == g
    ensures Add(g, a, dependsOn).1.Added? ==> AddedTo(g, Add(g, a, dependsOn).0, a, dependsOn)
  {
    if Add(g, a, dependsOn).1.Added? {
      var h := Add(g, a, dependsOn).0;
      KnownParentsAdd(g, a, dependsOn);
      forall e ensures e in h.edges <==> e in g.edges || NewEdge(a, dependsOn, e) {
        AddedEdges(g, a, dependsOn, e);
      }
      AddKeepsEdges(g, a, dependsOn);
      EdgeLessOrder();
      DistinctIncreases(h.edges, EdgeLess);
    }
  }

  /** Creation ages prove the edges acyclic: every edge goes from an older to a newer artifact. */
  ghost predicate Ages(g: Graph, age: map<string, nat>, next: nat) {
    && (forall id :: id in g.artifacts ==> id in age && age[id] < next)
    && forall e :: e in g.edges ==> e.parent in age && e.child in age && age[e.parent] < age[e.child]
  }

  ghost predicate AcyclicEdges(g: Graph) {
    exists age: map<string, nat>, next: nat :: Ages(g, age, next)
  }

  /** A call returns normally on a new artifact exactly when every parent is known before or is
      the artifact itself, which is registered before its parents are looked up; and it keeps
      the edges acyclic exactly when the artifact is not its own parent. */
  lemma AcyclicUnlessSelfParent(g: Graph, a: Artifact, dependsOn: seq<string>)
    requires EdgesOk(g) && AcyclicEdges(g) && a.id !in g.artifacts
    ensures Add(g, a, dependsOn).1.Added? <==> forall p :: p in dependsOn ==> p in g.artifacts || p == a.id
    ensures Add(g, a, dependsOn).1.Added? ==> (AcyclicEdges(Add(g, a, dependsOn).0) <==> a.id !in dependsOn)
  {
    KnownParentsAdd(g, a, dependsOn);
    AddOutcome(g, a, dependsOn);
    if Add(g, a, dependsOn).1.Added? {
      AddedStaysAcyclic(g, Add(g, a, dependsOn).0, a, dependsOn);
    }
  }

  /** Without a self-parent every call keeps the edges acyclic, one that raises on an unknown
      parent after appending the edges before it included. */
  lemma AcyclicWithoutSelfParent(g: Graph, a: Artifact, dependsOn: seq<string>)
    requires EdgesOk(g) && AcyclicEdges(g) && a.id !in dependsOn
    ensures AcyclicEdges(Add(g, a, dependsOn).0)
  {
    if a.id !in g.artifacts {
      var h := Add(g, a, dependsOn).0;
      assert h.artifacts == g.artifacts[a.id := a];
      forall e | e in h.edges ensures OldOrNew(g, a, e) {
        AppendedEdge(g, a, dependsOn, e);
      }
      var age: map<string, nat>, next: nat :| Ages(g, age, next);
      AgesExtend(g, h, a, age, next);
    }
  }

  /** An old edge, or one that leads from an older artifact to a new one. */
  predicate OldOrNew(g: Graph, a: Artifact, e: Edge) {
    (e in g.edges && e.parent != a.id && e.child != a.id) || (e.child == a.id && e.parent in g.artifacts && e.parent != a.id)
  }

  /** An edge after a call is an old one, or leads from a known parent to the artifact. */
  lemma AppendedEdge(g: Graph, a: Artifact, dependsOn: seq<string>, e: Edge)
    requires EndpointsKnown(g) && a.id !in g.artifacts && a.id !in dependsOn && e in Add(g, a, dependsOn).0.edges
    ensures OldOrNew(g, a, e)
  {
    var h, parents := Register(g, a), Parents(dependsOn);
    var k := KnownPrefix(parents, h.artifacts);
    if e !in g.edges {
      assert e in EdgesTo(parents[..k], a.id);
      assert e.parent in parents && e.parent in h.artifacts;
    }
  }

  /** An artifact that names itself as a parent is accepted and makes a loop. */
  lemma SelfParentMakesLoop(g: Graph, a: Artifact, dependsOn: seq<string>)
    requires EdgesOk(g) && a.id !in g.artifacts && a.id in dependsOn
    requires forall p :: p in dependsOn ==> p in g.artifacts || p == a.id
    ensures Add(g, a, dependsOn).1.Added? && Edge(a.id, a.id) in Add(g, a, dependsOn).0.edges
    ensures !AcyclicEdges(Add(g, a, dependsOn).0)
  {
    KnownParentsAdd(g, a, dependsOn);
    AddOutcome(g, a, dependsOn);
    LoopIsNoAge(Add(g, a, dependsOn).0, a.id);
  }

  lemma LoopIsNoAge(h: Graph, id: string)
    requires Edge(id, id) in h.edges
    ensures !AcyclicEdges(h)
  {
    assert forall age: map<string, nat>, next: nat :: !Ages(h, age, next);
  }

  lemma AddedStaysAcyclic(g: Graph, h: Graph, a: Artifact, dependsOn: seq<string>)
    requires EndpointsKnown(g) && AcyclicEdges(g) && AddedTo(g, h, a, dependsOn)
    ensures AcyclicEdges(h) <==> a.id !in dependsOn
  {
    if a.id in dependsOn {
      assert NewEdge(a, dependsOn, Edge(a.id, a.id));
      LoopIsNoAge(h, a.id);
    } else {
      forall e | e in h.edges ensures OldOrNew(g, a, e) {
        assert e in g.edges || NewEdge(a, dependsOn, e);
      }
      var age: map<string, nat>, next: nat :| Ages(g, age, next);
      AgesExtend(g, h, a, age, next);
    }
  }

  lemma AgesExtend(g: Graph, h: Graph, a: Artifact, age: map<string, nat>, next: nat)
    requires Ages(g, age, next) && h.artifacts == g.artifacts[a.id := a] && forall e :: e in h.edges ==> OldOrNew(g, a, e)
    ensures Ages(h, age[a.id := next], next + 1)
  {
    forall e | e in h.edges
      ensures e.parent in age[a.id := next] && e.child in age[a.id := next] && age[a.id := next][e.parent] < age[a.id := next][e.child]
    {
      assert OldOrNew(g, a, e);
    }
  }

  // ----------------------------------------------------------------------- histories

  datatype Item = Item(artifact: Artifact, dependsOn: seq<string>)

  const EMPTY: Graph := Graph(map[], [], map[], map[])

  /** The graph after a sequence of calls. */
  function AddAll(g: Graph, items: seq<Item>): Graph {
    if items == [] then g
    else
      var last := items[|items| - 1];
      Add(AddAll(g, items[..|items| - 1]), last.artifact, last.dependsOn).0
  }

  /** Every call returns normally, and none has a self-parent. */
  ghost predicate AllReturn(g: Graph, items: seq<Item>)
    decreases |items|
  {
    items != [] ==>
      var front, last := items[..|items| - 1], items[|items| - 1];
      var o := Add(AddAll(g, front), last.artifact, last.dependsOn).1;
      AllReturn(g, front) && (o.Added? || o.Existing?) && last.artifact.id !in last.dependsOn
  }

  /** What such calls keep: edges acyclic, sorted, duplicate-free, with known endpoints, and
      exact indexes. */
  ghost predicate GraphOk(g: Graph) {
    IndexesOk(g) && EdgesOk(g) && Increasing(g.edges, EdgeLess) && AcyclicEdges(g)
  }

  lemma ReturningAddKeepsGraph(g: Graph, a: Artifact, dependsOn: seq<string>)
    requires GraphOk(g) && a.id !in dependsOn
    requires Add(g, a, dependsOn).1.Added? || Add(g, a, dependsOn).1.Existing?
    ensures GraphOk(Add(g, a, dependsOn).0)
  {
    AddKeepsIndexes(g, a, dependsOn);
    AddOutcome(g, a, dependsOn);
    if Add(g, a, dependsOn).1.Added? {
      AcyclicUnlessSelfParent(g, a, dependsOn);
    }
  }

  lemma EmptyOk()
    ensures GraphOk(EMPTY)
  {
    assert Ages(EMPTY, map[], 0);
  }

  lemma {:induction false} RunsKeepGraph(items: seq<Item>)
    requires AllReturn(EMPTY, items)
    ensures GraphOk(AddAll(EMPTY, items))
    decreases |items|
  {
    if items == [] {
      EmptyOk();
    } else {
      var front, last := items[..|items| - 1], items[|items| - 1];
      RunsKeepGraph(front);
      ReturningAddKeepsGraph(AddAll(EMPTY, front), last.artifact, last.dependsOn);
    }
  }

  /** After any run at all, failing calls and self-parents included: exact indexes, known
      endpoints, and no edge twice. */
  lemma {:induction false} AnyRunKeepsIndexes(items: seq<Item>)
    ensures IndexesOk(AddAll(EMPTY, items)) && EdgesOk(AddAll(EMPTY, items))
    decreases |items|
  {
    if items == [] {
      EmptyOk();
    } else {
      var front, last := items[..|items| - 1], items[|items| - 1];
      AnyRunKeepsIndexes(front);
      AddKeepsIndexes(AddAll(EMPTY, front), last.artifact, last.dependsOn);
    }
  }

  /** After any run without a self-parent, failing calls included, the edges are acyclic. */
  lemma {:induction false} AnyRunStaysAcyclic(items: seq<Item>)
    requires forall x :: x in items ==> x.artifact.id !in x.dependsOn
    ensures AcyclicEdges(AddAll(EMPTY, items))
    decreases |items|
  {
    if items == [] {
      EmptyOk();
    } else {
      var front, last := items[..|items| - 1], items[|items| - 1];
      assert last in items && forall x :: x in front ==> x in items;
      AnyRunStaysAcyclic(front);
      AnyRunKeepsIndexes(front);
      AcyclicWithoutSelfParent(AddAll(EMPTY, front), last.artifact, last.dependsOn);
    }
  }

  /** Whatever runs, a stored artifact stays as it is. */
  lemma {:induction false} StoredStays(g: Graph, items: seq<Item>, id: string)
    requires id in g.artifacts
    ensures id in AddAll(g, items).artifacts && AddAll(g, items).artifacts[id] == g.artifacts[id]
    decreases |items|
  {
    if items != [] {
      StoredStays(g, items[..|items| - 1], id);
    }
  }

  /** Once a call with a new id was made, one that raised on an unknown parent included, a later
      call with that id leaves the graph as it is, whatever its other arguments and whatever ran
      between: it returns the existing artifact if and only if the contents agree, and raises a
      collision otherwise. */
  lemma LaterCallWithId(g: Graph, a: Artifact, dependsOn: seq<string>, between: seq<Item>, b: Artifact, other: seq<string>)
    requires a.id !in g.artifacts && b.id == a.id
    ensures var now := AddAll(Add(g, a, dependsOn).0, between);
      && Add(now, b, other).0 == now
      && (Add(now, b, other).1.Existing? <==> b.contentHash == a.contentHash)
      && (Add(now, b, other).1.Collision? <==> b.contentHash != a.contentHash)
  {
    StoredStays(Add(g, a, dependsOn).0, between, a.id);
  }

  predicate UnknownTo(g: Graph, a: Artifact, p: string) {
    p !in g.artifacts && p != a.id
  }

  /** A new artifact with an unknown parent: the least unknown one by code points is named; the
      artifact is registered, and edges from the parents before that one are appended. */
  lemma UnknownParentOutcome(g: Graph, a: Artifact, dependsOn: seq<string>, p: string)
    requires a.id !in g.artifacts && p in dependsOn && UnknownTo(g, a, p)
    ensures Add(g, a, dependsOn).1.UnknownParent?
    ensures var h, q := Add(g, a, dependsOn).0, Add(g, a, dependsOn).1.id;
      && q in dependsOn && UnknownTo(g, a, q) && (q == p || CodePointLess(q, p))
      && h.artifacts == g.artifacts[a.id := a] && g.edges <= h.edges
      && forall e :: e in h.edges[|g.edges|..] <==> e.child == a.id && e.parent in dependsOn && CodePointLess(e.parent, q)
  {
    var parents := Parents(dependsOn);
    var k := LeastUnknown(g, a, dependsOn, p);
    var h := Add(g, a, dependsOn).0;
    assert h.edges == g.edges + EdgesTo(parents[..k], a.id);
    assert h.edges[|g.edges|..] == EdgesTo(parents[..k], a.id);
    forall e ensures e in EdgesTo(parents[..k], a.id) <==> e.child == a.id && e.parent in dependsOn && CodePointLess(e.parent, parents[k]) {
      ParentsBefore(parents, k, e.parent);
      EdgesToAre(parents[..k], a, parents[..k], e);
    }
  }

  lemma LeastUnknown(g: Graph, a: Artifact, dependsOn: seq<string>, p: string) returns (k: nat)
    requires a.id !in g.artifacts && p in dependsOn && UnknownTo(g, a, p)
    ensures var parents := Parents(dependsOn);
      && k == KnownPrefix(parents, Register(g, a).artifacts) < |parents|
      && parents[k] in dependsOn && UnknownTo(g, a, parents[k]) && (parents[k] == p || CodePointLess(parents[k], p))
  {
    var parents := Parents(dependsOn);
    k := KnownPrefix(parents, Register(g, a).artifacts);
    assert p in parents;
    var i :| 0 <= i < |parents| && parents[i] == p;
    assert k <= i && parents[k] in parents;
  }

  lemma ParentsBefore(parents: seq<string>, k: nat, p: string)
    requires Increasing(parents, StringLess) && k < |parents|
    ensures p in parents[..k] <==> p in parents && CodePointLess(p, parents[k])
  {
    StringLessOrder();
    StringLessIsCodePointLess(p, parents[k]);
    if p in parents && StringLess(p, parents[k]) {
      var i :| 0 <= i < |parents| && parents[i] == p;
      assert i < k;
      assert parents[..k][i] == p;
    }
  }

  /** The edge list after a normal addition is ordered by parent and then child, by code points. */
  lemma EdgesInCodePointOrder(g: Graph, a: Artifact, dependsOn: seq<string>, i: nat, j: nat)
    requires EdgesOk(g) && Add(g, a, dependsOn).1.Added? && i < j < |Add(g, a, dependsOn).0.edges|
    ensures var edges := Add(g, a, dependsOn).0.edges;
      CodePointLess(edges[i].parent, edges[j].parent)
      || (edges[i].parent == edges[j].parent && CodePointLess(edges[i].child, edges[j].child))
  {
    AddOutcome(g, a, dependsOn);
    var edges := Add(g, a, dependsOn).0.edges;
    assert EdgeLess(edges[i], edges[j]);
    StringLessIsCodePointLess(edges[i].parent, edges[j].parent);
    StringLessIsCodePointLess(edges[i].child, edges[j].child);
  }

  // --------------------------------------------------------------------------- batches

  ghost predicate ItemNew(g: Graph, x: Item) {
    x.artifact.id !in g.artifacts && forall p :: p in x.dependsOn ==> p in g.artifacts
  }

  /** New artifacts with distinct ids whose parents are all known before the batch. */
  ghost predicate Batch(g: Graph, items: seq<Item>) {
    && (forall x :: x in items ==> ItemNew(g, x))
    && forall i, j :: 0 <= i < j < |items| ==> items[i].artifact.id != items[j].artifact.id
  }

  lemma KnownParentsAdd(g: Graph, a: Artifact, dependsOn: seq<string>)
    requires a.id !in g.artifacts
    ensures Add(g, a, dependsOn).1.Added? <==> forall p :: p in dependsOn ==> p in g.artifacts || p == a.id
  {
    var parents, known := Parents(dependsOn), Register(g, a).artifacts;
    var k := KnownPrefix(parents, known);
    if forall p :: p in dependsOn ==> p in g.artifacts || p == a.id {
      AllKnown(parents, known);
    } else if k == |parents| {
      forall p | p in dependsOn ensures p in known {
        assert p in parents;
      }
    }
  }

  lemma {:induction false} AllKnown(parents: seq<string>, artifacts: map<string, Artifact>)
    requires forall p :: p in parents ==> p in artifacts
    ensures KnownPrefix(parents, artifacts) == |parents|
  {
    if parents != [] {
      AllKnown(parents[1..], artifacts);
    }
  }

  ghost predicate BatchId(items: seq<Item>, id: string) {
    exists x :: x in items && x.artifact.id == id
  }

  ghost predicate BatchEdge(items: seq<Item>, e: Edge) {
    exists x :: x in items && NewEdge(x.artifact, x.dependsOn, e)
  }

  /** The nodes and edges after a batch, said without an order. */
  ghost predicate BatchResult(g: Graph, items: seq<Item>, h: Graph) {
    && EdgesOk(h) && (items != [] ==> Increasing(h.edges, EdgeLess))
    && (forall id :: id in h.artifacts <==> id in g.artifacts || BatchId(items, id))
    && (forall id :: id in g.artifacts ==> h.artifacts[id] == g.artifacts[id])
    && (forall x :: x in items ==> h.artifacts[x.artifact.id] == x.artifact)
    && forall e :: e in h.edges <==> e in g.edges || BatchEdge(items, e)
  }

  lemma BatchNext(g: Graph, front: seq<Item>, last: Item, f: Graph, h: Graph)
    requires BatchResult(g, front, f) && AddedTo(f, h, last.artifact, last.dependsOn) && EdgesOk(h)
    ensures BatchResult(g, front + [last], h)
  {
    var items := front + [last];
    assert items[|front|] == last;
    assert forall x :: x in items <==> x in front || x == last;
    forall id ensures BatchId(items, id) <==> BatchId(front, id) || id == last.artifact.id {
      assert last in items;
    }
    forall e ensures BatchEdge(items, e) <==> BatchEdge(front, e) || NewEdge(last.artifact, last.dependsOn, e) {
      assert last in items;
    }
  }

  lemma LastIsNew(g: Graph, front: seq<Item>, last: Item, f: Graph)
    requires Batch(g, front + [last]) && BatchResult(g, front, f)
    ensures ItemNew(f, last)
  {
    var items := front + [last];
    assert items[|front|] == last && last in items && forall x :: x in front ==> x in items;
    assert ItemNew(g, last);
    forall x | x in front ensures x.artifact.id != last.artifact.id {
      var i :| 0 <= i < |front| && front[i] == x;
      assert items[i].artifact.id != items[|front|].artifact.id;
    }
  }

  lemma BatchFront(g: Graph, items: seq<Item>)
    requires Batch(g, items) && items != []
    ensures Batch(g, items[..|items| - 1]) && items == items[..|items| - 1] + [items[|items| - 1]]
  {
    assert forall x :: x in items[..|items| - 1] ==> x in items;
  }

  lemma {:induction false} BatchAdds(g: Graph, items: seq<Item>)
    requires EdgesOk(g) && Batch(g, items)
    ensures BatchResult(g, items, AddAll(g, items))
  {
    if items != [] {
      var front, last := items[..|items| - 1], items[|items| - 1];
      var f := AddAll(g, front);
      BatchFront(g, items);
      BatchAdds(g, front);
      LastIsNew(g, front, last, f);
      KnownParentsAdd(f, last.artifact, last.dependsOn);
      AddOutcome(f, last.artifact, last.dependsOn);
      AddKeepsEdges(f, last.artifact, last.dependsOn);
      BatchNext(g, front, last, f, AddAll(g, items));
    }
  }

  lemma BatchResultUnique(g: Graph, a: seq<Item>, b: seq<Item>, h: Graph, k: Graph)
    requires BatchResult(g, a, h) && BatchResult(g, b, k) && a != [] && b != [] && forall x :: x in a <==> x in b
    ensures h.artifacts == k.artifacts && h.edges == k.edges
  {
    forall id ensures BatchId(a, id) <==> BatchId(b, id) {}
    forall id | id in h.artifacts ensures h.artifacts[id] == k.artifacts[id] {
      if id !in g.artifacts {
        var x :| x in a && x.artifact.id == id;
        assert x in b;
      }
    }
    forall e ensures BatchEdge(a, e) <==> BatchEdge(b, e) {}
    EdgeLessOrder();
    IncreasingUnique(h.edges, k.edges, EdgeLess);
  }

  /** A batch completed in another order leaves the same artifacts and the same edge list. */
  lemma BatchOrderIndependence(g: Graph, a: seq<Item>, b: seq<Item>)
    requires EdgesOk(g) && Batch(g, a) && Batch(g, b) && forall x :: x in a <==> x in b
    ensures AddAll(g, a).artifacts == AddAll(g, b).artifacts && AddAll(g, a).edges == AddAll(g, b).edges
  {
    BatchAdds(g, a);
    BatchAdds(g, b);
    HeadMember(a);
    HeadMember(b);
    if a != [] {
      BatchResultUnique(g, a, b, AddAll(g, a), AddAll(g, b));
    }
  }

  // --------------------------------------------------------------------------- queries

  /** The parents of an artifact in the order of the edge list. */
  function ParentsIn(edges: seq<Edge>, id: string): seq<string> {
    if edges == [] then []
    else
      var front, last := ParentsIn(edges[..|edges| - 1], id), edges[|edges| - 1];
      if last.child == id then front + [last.parent] else front
  }

  /** `dependencies_for`. */
  function DependenciesFor(g: Graph, id: string): seq<string> {
    SortedList(ParentsIn(g.edges, id), StringLess)
  }

  lemma {:induction false} ParentsInAre(edges: seq<Edge>, id: string)
    ensures forall p :: p in ParentsIn(edges, id) <==> Edge(p, id) in edges
    ensures NoRepeats(edges) ==> NoRepeats(ParentsIn(edges, id))
  {
    if edges != [] {
      var front, last := edges[..|edges| - 1], edges[|edges| - 1];
      assert edges == front + [last];
      ParentsInAre(front, id);
      if NoRepeats(edges) {
        assert last !in front;
        assert NoRepeats(ParentsIn(front, id));
        assert last.child == id ==> last == Edge(last.parent, id) && last.parent !in ParentsIn(front, id);
      }
    }
  }

  /** As no edge is there twice, the dependencies are strictly increasing. */
  lemma DependenciesAre(g: Graph, id: string)
    requires NoRepeats(g.edges)
    ensures Increasing(DependenciesFor(g, id), StringLess)
    ensures forall p :: p in DependenciesFor(g, id) <==> Edge(p, id) in g.edges
  {
    StringLessOrder();
    TotalIsWeak(StringLess);
    ParentsInAre(g.edges, id);
    SortedListIs(ParentsIn(g.edges, id), StringLess);
    DistinctIncreases(DependenciesFor(g, id), StringLess);
  }

  /** The dependencies of a new artifact are exactly the given ones, each once and sorted; those
      of older artifacts do not change. */
  lemma DependenciesAfterAdd(g: Graph, a: Artifact, dependsOn: seq<string>, id: string)
    requires EdgesOk(g) && Add(g, a, dependsOn).1.Added?
    ensures DependenciesFor(Add(g, a, dependsOn).0, id) == if id == a.id then Parents(dependsOn) else DependenciesFor(g, id)
  {
    var h := Add(g, a, dependsOn).0;
    AddOutcome(g, a, dependsOn);
    AddKeepsEdges(g, a, dependsOn);
    DependenciesAre(g, id);
    DependenciesAre(h, id);
    StringLessOrder();
    forall p ensures Edge(p, id) in h.edges <==> Edge(p, id) in g.edges || (id == a.id && p in dependsOn) {
      assert NewEdge(a, dependsOn, Edge(p, id)) <==> id == a.id && p in dependsOn;
    }
    IncreasingUnique(DependenciesFor(h, id), if id == a.id then Parents(dependsOn) else DependenciesFor(g, id), StringLess);
  }

  /** An earlier cycle, or in the same cycle an id that is lower by code points. */
  ghost predicate Before(a: Artifact, b: Artifact) {
    a.cycle < b.cycle || (a.cycle == b.cycle && CodePointLess(a.id, b.id))
  }

  lemma LessIsBefore(a: Artifact, b: Artifact)
    ensures ArtifactLess(a, b) <==> Before(a, b)
  {
    StringLessIsCodePointLess(a.id, b.id);
  }

  lemma InOrderIsBefore(r: seq<Artifact>, artifacts: map<string, Artifact>)
    requires InOrder(r, ArtifactLess) && NoRepeats(r) && forall x :: x in r ==> x.id in artifacts && artifacts[x.id] == x
    ensures forall i, j :: 0 <= i < j < |r| ==> Before(r[i], r[j])
  {
    StringLessOrder();
    forall i, j | 0 <= i < j < |r| ensures Before(r[i], r[j]) {
      assert r[i] in r && r[j] in r && r[i].id != r[j].id;
      assert !ArtifactLess(r[j], r[i]);
      LessIsBefore(r[i], r[j]);
    }
  }

  predicate Matches(x: Artifact, kind: ArtifactType, producedBy: Option<string>, cycle: Option<int>) {
    x.kind == kind && (producedBy.Some? ==> x.producedBy == producedBy.value) && (cycle.Some? ==> x.cycle == cycle.value)
  }

  /** The loop over the sorted parents: it stops at the first unknown one. */
  method AppendEdges(edges: seq<Edge>, parents: seq<string>, child: string, artifacts: map<string, Artifact>)
    returns (appended: seq<Edge>, unknown: Option<string>)
    ensures var k := KnownPrefix(parents, artifacts);
      && appended == edges + EdgesTo(parents[..k], child)
      && unknown == if k < |parents| then Some(parents[k]) else None
  {
    appended := edges;
    for i := 0 to |parents|
      invariant appended == edges + EdgesTo(parents[..i], child)
      invariant forall j :: 0 <= j < i ==> parents[j] in artifacts
    {
      if parents[i] !in artifacts {
        KnownPrefixIs(parents, artifacts, i);
        return appended, Some(parents[i]);
      }
      assert parents[..i + 1][..i] == parents[..i];
      appended := appended + [Edge(parents[i], child)];
    }
    KnownPrefixIs(parents, artifacts, |parents|);
    return appended, None;
  }

  class Store {
    var artifacts: map<string, Artifact>
    var edges: seq<Edge>
    var byType: map<ArtifactType, seq<string>>
    var byProducer: map<string, seq<string>>

    function Value(): Graph
      reads this
    {
      Graph(artifacts, edges, byType, byProducer)
    }

    constructor ()
      ensures Value() == EMPTY
    {
      artifacts, edges, byType, byProducer := map[], [], map[], map[];
    }

    /** `add_artifact`. */
    method AddArtifact(a: Artifact, dependsOn: seq<string>) returns (outcome: Outcome)
      modifies this
      ensures (Value(), outcome) == Add(old(Value()), a, dependsOn)
    {
      if a.id in artifacts {
        return if artifacts[a.id].contentHash != a.contentHash then Collision else Existing;
      }
      artifacts := artifacts[a.id := a];
      byType := byType[a.kind := Listed(byType, a.kind) + [a.id]];
      byProducer := byProducer[a.producedBy := Listed(byProducer, a.producedBy) + [a.id]];
      assert Value() == Register(old(Value()), a);
      var appended, unknown := AppendEdges(edges, Parents(dependsOn), a.id, artifacts);
      edges := appended;
      if unknown.Some? {
        return UnknownParent(unknown.value);
      }
      edges := SortEdges(edges);
      return Added;
    }

    /** `artifacts_by_type`. */
    method ArtifactsByType(kind: ArtifactType) returns (r: seq<Artifact>)
      requires IndexesOk(Value())
      ensures forall x :: x in r <==> x.id in artifacts && artifacts[x.id] == x && x.kind == kind
      ensures NoRepeats(r)
    {
      r := [];
      var ids := Listed(byType, kind);
      for i := 0 to |ids|
        invariant |r| == i && forall j :: 0 <= j < i ==> ids[j] in artifacts && r[j] == artifacts[ids[j]]
      {
        assert ids[i] in ids;
        r := r + [artifacts[ids[i]]];
      }
      forall x ensures x in r <==> x.id in artifacts && artifacts[x.id] == x && x.kind == kind {
        ListedElement(Value(), kind, ids, r, x);
      }
      forall i, j | 0 <= i < j < |r| ensures r[i] != r[j] {
        assert ids[i] in artifacts && ids[j] in artifacts && ids[i] != ids[j];
      }
    }

    /** `artifacts_by_producer`: exactly the producer's artifacts that match, by cycle and id. */
    method ArtifactsByProducer(producedBy: string, kind: Option<ArtifactType>, cycle: Option<int>) returns (r: seq<Artifact>)
      requires IndexesOk(Value())
      ensures NoRepeats(r) && forall i, j :: 0 <= i < j < |r| ==> Before(r[i], r[j])
      ensures forall x :: x in r <==> x.id in artifacts && artifacts[x.id] == x && x.producedBy == producedBy
                                      && (kind.None? || x.kind == kind.value) && (cycle.None? || x.cycle == cycle.value)
    {
      var ids := Listed(byProducer, producedBy);
      var chosen: seq<Artifact> := [];
      for i := 0 to |ids|
        invariant forall x :: x in chosen <==> x.id in ids[..i] && x.id in artifacts && artifacts[x.id] == x
                                               && (kind.None? || x.kind == kind.value) && (cycle.None? || x.cycle == cycle.value)
        invariant NoRepeats(chosen)
      {
        assert ids[i] in ids && ids[..i + 1] == ids[..i] + [ids[i]];
        var x := artifacts[ids[i]];
        if (kind.None? || x.kind == kind.value) && (cycle.None? || x.cycle == cycle.value) {
          chosen := chosen + [x];
        }
      }
      assert ids[..|ids|] == ids;
      ArtifactLessOrder();
      SortedListIs(chosen, ArtifactLess);
      InOrderIsBefore(SortedList(chosen, ArtifactLess), artifacts);
      return SortedList(chosen, ArtifactLess);
    }

    /** `latest`: the greatest matching artifact by (cycle, id), if there is one. */
    method Latest(kind: ArtifactType, producedBy: Option<string>, cycle: Option<int>) returns (latest: Option<Artifact>)
      requires IndexesOk(Value())
      ensures latest.None? <==> !exists id :: id in artifacts && Matches(artifacts[id], kind, producedBy, cycle)
      ensures latest.Some? ==> latest.value.id in artifacts && artifacts[latest.value.id] == latest.value
                               && Matches(latest.value, kind, producedBy, cycle)
      ensures latest.Some? ==> forall id :: id in artifacts && Matches(artifacts[id], kind, producedBy, cycle) ==>
        artifacts[id] == latest.value || Before(artifacts[id], latest.value)
    {
      var ofType := ArtifactsByType(kind);
      var candidates: seq<Artifact> := [];
      for i := 0 to |ofType|
        invariant forall x :: x in candidates <==> x in ofType[..i] && Matches(x, kind, producedBy, cycle)
      {
        var x := ofType[i];
        assert ofType[..i + 1] == ofType[..i] + [x];
        if (producedBy.None? || x.producedBy == producedBy.value) && (cycle.None? || x.cycle == cycle.value) {
          assert x in ofType;
          candidates := candidates + [x];
        }
      }
      assert ofType[..|ofType|] == ofType;
      assert forall x :: x in candidates <==> x.id in artifacts && artifacts[x.id] == x && Matches(x, kind, producedBy, cycle);
      if candidates == [] {
        forall id | id in artifacts ensures !Matches(artifacts[id], kind, producedBy, cycle) {
          assert artifacts[id] !in candidates;
        }
        return None;
      }
      var ordered := SortedList(candidates, ArtifactLess);
      ArtifactLessOrder();
      SortedListIs(candidates, ArtifactLess);
      assert candidates[0] in ordered;
      var last := ordered[|ordered| - 1];
      assert last in ordered;
      forall id | id in artifacts && Matches(artifacts[id], kind, producedBy, cycle)
        ensures artifacts[id] == last || Before(artifacts[id], last)
      {
        assert artifacts[id] in ordered;
        LastIsGreatest(ordered, artifacts[id]);
        LessIsBefore(artifacts[id], last);
      }
      return Some(last);
    }
  }

  lemma LastIsGreatest(ordered: seq<Artifact>, x: Artifact)
    requires InOrder(ordered, ArtifactLess) && x in ordered
    ensures var last := ordered[|ordered| - 1]; x.id != last.id ==> ArtifactLess(x, last)
    ensures var last := ordered[|ordered| - 1]; x == last || !ArtifactLess(last, x)
  {
    StringLessOrder();
  }

  lemma ListedElement(g: Graph, kind: ArtifactType, ids: seq<string>, r: seq<Artifact>, x: Artifact)
    requires IndexesOk(g) && ids == Listed(g.byType, kind) && |r| == |ids|
    requires forall j :: 0 <= j < |ids| ==> ids[j] in g.artifacts && r[j] == g.artifacts[ids[j]]
    ensures x in r <==> x.id in g.artifacts && g.artifacts[x.id] == x && x.kind == kind
  {
    if x in r {
      var j :| 0 <= j < |r| && r[j] == x;
      assert ids[j] in ids;
    }
    if x.id in g.artifacts && g.artifacts[x.id] == x && x.kind == kind {
      assert x.id in ids;
      var j :| 0 <= j < |ids| && ids[j] == x.id;
    }
  }

  lemma {:induction false} KnownPrefixIs(parents: seq<string>, artifacts: map<string, Artifact>, i: nat)
    requires i <= |parents| && forall j :: 0 <= j < i ==> parents[j] in artifacts
    requires i < |parents| ==> parents[i] !in artifacts
    ensures KnownPrefix(parents, artifacts) == i
  {
    if i > 0 {
      KnownPrefixIs(parents[1..], artifacts, i - 1);
    }
  }
}
