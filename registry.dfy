/**
 * The node registry of the builder: author, topic and keyword nodes keyed
 * by a canonical id, created on first mention, growing with every paper
 * associated with them, each linked to the paper by one edge.
 */
module Registry {
  import opened Wrappers
  import opened Text
  import opened GraphModel

  /** The three registries whose nodes are keyed by a canonical name. */
  datatype Entity = Author | Topic | Keyword

  function Prefix(e: Entity): string {
    match e
    case Author => "author_"
    case Topic => "topic_"
    case Keyword => "keyword_"
  }

  /** The node id of a name: the registry's prefix and the canonical key. */
  function EntityId(e: Entity, name: string): string {
    Prefix(e) + Canon(name)
  }

  /** The node id of a paper. */
  function PaperNodeId(paperId: string): string {
    "paper_" + paperId
  }

  /** The registry an id belongs to, read off its prefix. */
  function KeyOf(id: string): Option<Entity> {
    if "author_" <= id then Some(Author)
    else if "topic_" <= id then Some(Topic)
    else if "keyword_" <= id then Some(Keyword)
    else None
  }

  /** The registry a payload belongs to. */
  function PayloadEntity(d: Payload): (r: Option<Entity>)
    ensures r.Some? <==> d.HasPapers()
  {
    match d
    case AuthorData(_, _) => Some(Author)
    case TopicData(_, _) => Some(Topic)
    case KeywordData(_, _) => Some(Keyword)
    case _ => None
  }

  /** Ids of different registries never coincide, and a paper id belongs
      to none of them. */
  lemma KeyOfEntityId(e: Entity, name: string)
    ensures KeyOf(EntityId(e, name)) == Some(e)
  {
    var id := EntityId(e, name);
    assert Prefix(e) <= id;
    assert id[0] == Prefix(e)[0];
  }

  lemma KeyOfPaperNodeId(paperId: string)
    ensures KeyOf(PaperNodeId(paperId)) == None
  {
    var id := PaperNodeId(paperId);
    assert id[0] == 'p';
  }

  function BaseSize(e: Entity): real {
    match e
    case Author => 15.0
    case Topic => 12.0
    case Keyword => 8.0
  }

  function Growth(e: Entity): real {
    match e
    case Author => 3.0
    case Topic => 2.0
    case Keyword => 1.5
  }

  function EntityColor(e: Entity): string {
    match e
    case Author => "#4F46E5"
    case Topic => "#10B981"
    case Keyword => "#F59E0B"
  }

  /** The size of a node with `count` associated papers:
      `max(base, growth * count)`. */
  function EntitySize(e: Entity, count: nat): (r: real)
    ensures r >= BaseSize(e) && r >= Growth(e) * count as real
    ensures r == BaseSize(e) || r == Growth(e) * count as real
  {
    if Growth(e) * count as real > BaseSize(e) then Growth(e) * count as real else BaseSize(e)
  }

  /** The size never shrinks as associations are added. */
  lemma EntitySizeMonotone(e: Entity, m: nat, n: nat)
    requires m <= n
    ensures EntitySize(e, m) <= EntitySize(e, n)
  {
  }

  /** A node created on first mention: the name as seen, no papers yet. */
  function NewEntityNode(e: Entity, name: string): (n: Node)
    ensures n.id == EntityId(e, name) && n.labelText == name
    ensures PayloadEntity(n.data) == Some(e) && n.data.papers == []
    ensures n.size == BaseSize(e)
  {
    var data := match e
      case Author => AuthorData(name, [])
      case Topic => TopicData(name, [])
      case Keyword => KeywordData(name, []);
    Node(EntityId(e, name), name, data, BaseSize(e), EntityColor(e))
  }

  predicate NoDuplicates(s: seq<string>) {
    forall i, j :: 0 <= i < j < |s| ==> s[i] != s[j]
  }

  /** Records the association of a paper with a node: the paper id is
      appended only if absent, and only then is the size recomputed. */
  function Associate(n: Node, e: Entity, paperId: string): (r: Node)
    requires n.data.HasPapers()
    ensures r.id == n.id && r.labelText == n.labelText && r.color == n.color
    ensures PayloadEntity(r.data) == PayloadEntity(n.data)
    ensures paperId in r.data.papers
    ensures forall q :: q in r.data.papers <==> q in n.data.papers || q == paperId
    ensures NoDuplicates(n.data.papers) ==> NoDuplicates(r.data.papers)
    ensures paperId in n.data.papers ==> r == n
    ensures paperId !in n.data.papers ==> r.size == EntitySize(e, |n.data.papers| + 1)
  {
    if paperId in n.data.papers then n
    else
      var papers := n.data.papers + [paperId];
      n.(data := n.data.(papers := papers), size := EntitySize(e, |papers|))
  }

  /** Associating the same paper twice is the same as once. */
  lemma AssociateIdempotent(n: Node, e: Entity, paperId: string)
    requires n.data.HasPapers()
    ensures Associate(Associate(n, e, paperId), e, paperId) == Associate(n, e, paperId)
  {
  }

  /** The id of the edge linking a paper with a registry node. */
  function LinkId(e: Entity, entityId: string, paperNodeId: string): string {
    match e
    case Author => entityId + "_authors_" + paperNodeId
    case Topic => paperNodeId + "_contains_" + entityId
    case Keyword => paperNodeId + "_contains_keyword_" + entityId
  }

  /** Keywords share the topic edge kind. */
  function LinkKind(e: Entity): EdgeKind {
    if e == Author then AuthoredBy else ContainsTopic
  }

  /** Authorship runs from author to paper with weight 1; containment from
      paper to topic with weight 1 and from paper to keyword with weight 0.5. */
  function LinkEdge(e: Entity, entityId: string, paperNodeId: string): (r: Edge)
    ensures r.id == LinkId(e, entityId, paperNodeId)
    ensures r.kind == LinkKind(e)
  {
    var id := LinkId(e, entityId, paperNodeId);
    match e
    case Author => Edge(id, entityId, paperNodeId, AuthoredBy, 1.0, None)
    case Topic => Edge(id, paperNodeId, entityId, ContainsTopic, 1.0, None)
    case Keyword => Edge(id, paperNodeId, entityId, ContainsTopic, 0.5, None)
  }

  /** Adds the link edge exactly when no edge has its id; existing edges
      are never touched. */
  function Link(edges: seq<Edge>, e: Entity, entityId: string, paperNodeId: string): (r: seq<Edge>)
    ensures edges <= r && |r| <= |edges| + 1
    ensures FindEdge(r, LinkId(e, entityId, paperNodeId)).Some?
    ensures FindEdge(edges, LinkId(e, entityId, paperNodeId)).None? ==>
      r == edges + [LinkEdge(e, entityId, paperNodeId)]
    ensures FindEdge(edges, LinkId(e, entityId, paperNodeId)).Some? ==> r == edges
    ensures UniqueEdgeIds(edges) ==> UniqueEdgeIds(r)
    ensures forall i :: |edges| <= i < |r| ==> r[i].kind == LinkKind(e)
  {
    var id := LinkId(e, entityId, paperNodeId);
    if FindEdge(edges, id).Some? then edges
    else
      FindEdgeAppend(edges, LinkEdge(e, entityId, paperNodeId), id);
      edges + [LinkEdge(e, entityId, paperNodeId)]
  }

  /** The outcome of a run of steps: `Threw` when the source would throw a
      TypeError, with the graph as it was at that point. */
  datatype Run = Running(graph: Graph) | Threw(graph: Graph)

  /** One mention of a name during ingestion (get or create, associate,
      link). `None` when the node found under the id has no papers list:
      the source then throws a TypeError before changing anything. */
  function UpsertStep(g: Graph, e: Entity, name: string, paperNodeId: string): (r: Option<Graph>)
    ensures r.None? <==>
      FindNode(g.nodes, EntityId(e, name)).Some? &&
      !g.nodes[FindNode(g.nodes, EntityId(e, name)).value].data.HasPapers()
  {
    var id := EntityId(e, name);
    var found := FindNode(g.nodes, id);
    var nodes := if found.Some? then g.nodes else g.nodes + [NewEntityNode(e, name)];
    var at := if found.Some? then found.value else |g.nodes|;
    if !nodes[at].data.HasPapers() then None
    else Some(Graph(nodes[at := Associate(nodes[at], e, paperNodeId)],
                    Link(g.edges, e, id, paperNodeId), g.metadata))
  }

  /** The mentions of a list of names, in list order, stopping at a throw. */
  function UpsertAll(g: Graph, e: Entity, names: seq<string>, paperNodeId: string): Run
    decreases |names|
  {
    if names == [] then Running(g)
    else match UpsertAll(g, e, names[..|names| - 1], paperNodeId)
      case Threw(g') => Threw(g')
      case Running(g') =>
        match UpsertStep(g', e, names[|names| - 1], paperNodeId)
        case None => Threw(g')
        case Some(g'') => Running(g'')
  }

  // ---------------------------------------------------------------------
  // Invariants of a graph built by the builder

  /** A node lives in the registry its id names, and only registry nodes
      carry a papers list. */
  predicate KeyMatchesPayload(n: Node) {
    KeyOf(n.id) == PayloadEntity(n.data)
  }

  predicate DistinctAssociations(n: Node) {
    n.data.HasPapers() ==> NoDuplicates(n.data.papers)
  }

  predicate WellFormed(g: Graph) {
    && UniqueNodeIds(g.nodes)
    && UniqueEdgeIds(g.edges)
    && (forall i :: 0 <= i < |g.nodes| ==> KeyMatchesPayload(g.nodes[i]))
    && (forall i :: 0 <= i < |g.nodes| ==> DistinctAssociations(g.nodes[i]))
  }

  /** The graph the service starts from, and returns to on a clear, is
      well-formed. */
  lemma EmptyGraphWellFormed(now: int)
    ensures WellFormed(EmptyGraph(now))
  {
  }

  /** What a step keeps of the graph before it: the ids in place, every
      node not under the mentioned id, all edges, and the metadata. */
  predicate Extends(g: Graph, g': Graph, id: string) {
    && |g.nodes| <= |g'.nodes|
    && (forall i :: 0 <= i < |g.nodes| ==> g'.nodes[i].id == g.nodes[i].id)
    && (forall i :: 0 <= i < |g.nodes| && g.nodes[i].id != id ==> g'.nodes[i] == g.nodes[i])
    && g.edges <= g'.edges
    && g'.metadata == g.metadata
  }

  /** Where a step puts the node of the mentioned id: where it was found,
      or at the end when it is new. */
  function StepIndex(g: Graph, e: Entity, name: string): nat {
    match FindNode(g.nodes, EntityId(e, name))
    case Some(k) => k
    case None => |g.nodes|
  }

  /** Whatever the graph, a step that does not throw keeps what came before,
      adds a node only when none has the id, and leaves the node under the
      id associated with the paper and linked to it; its name is the one
      seen first. The link edge is pushed only when its id is absent, so a
      name mentioned again adds no edge. */
  lemma UpsertStepSpec(g: Graph, e: Entity, name: string, paperNodeId: string)
    requires UpsertStep(g, e, name, paperNodeId).Some?
    ensures var g' := UpsertStep(g, e, name, paperNodeId).value;
      var id := EntityId(e, name);
      var at := StepIndex(g, e, name);
      && Extends(g, g', id)
      && |g'.nodes| == |g.nodes| + (if FindNode(g.nodes, id).None? then 1 else 0)
      && FindNode(g'.nodes, id) == Some(at)
      && g'.nodes[at].data.HasPapers()
      && paperNodeId in g'.nodes[at].data.papers
      && (at < |g.nodes| ==> forall q :: q in g.nodes[at].data.papers ==> q in g'.nodes[at].data.papers)
      && g'.nodes[at].labelText == (if at < |g.nodes| then g.nodes[at].labelText else name)
      && FindEdge(g'.edges, LinkId(e, id, paperNodeId)).Some?
      && (FindEdge(g.edges, LinkId(e, id, paperNodeId)).Some? ==> g'.edges == g.edges)
      && (FindEdge(g.edges, LinkId(e, id, paperNodeId)).None? ==>
            g'.edges == g.edges + [LinkEdge(e, id, paperNodeId)])
  {
    var id := EntityId(e, name);
    var created := NewEntityNode(e, name);
    var found := FindNode(g.nodes, id);
    var nodes := if found.Some? then g.nodes else g.nodes + [created];
    var at := StepIndex(g, e, name);
    var n := Associate(nodes[at], e, paperNodeId);
    PlaceNode(g.nodes, id, created, n, at);
    var g' := Graph(nodes[at := n], Link(g.edges, e, id, paperNodeId), g.metadata);
    assert UpsertStep(g, e, name, paperNodeId) == Some(g');
  }

  /** Rewriting the node found under an id, or a created one appended when
      there is none, keeps every other node and puts the id at that index. */
  lemma PlaceNode(nodes: seq<Node>, id: string, created: Node, n: Node, at: nat)
    requires created.id == id && n.id == id
    requires at == match FindNode(nodes, id) case Some(k) => k case None => |nodes|
    ensures var placed := (if FindNode(nodes, id).Some? then nodes else nodes + [created])[at := n];
      && |placed| == |nodes| + (if FindNode(nodes, id).None? then 1 else 0)
      && (forall i :: 0 <= i < |nodes| ==> placed[i].id == nodes[i].id)
      && (forall i :: 0 <= i < |nodes| && nodes[i].id != id ==> placed[i] == nodes[i])
      && FindNode(placed, id) == Some(at)
  {
    var placed := (if FindNode(nodes, id).Some? then nodes else nodes + [created])[at := n];
    FindNodeIs(placed, id, at);
  }

  /** A node appended under a created id keeps a graph well-formed. */
  lemma AppendNodeWellFormed(g: Graph, n: Node)
    requires WellFormed(g) && FindNode(g.nodes, n.id).None?
    requires KeyMatchesPayload(n) && DistinctAssociations(n)
    ensures WellFormed(g.(nodes := g.nodes + [n]))
  {
    var nodes := g.nodes + [n];
    forall i | 0 <= i < |nodes| ensures KeyMatchesPayload(nodes[i]) && DistinctAssociations(nodes[i]) {
      if i < |g.nodes| {
        assert nodes[i] == g.nodes[i];
      }
    }
  }

  /** A node rewritten in place under its own id keeps a graph well-formed. */
  lemma SetNodeWellFormed(g: Graph, at: nat, n: Node)
    requires WellFormed(g) && at < |g.nodes| && n.id == g.nodes[at].id
    requires KeyMatchesPayload(n) && DistinctAssociations(n)
    ensures WellFormed(g.(nodes := g.nodes[at := n]))
  {
    var nodes := g.nodes[at := n];
    forall i, j | 0 <= i < j < |nodes| ensures nodes[i].id != nodes[j].id {
      assert nodes[i].id == g.nodes[i].id && nodes[j].id == g.nodes[j].id;
    }
    forall i | 0 <= i < |nodes| ensures KeyMatchesPayload(nodes[i]) && DistinctAssociations(nodes[i]) {
      if i != at {
        assert nodes[i] == g.nodes[i];
      }
    }
  }

  /** On a well-formed graph a step does not throw and the graph stays
      well-formed: in particular no second node with the id appears. */
  lemma UpsertStepWellFormed(g: Graph, e: Entity, name: string, paperNodeId: string)
    requires WellFormed(g)
    ensures UpsertStep(g, e, name, paperNodeId).Some?
    ensures WellFormed(UpsertStep(g, e, name, paperNodeId).value)
  {
    var id := EntityId(e, name);
    KeyOfEntityId(e, name);
    var found := FindNode(g.nodes, id);
    var g1 := if found.Some? then g else g.(nodes := g.nodes + [NewEntityNode(e, name)]);
    if found.None? {
      AppendNodeWellFormed(g, NewEntityNode(e, name));
    }
    var at := StepIndex(g, e, name);
    assert KeyMatchesPayload(g1.nodes[at]);
    var n := Associate(g1.nodes[at], e, paperNodeId);
    SetNodeWellFormed(g1, at, n);
    var g2 := g1.(nodes := g1.nodes[at := n]);
    assert UpsertStep(g, e, name, paperNodeId) == Some(g2.(edges := Link(g.edges, e, id, paperNodeId)));
  }

  /** On a well-formed graph a list of names never throws and the graph
      stays well-formed. */
  lemma {:induction false} UpsertAllWellFormed(g: Graph, e: Entity, names: seq<string>, paperNodeId: string)
    requires WellFormed(g)
    ensures UpsertAll(g, e, names, paperNodeId).Running?
    ensures WellFormed(UpsertAll(g, e, names, paperNodeId).graph)
    decreases |names|
  {
    if names != [] {
      var init := names[..|names| - 1];
      UpsertAllWellFormed(g, e, init, paperNodeId);
      UpsertStepWellFormed(UpsertAll(g, e, init, paperNodeId).graph, e, names[|names| - 1], paperNodeId);
    }
  }

  /** On a well-formed graph a step links the mentioned id and keeps every
      link already made. */
  lemma StepLinks(g: Graph, e: Entity, name: string, paperNodeId: string)
    requires WellFormed(g)
    ensures UpsertStep(g, e, name, paperNodeId).Some?
    ensures Registered(UpsertStep(g, e, name, paperNodeId).value, e, name, paperNodeId)
    ensures forall id :: Linked(g, e, id, paperNodeId) ==> Linked(UpsertStep(g, e, name, paperNodeId).value, e, id, paperNodeId)
  {
    UpsertStepWellFormed(g, e, name, paperNodeId);
    StepRegisters(g, e, name, paperNodeId);
    forall id | Linked(g, e, id, paperNodeId) ensures Linked(UpsertStep(g, e, name, paperNodeId).value, e, id, paperNodeId) {
      StepKeepsLinked(g, e, name, id, paperNodeId);
    }
  }

  lemma StepRegisters(g: Graph, e: Entity, name: string, paperNodeId: string)
    requires UpsertStep(g, e, name, paperNodeId).Some?
    ensures Registered(UpsertStep(g, e, name, paperNodeId).value, e, name, paperNodeId)
  {
    UpsertStepSpec(g, e, name, paperNodeId);
  }

  lemma StepKeepsLinked(g: Graph, e: Entity, name: string, id: string, paperNodeId: string)
    requires UpsertStep(g, e, name, paperNodeId).Some? && Linked(g, e, id, paperNodeId)
    ensures Linked(UpsertStep(g, e, name, paperNodeId).value, e, id, paperNodeId)
  {
    if id == EntityId(e, name) {
      StepRegisters(g, e, name, paperNodeId);
    } else {
      UpsertStepSpec(g, e, name, paperNodeId);
      LinkedKept(g, UpsertStep(g, e, name, paperNodeId).value, e, id, paperNodeId, EntityId(e, name));
    }
  }

  /** On a well-formed graph every name of the list ends up registered. */
  lemma {:induction false} UpsertAllRegisters(g: Graph, e: Entity, names: seq<string>, paperNodeId: string)
    requires WellFormed(g)
    ensures UpsertAll(g, e, names, paperNodeId).Running?
    ensures forall l :: l in names ==> Registered(UpsertAll(g, e, names, paperNodeId).graph, e, l, paperNodeId)
    decreases |names|
  {
    UpsertAllWellFormed(g, e, names, paperNodeId);
    if names != [] {
      var init := names[..|names| - 1];
      var last := names[|names| - 1];
      UpsertAllRegisters(g, e, init, paperNodeId);
      UpsertAllWellFormed(g, e, init, paperNodeId);
      var g' := UpsertAll(g, e, init, paperNodeId).graph;
      StepLinks(g', e, last, paperNodeId);
      assert UpsertAll(g, e, names, paperNodeId).graph == UpsertStep(g', e, last, paperNodeId).value;
      forall l | l in names ensures Registered(UpsertStep(g', e, last, paperNodeId).value, e, l, paperNodeId) {
        if l != last {
          assert l in init;
        }
      }
    }
  }

  /** The same for a whole list of names: every name ends up with a
      node associated with the paper and linked to it. */
  lemma UpsertAllSpec(g: Graph, e: Entity, names: seq<string>, paperNodeId: string)
    requires WellFormed(g)
    ensures var r := UpsertAll(g, e, names, paperNodeId);
      && r.Running?
      && WellFormed(r.graph)
      && |g.nodes| <= |r.graph.nodes|
      && (forall i :: 0 <= i < |g.nodes| ==> r.graph.nodes[i].id == g.nodes[i].id)
      && g.edges <= r.graph.edges
      && r.graph.metadata == g.metadata
      && (forall l :: l in names ==> Registered(r.graph, e, l, paperNodeId))
  {
    UpsertAllWellFormed(g, e, names, paperNodeId);
    UpsertAllRegisters(g, e, names, paperNodeId);
    UpsertAllGrows(g, e, names, paperNodeId);
  }

  /** The id has a node associated with the paper, and the link edge
      exists. */
  predicate Linked(g: Graph, e: Entity, id: string, paperNodeId: string) {
    && FindNode(g.nodes, id).Some?
    && g.nodes[FindNode(g.nodes, id).value].data.HasPapers()
    && paperNodeId in g.nodes[FindNode(g.nodes, id).value].data.papers
    && FindEdge(g.edges, LinkId(e, id, paperNodeId)).Some?
  }

  /** The name has a node under its id, associated with the paper, and
      the link edge exists. */
  predicate Registered(g: Graph, e: Entity, name: string, paperNodeId: string) {
    Linked(g, e, EntityId(e, name), paperNodeId)
  }

  /** A step under another id keeps a link. */
  lemma LinkedKept(g: Graph, g': Graph, e: Entity, id: string, paperNodeId: string, stepId: string)
    requires Linked(g, e, id, paperNodeId)
    requires Extends(g, g', stepId) && id != stepId
    ensures Linked(g', e, id, paperNodeId)
  {
    var k := FindNode(g.nodes, id).value;
    assert g'.nodes[k] == g.nodes[k];
    FindNodeIs(g'.nodes, id, k);
    var lid := LinkId(e, id, paperNodeId);
    var j := FindEdge(g.edges, lid).value;
    FindEdgeIs(g'.edges, lid, j);
  }

  /** What any run of steps in the registry `e` keeps, thrown or not: the
      ids in place, every node outside the registry, all edges and the
      metadata; new nodes are registry nodes. */
  predicate Grows(g: Graph, g': Graph, e: Entity) {
    && |g.nodes| <= |g'.nodes|
    && (forall i :: 0 <= i < |g.nodes| ==> g'.nodes[i].id == g.nodes[i].id)
    && (forall i :: 0 <= i < |g.nodes| && KeyOf(g.nodes[i].id) != Some(e) ==> g'.nodes[i] == g.nodes[i])
    && (forall i :: |g.nodes| <= i < |g'.nodes| ==> KeyOf(g'.nodes[i].id) == Some(e))
    && g.edges <= g'.edges
    && (forall i :: |g.edges| <= i < |g'.edges| ==> g'.edges[i].kind == LinkKind(e))
    && g'.metadata == g.metadata
  }

  lemma StepGrows(g: Graph, e: Entity, name: string, paperNodeId: string)
    requires UpsertStep(g, e, name, paperNodeId).Some?
    ensures Grows(g, UpsertStep(g, e, name, paperNodeId).value, e)
  {
    var id := EntityId(e, name);
    KeyOfEntityId(e, name);
    var created := NewEntityNode(e, name);
    var nodes := if FindNode(g.nodes, id).Some? then g.nodes else g.nodes + [created];
    var at := StepIndex(g, e, name);
    var n := Associate(nodes[at], e, paperNodeId);
    PlaceNode(g.nodes, id, created, n, at);
    var g' := UpsertStep(g, e, name, paperNodeId).value;
    assert g'.nodes == nodes[at := n];
    assert g'.edges == Link(g.edges, e, id, paperNodeId);
  }

  lemma GrowsTransitive(g: Graph, g': Graph, g'': Graph, e: Entity)
    requires Grows(g, g', e) && Grows(g', g'', e)
    ensures Grows(g, g'', e)
  {
    assert forall i :: |g.nodes| <= i < |g'.nodes| ==> g''.nodes[i].id == g'.nodes[i].id;
    assert forall i :: |g.edges| <= i < |g'.edges| ==> g''.edges[i] == g'.edges[i];
  }

  lemma {:induction false} UpsertAllGrows(g: Graph, e: Entity, names: seq<string>, paperNodeId: string)
    ensures Grows(g, UpsertAll(g, e, names, paperNodeId).graph, e)
    decreases |names|
  {
    if names != [] {
      var init := names[..|names| - 1];
      UpsertAllGrows(g, e, init, paperNodeId);
      match UpsertAll(g, e, init, paperNodeId)
      case Threw(_) =>
      case Running(g') =>
        var name := names[|names| - 1];
        if UpsertStep(g', e, name, paperNodeId).Some? {
          StepGrows(g', e, name, paperNodeId);
          GrowsTransitive(g, g', UpsertStep(g', e, name, paperNodeId).value, e);
        }
    }
  }

  /** The ids a list of names has in registry `e`. */
  function NamedIds(e: Entity, names: seq<string>): set<string> {
    set l | l in names :: EntityId(e, l)
  }

  /** The ids stay in place, a node whose id is not among `ids` keeps its
      value, and every node added has one of `ids`. */
  predicate TouchesOnly(g: Graph, g': Graph, ids: set<string>) {
    && |g.nodes| <= |g'.nodes|
    && (forall i :: 0 <= i < |g.nodes| ==> g'.nodes[i].id == g.nodes[i].id)
    && (forall i :: 0 <= i < |g.nodes| && g.nodes[i].id !in ids ==> g'.nodes[i] == g.nodes[i])
    && (forall i :: |g.nodes| <= i < |g'.nodes| ==> g'.nodes[i].id in ids)
  }

  lemma TouchesOnlyTransitive(g: Graph, g': Graph, g'': Graph, ids: set<string>, ids': set<string>)
    requires TouchesOnly(g, g', ids) && TouchesOnly(g', g'', ids')
    ensures TouchesOnly(g, g'', ids + ids')
  {
    assert forall i :: |g.nodes| <= i < |g'.nodes| ==> g''.nodes[i].id == g'.nodes[i].id;
  }

  lemma TouchesOnlyWider(g: Graph, g': Graph, ids: set<string>, ids': set<string>)
    requires TouchesOnly(g, g', ids) && ids <= ids'
    ensures TouchesOnly(g, g', ids')
  {
  }

  /** A step rewrites or appends only the node of its own name. */
  lemma StepTouches(g: Graph, e: Entity, name: string, paperNodeId: string)
    requires UpsertStep(g, e, name, paperNodeId).Some?
    ensures TouchesOnly(g, UpsertStep(g, e, name, paperNodeId).value, {EntityId(e, name)})
  {
    var id := EntityId(e, name);
    var created := NewEntityNode(e, name);
    var nodes := if FindNode(g.nodes, id).Some? then g.nodes else g.nodes + [created];
    var at := StepIndex(g, e, name);
    var n := Associate(nodes[at], e, paperNodeId);
    PlaceNode(g.nodes, id, created, n, at);
    assert UpsertStep(g, e, name, paperNodeId).value.nodes == nodes[at := n];
  }

  /** Thrown or not, a run of names rewrites only the nodes under the ids of
      those names and appends only nodes under them: a registry node whose
      id no listed name has keeps its value. */
  lemma {:induction false} UpsertAllTouches(g: Graph, e: Entity, names: seq<string>, paperNodeId: string)
    ensures TouchesOnly(g, UpsertAll(g, e, names, paperNodeId).graph, NamedIds(e, names))
    decreases |names|
  {
    if names != [] {
      var init := names[..|names| - 1];
      var name := names[|names| - 1];
      assert names == init + [name];
      assert NamedIds(e, names) == NamedIds(e, init) + {EntityId(e, name)};
      UpsertAllTouches(g, e, init, paperNodeId);
      match UpsertAll(g, e, init, paperNodeId)
      case Threw(_) =>
        TouchesOnlyWider(g, UpsertAll(g, e, names, paperNodeId).graph, NamedIds(e, init), NamedIds(e, names));
      case Running(g') =>
        if UpsertStep(g', e, name, paperNodeId).Some? {
          StepTouches(g', e, name, paperNodeId);
          TouchesOnlyTransitive(g, g', UpsertStep(g', e, name, paperNodeId).value, NamedIds(e, init), {EntityId(e, name)});
        } else {
          TouchesOnlyWider(g, g', NamedIds(e, init), NamedIds(e, names));
        }
    }
  }

  /** Once a run has thrown, the rest of the list changes nothing. */
  lemma {:induction false} ThrewSticks(g: Graph, e: Entity, names: seq<string>, k: nat, paperNodeId: string)
    requires k <= |names|
    requires UpsertAll(g, e, names[..k], paperNodeId).Threw?
    ensures UpsertAll(g, e, names, paperNodeId) == UpsertAll(g, e, names[..k], paperNodeId)
    decreases |names| - k
  {
    if k < |names| {
      assert names[..k + 1][..k] == names[..k];
      ThrewSticks(g, e, names, k + 1, paperNodeId);
    } else {
      assert names[..k] == names;
    }
  }

  /** A registration in one registry survives runs in another. */
  lemma RegisteredGrows(g: Graph, g': Graph, e: Entity, e': Entity, name: string, paperNodeId: string)
    requires Registered(g, e, name, paperNodeId)
    requires Grows(g, g', e') && e != e'
    ensures Registered(g', e, name, paperNodeId)
  {
    KeyOfEntityId(e, name);
    LinkedGrows(g, g', e, e', EntityId(e, name), paperNodeId);
  }

  lemma LinkedGrows(g: Graph, g': Graph, e: Entity, e': Entity, id: string, paperNodeId: string)
    requires Linked(g, e, id, paperNodeId) && KeyOf(id) == Some(e)
    requires Grows(g, g', e') && e != e'
    ensures Linked(g', e, id, paperNodeId)
  {
    var k := FindNode(g.nodes, id).value;
    FindNodeIs(g'.nodes, id, k);
    var j := FindEdge(g.edges, LinkId(e, id, paperNodeId)).value;
    FindEdgeIs(g'.edges, LinkId(e, id, paperNodeId), j);
  }

  // ---------------------------------------------------------------------
  // Edge ids that name a paper

  /** The id starts or ends with the paper's node id, as every link id of
      the paper does. */
  predicate MentionsPaper(id: string, paperNodeId: string) {
    || paperNodeId <= id
    || (|paperNodeId| <= |id| && id[|id| - |paperNodeId|..] == paperNodeId)
  }

  /** Edges are only appended, each under an id that names the paper. */
  predicate AppendsMentioning(before: seq<Edge>, after: seq<Edge>, paperNodeId: string) {
    && before <= after
    && forall i :: |before| <= i < |after| ==> MentionsPaper(after[i].id, paperNodeId)
  }

  lemma AppendsMentioningTransitive(a: seq<Edge>, b: seq<Edge>, c: seq<Edge>, paperNodeId: string)
    requires AppendsMentioning(a, b, paperNodeId) && AppendsMentioning(b, c, paperNodeId)
    ensures AppendsMentioning(a, c, paperNodeId)
  {
    assert forall i :: |a| <= i < |b| ==> c[i] == b[i];
  }

  /** Authorship ids end with the paper's node id, containment ids start
      with it. */
  lemma LinkIdMentions(e: Entity, entityId: string, paperNodeId: string)
    ensures MentionsPaper(LinkId(e, entityId, paperNodeId), paperNodeId)
  {
    var id := LinkId(e, entityId, paperNodeId);
    match e
    case Author =>
      assert id[|id| - |paperNodeId|..] == paperNodeId;
    case Topic =>
      assert id[..|paperNodeId|] == paperNodeId;
    case Keyword =>
      assert id[..|paperNodeId|] == paperNodeId;
  }

  /** A step appends at most its link edge. */
  lemma StepMentions(g: Graph, e: Entity, name: string, paperNodeId: string)
    requires UpsertStep(g, e, name, paperNodeId).Some?
    ensures AppendsMentioning(g.edges, UpsertStep(g, e, name, paperNodeId).value.edges, paperNodeId)
  {
    var id := EntityId(e, name);
    var r := Link(g.edges, e, id, paperNodeId);
    assert UpsertStep(g, e, name, paperNodeId).value.edges == r;
    LinkIdMentions(e, id, paperNodeId);
    if |r| > |g.edges| {
      assert r == g.edges + [LinkEdge(e, id, paperNodeId)];
    }
  }

  /** A run of steps, thrown or not, appends only link edges of the paper. */
  lemma {:induction false} UpsertAllMentions(g: Graph, e: Entity, names: seq<string>, paperNodeId: string)
    ensures AppendsMentioning(g.edges, UpsertAll(g, e, names, paperNodeId).graph.edges, paperNodeId)
    decreases |names|
  {
    if names != [] {
      var init := names[..|names| - 1];
      UpsertAllMentions(g, e, init, paperNodeId);
      match UpsertAll(g, e, init, paperNodeId)
      case Threw(_) =>
      case Running(g') =>
        var name := names[|names| - 1];
        if UpsertStep(g', e, name, paperNodeId).Some? {
          StepMentions(g', e, name, paperNodeId);
          AppendsMentioningTransitive(g.edges, g'.edges, UpsertStep(g', e, name, paperNodeId).value.edges, paperNodeId);
        }
    }
  }
}
