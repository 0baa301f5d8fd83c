/**
 * Adding one paper, as a function of the graph before: the paper node
 * replaces any node with its id and goes to the end, the authors, topics
 * and first five keywords are registered in list order, the collaboration
 * and similarity rules run, and the counts in the metadata are refreshed.
 */
module Ingestion {
  import opened Wrappers
  import opened Text
  import opened GraphModel
  import opened Registry
  import opened Synthesizer

  // ---------------------------------------------------------------------
  // The paper node

  const DefaultColor := "#6B7280"

  /** The fixed category palette; two categories share a colour. */
  const CategoryColors: map<string, string> := map[
    "Machine Learning" := "#3B82F6",
    "Computer Science" := "#6366F1",
    "Physics" := "#8B5CF6",
    "Mathematics" := "#A855F7",
    "Biology" := "#10B981",
    "Chemistry" := "#059669",
    "Engineering" := "#DC2626",
    "Medicine" := "#EA580C",
    "Psychology" := "#D97706",
    "Economics" := "#CA8A04",
    "Climate Science" := "#65A30D",
    "Quantum Physics" := "#7C3AED",
    "Biotechnology" := "#059669",
    "Renewable Energy" := "#16A34A",
    "Blockchain" := "#2563EB"
  ]

  predicate IsHexDigit(c: char) {
    '0' <= c <= '9' || 'A' <= c <= 'F'
  }

  /** `#` followed by six upper-case hexadecimal digits. */
  predicate IsHexColor(s: string) {
    |s| == 7 && s[0] == '#' && forall i :: 1 <= i < 7 ==> IsHexDigit(s[i])
  }

  /** The palette colour of a category; the grey fallback is used exactly
      when the category is not in the palette. */
  function CategoryColor(category: string): (r: string)
    ensures IsHexColor(r)
    ensures category in CategoryColors ==> r == CategoryColors[category]
    ensures r == DefaultColor <==> category !in CategoryColors
  {
    if category in CategoryColors then CategoryColors[category] else DefaultColor
  }

  /** A tenth of the citation count plus 10, clamped to [10, 50]. */
  function PaperSize(citations: int): (r: real)
    ensures 10.0 <= r <= 50.0
    ensures r == 10.0 <==> citations <= 0
    ensures r == 50.0 <==> citations >= 400
    ensures 0 <= citations <= 400 ==> r == citations as real / 10.0 + 10.0
  {
    var raw := citations as real / 10.0 + 10.0;
    if raw < 10.0 then 10.0 else if raw > 50.0 then 50.0 else raw
  }

  /** More citations never make a paper node smaller. */
  lemma PaperSizeMonotone(m: int, n: int)
    requires m <= n
    ensures PaperSize(m) <= PaperSize(n)
  {
  }

  function PaperNode(p: Paper, a: Analysis): (n: Node)
    ensures n.id == PaperNodeId(p.id) && n.Kind() == PaperKind
    ensures n.labelText == p.title && n.data == PaperData(p, Some(a))
  {
    Node(PaperNodeId(p.id), p.title, PaperData(p, Some(a)), PaperSize(p.citations), CategoryColor(p.category))
  }

  /** Only the first five keywords are registered. */
  function LinkedKeywords(a: Analysis): (r: seq<string>)
    ensures |r| <= 5 && r <= a.keywords
    ensures |a.keywords| <= 5 ==> r == a.keywords
    ensures |a.keywords| > 5 ==> |r| == 5
  {
    a.keywords[..if |a.keywords| < 5 then |a.keywords| else 5]
  }

  /** The nodes with another id, in storage order. */
  function Without(nodes: seq<Node>, id: string): (r: seq<Node>)
    ensures IsSubsequence(r, nodes)
    ensures forall n :: n in r <==> n in nodes && n.id != id
    ensures forall n :: multiset(r)[n] == if n.id != id then multiset(nodes)[n] else 0
  {
    Filter(nodes, (n: Node) => n.id != id)
  }

  /** The metadata after a change: the creation time kept, the update time
      and the three counts recomputed. */
  function Refreshed(m: Metadata, nodes: seq<Node>, now: int): Metadata {
    Metadata(m.createdAt, now, CountKind(nodes, PaperKind), CountKind(nodes, AuthorKind), CountKind(nodes, TopicKind))
  }

  // ---------------------------------------------------------------------
  // The whole operation

  /** The graph after the operation and the node it returns; `None` when
      it throws, with the graph as it was left at that point. */
  datatype Ingested = Ingested(graph: Graph, returned: Option<Node>)

  /** The graph with the paper node put in place of any node with its id. */
  function Placed(g: Graph, p: Paper, a: Analysis): Graph {
    g.(nodes := Without(g.nodes, PaperNodeId(p.id)) + [PaperNode(p, a)])
  }

  /** Authors, then topics, then the first five keywords. */
  function Register(g: Graph, p: Paper, a: Analysis): Run {
    var pid := PaperNodeId(p.id);
    match UpsertAll(g, Author, p.authors, pid)
    case Threw(h) => Threw(h)
    case Running(g1) =>
      match UpsertAll(g1, Topic, a.topics, pid)
      case Threw(h) => Threw(h)
      case Running(g2) => UpsertAll(g2, Keyword, LinkedKeywords(a), pid)
  }

  /** The edges after the two derived rules. */
  function Derived(g: Graph, p: Paper, a: Analysis): seq<Edge> {
    var pid := PaperNodeId(p.id);
    SimilarAll(CollabEdges(g.edges, p.authors), pid, a, OtherPapers(g.nodes, pid))
  }

  function Ingest(g: Graph, p: Paper, a: Analysis, now: int): Ingested {
    match Register(Placed(g, p, a), p, a)
    case Threw(h) => Ingested(h, None)
    case Running(g3) =>
      Ingested(Graph(g3.nodes, Derived(g3, p, a), Refreshed(g3.metadata, g3.nodes, now)), Some(PaperNode(p, a)))
  }

  // ---------------------------------------------------------------------
  // Properties

  /** Registration keeps every node outside the three registries and all
      edges, and only adds registry nodes and link edges; which registry
      nodes it touches is stated by `RegisterTouches`. */
  lemma RegisterFrame(g: Graph, p: Paper, a: Analysis)
    ensures var g' := Register(g, p, a).graph;
      && |g.nodes| <= |g'.nodes|
      && (forall i :: 0 <= i < |g.nodes| ==> g'.nodes[i].id == g.nodes[i].id)
      && (forall i :: 0 <= i < |g.nodes| && KeyOf(g.nodes[i].id).None? ==> g'.nodes[i] == g.nodes[i])
      && (forall i :: |g.nodes| <= i < |g'.nodes| ==> KeyOf(g'.nodes[i].id).Some?)
      && g.edges <= g'.edges
      && (forall i :: |g.edges| <= i < |g'.edges| ==> g'.edges[i].kind in {AuthoredBy, ContainsTopic})
      && g'.metadata == g.metadata
  {
    var pid := PaperNodeId(p.id);
    UpsertAllGrows(g, Author, p.authors, pid);
    match UpsertAll(g, Author, p.authors, pid)
    case Threw(_) =>
    case Running(g1) =>
      UpsertAllGrows(g1, Topic, a.topics, pid);
      match UpsertAll(g1, Topic, a.topics, pid)
      case Threw(_) =>
      case Running(g2) =>
        UpsertAllGrows(g2, Keyword, LinkedKeywords(a), pid);
        var g3 := UpsertAll(g2, Keyword, LinkedKeywords(a), pid).graph;
        assert forall i :: |g1.nodes| <= i < |g2.nodes| ==> g3.nodes[i].id == g2.nodes[i].id;
        assert forall i :: |g.edges| <= i < |g1.edges| ==> g3.edges[i] == g1.edges[i];
        assert forall i :: |g1.edges| <= i < |g2.edges| ==> g3.edges[i] == g2.edges[i];
  }

  /** The three runs, thrown or not, touch only the nodes of the listed
      authors, topics and linked keywords. */
  lemma RegisterTouches(g: Graph, p: Paper, a: Analysis)
    ensures TouchesOnly(g, Register(g, p, a).graph,
      NamedIds(Author, p.authors) + NamedIds(Topic, a.topics) + NamedIds(Keyword, LinkedKeywords(a)))
  {
    var pid := PaperNodeId(p.id);
    var authors := NamedIds(Author, p.authors);
    var topics := NamedIds(Topic, a.topics);
    var keywords := NamedIds(Keyword, LinkedKeywords(a));
    UpsertAllTouches(g, Author, p.authors, pid);
    match UpsertAll(g, Author, p.authors, pid)
    case Threw(_) =>
      TouchesOnlyWider(g, Register(g, p, a).graph, authors, authors + topics + keywords);
    case Running(g1) =>
      UpsertAllTouches(g1, Topic, a.topics, pid);
      TouchesOnlyTransitive(g, g1, UpsertAll(g1, Topic, a.topics, pid).graph, authors, topics);
      match UpsertAll(g1, Topic, a.topics, pid)
      case Threw(_) =>
        TouchesOnlyWider(g, Register(g, p, a).graph, authors + topics, authors + topics + keywords);
      case Running(g2) =>
        UpsertAllTouches(g2, Keyword, LinkedKeywords(a), pid);
        TouchesOnlyTransitive(g, g2, Register(g, p, a).graph, authors + topics, keywords);
  }

  /** Whether or not it throws, adding a paper rewrites or adds only the
      nodes of the paper itself and of the authors, topics and linked
      keywords it lists; every other node keeps its place and value. */
  lemma IngestTouches(g: Graph, p: Paper, a: Analysis, now: int)
    ensures TouchesOnly(Placed(g, p, a), Ingest(g, p, a, now).graph,
      NamedIds(Author, p.authors) + NamedIds(Topic, a.topics) + NamedIds(Keyword, LinkedKeywords(a)))
  {
    RegisterTouches(Placed(g, p, a), p, a);
  }

  /** Whether or not it throws, the operation leaves exactly one node with
      the paper's id: the new paper node, right after the nodes with other
      ids, which keep their places; nodes outside the registries among them
      are unchanged. */
  lemma IngestPaperNode(g: Graph, p: Paper, a: Analysis, now: int)
    ensures var r := Ingest(g, p, a, now).graph;
      var w := Without(g.nodes, PaperNodeId(p.id));
      && |w| < |r.nodes|
      && r.nodes[|w|] == PaperNode(p, a)
      && (forall i :: 0 <= i < |r.nodes| ==> (r.nodes[i].id == PaperNodeId(p.id) <==> i == |w|))
      && (forall i :: 0 <= i < |w| ==> r.nodes[i].id == w[i].id)
      && (forall i :: 0 <= i < |w| && KeyOf(w[i].id).None? ==> r.nodes[i] == w[i])
  {
    var pid := PaperNodeId(p.id);
    var w := Without(g.nodes, pid);
    var g0 := Placed(g, p, a);
    KeyOfPaperNodeId(p.id);
    RegisterFrame(g0, p, a);
    var g3 := Register(g0, p, a).graph;
    assert Ingest(g, p, a, now).graph.nodes == g3.nodes;
    forall i | 0 <= i < |w| ensures w[i].id != pid {
      assert w[i] in w;
    }
    LastNodeStays(w, PaperNode(p, a), g3.nodes);
  }

  /** A node outside the registries appended after nodes with other ids
      stays the only node with its id while registry nodes are added. */
  lemma LastNodeStays(w: seq<Node>, n: Node, nodes: seq<Node>)
    requires KeyOf(n.id).None? && forall i :: 0 <= i < |w| ==> w[i].id != n.id
    requires |w| + 1 <= |nodes|
    requires forall i :: 0 <= i <= |w| ==> nodes[i].id == (w + [n])[i].id
    requires forall i :: 0 <= i <= |w| && KeyOf((w + [n])[i].id).None? ==> nodes[i] == (w + [n])[i]
    requires forall i :: |w| + 1 <= i < |nodes| ==> KeyOf(nodes[i].id).Some?
    ensures nodes[|w|] == n
    ensures forall i :: 0 <= i < |nodes| ==> (nodes[i].id == n.id <==> i == |w|)
    ensures forall i :: 0 <= i < |w| ==> nodes[i].id == w[i].id
    ensures forall i :: 0 <= i < |w| && KeyOf(w[i].id).None? ==> nodes[i] == w[i]
  {
    assert (w + [n])[|w|] == n;
    forall i | 0 <= i < |w| ensures (w + [n])[i] == w[i] {
    }
  }

  /** Whether or not it throws, no edge is removed or re-keyed; only
      collaboration weights change. */
  lemma IngestEdges(g: Graph, p: Paper, a: Analysis, now: int)
    ensures EdgesExtend(g.edges, Ingest(g, p, a, now).graph.edges)
  {
    var g0 := Placed(g, p, a);
    RegisterFrame(g0, p, a);
    match Register(g0, p, a)
    case Threw(_) =>
    case Running(g3) =>
      var pid := PaperNodeId(p.id);
      var e4 := CollabEdges(g3.edges, p.authors);
      CollabEdgesSpec(g3.edges, p.authors);
      SimilarAllAppends(e4, pid, a, OtherPapers(g3.nodes, pid));
      EdgesExtendTransitive(g.edges, g3.edges, e4);
  }

  /** A completed operation returns the paper node and refreshes the
      counts; a thrown one leaves the metadata untouched. */
  lemma IngestMetadata(g: Graph, p: Paper, a: Analysis, now: int)
    ensures var r := Ingest(g, p, a, now);
      && (r.returned.Some? ==> r.returned.value == PaperNode(p, a))
      && (r.returned.Some? ==> r.graph.metadata == Refreshed(g.metadata, r.graph.nodes, now))
      && (r.returned.None? ==> r.graph.metadata == g.metadata)
  {
    RegisterFrame(Placed(g, p, a), p, a);
  }

  /** Placing the paper node keeps a graph well-formed. */
  lemma PlacedWellFormed(g: Graph, p: Paper, a: Analysis)
    requires WellFormed(g)
    ensures WellFormed(Placed(g, p, a))
  {
    var pid := PaperNodeId(p.id);
    var w := Without(g.nodes, pid);
    KeyOfPaperNodeId(p.id);
    SubsequenceWellFormed(g, w);
    forall i | 0 <= i < |w| ensures w[i].id != pid {
      assert w[i] in w;
    }
    AppendNodeWellFormed(g.(nodes := w), PaperNode(p, a));
    assert Placed(g, p, a) == g.(nodes := w + [PaperNode(p, a)]);
  }

  /** Leaving nodes out keeps a graph well-formed. */
  lemma SubsequenceWellFormed(g: Graph, w: seq<Node>)
    requires WellFormed(g) && IsSubsequence(w, g.nodes)
    ensures WellFormed(g.(nodes := w))
  {
    SubsequenceUniqueIds(w, g.nodes);
    SubsequenceMembers(w, g.nodes);
    forall i | 0 <= i < |w| ensures KeyMatchesPayload(w[i]) && DistinctAssociations(w[i]) {
      assert w[i] in g.nodes;
      var j :| 0 <= j < |g.nodes| && g.nodes[j] == w[i];
    }
  }

  /** Registration on a well-formed graph does not throw, keeps it
      well-formed, and registers every author, topic and linked keyword. */
  lemma RegisterWellFormed(g: Graph, p: Paper, a: Analysis)
    requires WellFormed(g)
    ensures var r := Register(g, p, a);
      && r.Running?
      && WellFormed(r.graph)
      && (forall l :: l in p.authors ==> Registered(r.graph, Author, l, PaperNodeId(p.id)))
      && (forall l :: l in a.topics ==> Registered(r.graph, Topic, l, PaperNodeId(p.id)))
      && (forall l :: l in LinkedKeywords(a) ==> Registered(r.graph, Keyword, l, PaperNodeId(p.id)))
  {
    var pid := PaperNodeId(p.id);
    UpsertAllSpec(g, Author, p.authors, pid);
    var g1 := UpsertAll(g, Author, p.authors, pid).graph;
    UpsertAllSpec(g1, Topic, a.topics, pid);
    UpsertAllGrows(g1, Topic, a.topics, pid);
    var g2 := UpsertAll(g1, Topic, a.topics, pid).graph;
    UpsertAllSpec(g2, Keyword, LinkedKeywords(a), pid);
    UpsertAllGrows(g2, Keyword, LinkedKeywords(a), pid);
    var g3 := UpsertAll(g2, Keyword, LinkedKeywords(a), pid).graph;
    forall l | l in p.authors ensures Registered(g3, Author, l, pid) {
      RegisteredGrows(g1, g2, Author, Topic, l, pid);
      RegisteredGrows(g2, g3, Author, Keyword, l, pid);
    }
    forall l | l in a.topics ensures Registered(g3, Topic, l, pid) {
      RegisteredGrows(g2, g3, Topic, Keyword, l, pid);
    }
  }

  lemma RegisteredDerived(g: Graph, g': Graph, e: Entity, name: string, paperNodeId: string)
    requires Registered(g, e, name, paperNodeId)
    requires g'.nodes == g.nodes && EdgesExtend(g.edges, g'.edges)
    ensures Registered(g', e, name, paperNodeId)
  {
    FindEdgeExtended(g.edges, g'.edges, LinkId(e, EntityId(e, name), paperNodeId));
  }

  /** On a well-formed graph the operation completes, returns the paper
      node, leaves the graph well-formed (one node per id, one edge per id,
      no paper listed twice on a node), and leaves every author, topic and
      linked keyword of the paper with a node associated with the paper and
      a link edge. */
  lemma IngestWellFormed(g: Graph, p: Paper, a: Analysis, now: int)
    requires WellFormed(g)
    ensures var r := Ingest(g, p, a, now);
      && r.returned == Some(PaperNode(p, a))
      && WellFormed(r.graph)
      && (forall l :: l in p.authors ==> Registered(r.graph, Author, l, PaperNodeId(p.id)))
      && (forall l :: l in a.topics ==> Registered(r.graph, Topic, l, PaperNodeId(p.id)))
      && (forall l :: l in LinkedKeywords(a) ==> Registered(r.graph, Keyword, l, PaperNodeId(p.id)))
  {
    var pid := PaperNodeId(p.id);
    var g0 := Placed(g, p, a);
    PlacedWellFormed(g, p, a);
    RegisterWellFormed(g0, p, a);
    var g3 := Register(g0, p, a).graph;
    var e4 := CollabEdges(g3.edges, p.authors);
    CollabEdgesSpec(g3.edges, p.authors);
    SimilarAllAppends(e4, pid, a, OtherPapers(g3.nodes, pid));
    var e5 := Derived(g3, p, a);
    EdgesExtendTransitive(g3.edges, e4, e5);
    var r := Ingest(g, p, a, now).graph;
    assert r.nodes == g3.nodes && r.edges == e5;
    forall l | l in p.authors ensures Registered(r, Author, l, pid) {
      RegisteredDerived(g3, r, Author, l, pid);
    }
    forall l | l in a.topics ensures Registered(r, Topic, l, pid) {
      RegisteredDerived(g3, r, Topic, l, pid);
    }
    forall l | l in LinkedKeywords(a) ensures Registered(r, Keyword, l, pid) {
      RegisteredDerived(g3, r, Keyword, l, pid);
    }
  }

  /** A completed operation adds a similarity edge from the new paper to
      every other paper scored strictly above 0.3, and every similarity
      edge it adds is such an edge, weighted and labelled by the score. */
  lemma IngestSimilarity(g: Graph, p: Paper, a: Analysis, now: int)
    ensures var r := Ingest(g, p, a, now);
      var others := OtherPapers(r.graph.nodes, PaperNodeId(p.id));
      r.returned.Some? ==>
        && (forall o :: o in others && Exceeds(Similarity(a, AnalysisOf(o))) ==>
              FindEdge(r.graph.edges, SimilarId(PaperNodeId(p.id), o.id)).Some?)
        && (forall i :: |g.edges| <= i < |r.graph.edges| && r.graph.edges[i].kind == SimilarTo ==>
              SimilarityEdgeFor(r.graph.edges[i], PaperNodeId(p.id), a, others))
  {
    var pid := PaperNodeId(p.id);
    var g0 := Placed(g, p, a);
    RegisterFrame(g0, p, a);
    match Register(g0, p, a)
    case Threw(_) =>
    case Running(g3) =>
      var others := OtherPapers(g3.nodes, pid);
      var e4 := CollabEdges(g3.edges, p.authors);
      CollabEdgesSpec(g3.edges, p.authors);
      forall i | |g.edges| <= i < |e4| ensures e4[i].kind != SimilarTo {
        if i < |g3.edges| {
          assert e4[i].kind == g3.edges[i].kind;
        }
      }
      var r := Ingest(g, p, a, now).graph;
      assert r.nodes == g3.nodes && r.edges == SimilarAll(e4, pid, a, others);
      NewSimilarEdges(g.edges, e4, pid, a, others);
      SimilarAllCovers(e4, pid, a, others);
  }

  /** The similarity rule run after edges of other kinds were added: every
      similarity edge past the old ones is one the rule added. */
  lemma NewSimilarEdges(before: seq<Edge>, edges: seq<Edge>, paperNodeId: string, a: Analysis, others: seq<Node>)
    requires |before| <= |edges|
    requires forall i :: |before| <= i < |edges| ==> edges[i].kind != SimilarTo
    ensures var r := SimilarAll(edges, paperNodeId, a, others);
      forall i :: |before| <= i < |r| && r[i].kind == SimilarTo ==> SimilarityEdgeFor(r[i], paperNodeId, a, others)
  {
    SimilarAllAppends(edges, paperNodeId, a, others);
    SimilarAllAdds(edges, paperNodeId, a, others);
  }

  /** Registration, thrown or not, appends only link edges of the paper. */
  lemma RegisterMentions(g: Graph, p: Paper, a: Analysis)
    ensures AppendsMentioning(g.edges, Register(g, p, a).graph.edges, PaperNodeId(p.id))
  {
    var pid := PaperNodeId(p.id);
    UpsertAllMentions(g, Author, p.authors, pid);
    match UpsertAll(g, Author, p.authors, pid)
    case Threw(_) =>
    case Running(g1) =>
      UpsertAllMentions(g1, Topic, a.topics, pid);
      AppendsMentioningTransitive(g.edges, g1.edges, UpsertAll(g1, Topic, a.topics, pid).graph.edges, pid);
      match UpsertAll(g1, Topic, a.topics, pid)
      case Threw(_) =>
      case Running(g2) =>
        UpsertAllMentions(g2, Keyword, LinkedKeywords(a), pid);
        AppendsMentioningTransitive(g.edges, g2.edges, UpsertAll(g2, Keyword, LinkedKeywords(a), pid).graph.edges, pid);
  }

  /** Every similarity edge id starts with the paper's node id. */
  lemma SimilarAllMentions(edges: seq<Edge>, paperNodeId: string, a: Analysis, others: seq<Node>)
    ensures AppendsMentioning(edges, SimilarAll(edges, paperNodeId, a, others), paperNodeId)
  {
    var r := SimilarAll(edges, paperNodeId, a, others);
    SimilarAllAppends(edges, paperNodeId, a, others);
    SimilarAllAdds(edges, paperNodeId, a, others);
    forall i | |edges| <= i < |r| ensures MentionsPaper(r[i].id, paperNodeId) {
      SimilarEdgeMentions(r[i], paperNodeId, a, others);
    }
  }

  lemma SimilarEdgeMentions(e: Edge, paperNodeId: string, a: Analysis, others: seq<Node>)
    requires SimilarityEdgeFor(e, paperNodeId, a, others)
    ensures MentionsPaper(e.id, paperNodeId)
  {
    var o :| o in others && var s := Similarity(a, AnalysisOf(o));
      Exceeds(s) && e == SimilarEdge(paperNodeId, o.id, s.v);
    SimilarIdMentions(paperNodeId, o.id);
  }

  lemma SimilarIdMentions(paperNodeId: string, otherId: string)
    ensures MentionsPaper(SimilarId(paperNodeId, otherId), paperNodeId)
  {
    assert SimilarId(paperNodeId, otherId)[..|paperNodeId|] == paperNodeId;
  }

  /** A completed addition raises the weight of every id by the number of
      index pairs i < j of the paper's authors that produce it, so a pair
      co-listed on k papers ends with weight k. The ids set aside are those
      naming the paper itself (its link and similarity edges); a
      collaboration id is one of them only when an author's name contains
      the paper's node id. */
  lemma IngestCollabWeights(g: Graph, p: Paper, a: Analysis, now: int)
    ensures var r := Ingest(g, p, a, now);
      r.returned.Some? ==>
        forall x :: !MentionsPaper(x, PaperNodeId(p.id)) ==>
          WeightOf(r.graph.edges, x) == WeightOf(g.edges, x) + PairCount(AuthorPairs(p.authors), x) as real
  {
    var pid := PaperNodeId(p.id);
    var g0 := Placed(g, p, a);
    RegisterMentions(g0, p, a);
    match Register(g0, p, a)
    case Threw(_) =>
    case Running(g3) =>
      var e4 := CollabEdges(g3.edges, p.authors);
      var others := OtherPapers(g3.nodes, pid);
      CollabEdgesSpec(g3.edges, p.authors);
      SimilarAllMentions(e4, pid, a, others);
      var r := SimilarAll(e4, pid, a, others);
      assert Ingest(g, p, a, now).graph.edges == r;
      forall x | !MentionsPaper(x, pid)
        ensures WeightOf(r, x) == WeightOf(g.edges, x) + PairCount(AuthorPairs(p.authors), x) as real
      {
        WeightAfterAppends(g.edges, g3.edges, x);
        WeightAfterAppends(e4, r, x);
      }
  }
}
