/**
 * The graph service: one graph held in three fields that its operations
 * update in place. Each method is proved against the function of the
 * graph value that specifies it.
 */
module Service {
  import opened Wrappers
  import opened Text
  import opened GraphModel
  import opened Registry
  import opened Synthesizer
  import opened Ingestion
  import opened Queries

  class GraphService {
    var nodes: seq<Node>
    var edges: seq<Edge>
    var metadata: Metadata

    /** The graph the fields hold. */
    function Value(): Graph
      reads this
    {
      Graph(nodes, edges, metadata)
    }

    /** The graph is well-formed: a service that is only built, cleared and
        added to keeps this, so its additions never throw. */
    ghost predicate Valid()
      reads this
    {
      WellFormed(Value())
    }

    /** An empty graph created and updated at `now`. */
    constructor (now: int)
      ensures Value() == EmptyGraph(now)
      ensures Valid()
    {
      nodes := [];
      edges := [];
      metadata := Metadata(now, now, 0, 0, 0);
      EmptyGraphWellFormed(now);
    }

    /** Adds a paper with its analysis; `None` where the source throws. */
    method AddPaper(paper: Paper, analysis: Analysis, now: int) returns (r: Option<Node>)
      modifies this
      ensures Ingest(old(Value()), paper, analysis, now) == Ingested(Value(), r)
      ensures old(Valid()) ==> Valid() && r == Some(PaperNode(paper, analysis))
    {
      if Valid() {
        IngestWellFormed(Value(), paper, analysis, now);
      }
      var paperNodeId := PaperNodeId(paper.id);
      var paperNode := PaperNode(paper, analysis);
      nodes := Without(nodes, paperNodeId) + [paperNode];
      ghost var placed := Value();
      assert placed == Placed(old(Value()), paper, analysis);

      var ok := UpsertEach(Author, paper.authors, paperNodeId);
      if !ok {
        r := None;
        return;
      }
      ok := UpsertEach(Topic, analysis.topics, paperNodeId);
      if !ok {
        r := None;
        return;
      }
      ok := UpsertEach(Keyword, LinkedKeywords(analysis), paperNodeId);
      if !ok {
        r := None;
        return;
      }
      assert Register(placed, paper, analysis) == Running(Value());

      UpdateCollaborationEdges(paper.authors);
      UpdateSimilarityEdges(paperNodeId, analysis);
      UpdateMetadata(now);
      r := Some(paperNode);
    }

    /** The mentions of a list of names, in order; `false` at a throw. */
    method UpsertEach(e: Entity, names: seq<string>, paperNodeId: string) returns (ok: bool)
      modifies this
      ensures UpsertAll(old(Value()), e, names, paperNodeId) == (if ok then Running(Value()) else Threw(Value()))
    {
      ghost var start := Value();
      for i := 0 to |names|
        invariant UpsertAll(start, e, names[..i], paperNodeId) == Running(Value())
      {
        assert names[..i + 1][..i] == names[..i];
        ok := Upsert(e, names[i], paperNodeId);
        if !ok {
          ThrewSticks(start, e, names, i + 1, paperNodeId);
          return;
        }
      }
      assert names[..|names|] == names;
      ok := true;
    }

    /** One mention: get or create the node, associate the paper with it,
        and link it to the paper; `false`, with nothing changed, when the
        node found has no papers list. */
    method Upsert(e: Entity, name: string, paperNodeId: string) returns (ok: bool)
      modifies this
      ensures UpsertStep(old(Value()), e, name, paperNodeId) == (if ok then Some(Value()) else None)
      ensures !ok ==> Value() == old(Value())
    {
      var id := EntityId(e, name);
      var found := FindNode(nodes, id);
      var at: nat;
      if found.None? {
        nodes := nodes + [NewEntityNode(e, name)];
        at := |nodes| - 1;
      } else {
        at := found.value;
      }
      if !nodes[at].data.HasPapers() {
        ok := false;
        return;
      }
      nodes := nodes[at := Associate(nodes[at], e, paperNodeId)];
      var linkId := LinkId(e, id, paperNodeId);
      if FindEdge(edges, linkId).None? {
        edges := edges + [LinkEdge(e, id, paperNodeId)];
      }
      ok := true;
    }

    /** Every index pair i < j of the author list, in order: the pair's
        edge is created with weight 1 or its weight grows by 1. */
    method UpdateCollaborationEdges(authors: seq<string>)
      modifies this`edges
      ensures edges == CollabEdges(old(edges), authors)
    {
      CollabEdgesAllPairs(edges, authors);
      if |authors| < 2 {
        return;
      }
      CollaborateAll(authors);
    }

    /** The nested loops over the index pairs. */
    method CollaborateAll(authors: seq<string>)
      modifies this`edges
      ensures edges == CollabAll(old(edges), AuthorPairs(authors))
    {
      ghost var start := edges;
      for i := 0 to |authors|
        invariant edges == CollabAll(start, Rows(authors, i))
      {
        CollaborateRow(authors, i);
        CollabRowsStep(start, authors, i);
      }
    }

    /** The pairs (i, j) for every j after i. */
    method CollaborateRow(authors: seq<string>, i: nat)
      requires i < |authors|
      modifies this`edges
      ensures edges == CollabAll(old(edges), Row(authors, i, |authors|))
    {
      ghost var rowStart := edges;
      for j := i + 1 to |authors|
        invariant edges == CollabAll(rowStart, Row(authors, i, j))
      {
        var author1Id := EntityId(Author, authors[i]);
        var author2Id := EntityId(Author, authors[j]);
        CollabAllStep(rowStart, Row(authors, i, j), (authors[i], authors[j]));
        Collaborate(author1Id, author2Id);
      }
    }

    /** One co-listing of an ordered pair of author ids. */
    method Collaborate(author1Id: string, author2Id: string)
      modifies this`edges
      ensures edges == CollabPair(old(edges), author1Id, author2Id)
    {
      var edgeId := CollabId(author1Id, author2Id);
      var found := FindEdge(edges, edgeId);
      if found.None? {
        edges := edges + [Edge(edgeId, author1Id, author2Id, CollaboratesWith, 1.0, None)];
      } else {
        var k := found.value;
        edges := edges[k := edges[k].(weight := edges[k].weight + 1.0)];
      }
    }

    /** An edge from the paper to every other paper scored strictly above
        0.3 whose edge id is not taken yet. */
    method UpdateSimilarityEdges(paperNodeId: string, analysis: Analysis)
      modifies this`edges
      ensures edges == SimilarAll(old(edges), paperNodeId, analysis, OtherPapers(nodes, paperNodeId))
    {
      SimilarToEach(paperNodeId, analysis, OtherPapers(nodes, paperNodeId));
    }

    /** The loop over the other papers. */
    method SimilarToEach(paperNodeId: string, analysis: Analysis, others: seq<Node>)
      modifies this`edges
      ensures edges == SimilarAll(old(edges), paperNodeId, analysis, others)
    {
      ghost var start := edges;
      for i := 0 to |others|
        invariant edges == SimilarAll(start, paperNodeId, analysis, others[..i])
      {
        assert others[..i + 1][..i] == others[..i];
        var other := others[i];
        var similarity := Similarity(analysis, AnalysisOf(other));
        if Exceeds(similarity) {
          var edgeId := SimilarId(paperNodeId, other.id);
          if FindEdge(edges, edgeId).None? {
            edges := edges + [SimilarEdge(paperNodeId, other.id, similarity.v)];
          }
        }
      }
      assert others[..|others|] == others;
    }

    method UpdateMetadata(now: int)
      modifies this`metadata
      ensures metadata == Refreshed(old(metadata), nodes, now)
    {
      metadata := metadata.(
        updatedAt := now,
        totalPapers := CountKind(nodes, PaperKind),
        totalAuthors := CountKind(nodes, AuthorKind),
        totalTopics := CountKind(nodes, TopicKind));
    }

    /** The nodes sharing an edge with `nodeId`, in storage order. */
    method ConnectedNodes(nodeId: string) returns (r: seq<Node>)
      ensures r == Connected(nodes, edges, nodeId)
      ensures forall n :: n in r <==> n in nodes && Adjacent(edges, nodeId, n.id)
    {
      var connectedIds: set<string> := {};
      for i := 0 to |edges|
        invariant connectedIds == Neighbours(edges[..i], nodeId)
      {
        assert edges[..i + 1][..i] == edges[..i];
        var edge := edges[i];
        if edge.source == nodeId {
          connectedIds := connectedIds + {edge.target};
        } else if edge.target == nodeId {
          connectedIds := connectedIds + {edge.source};
        }
      }
      assert edges[..|edges|] == edges;
      r := Filter(nodes, (n: Node) => n.id in connectedIds);
    }

    /** Replaces the graph by the document's when all three sections are
        present; `false`, with the graph unchanged, where the source
        throws. */
    method ImportGraph(d: Document) returns (ok: bool)
      modifies this
      ensures ok <==> Import(old(Value()), d).Success?
      ensures ok ==> Value() == Import(old(Value()), d).value
      ensures !ok ==> Value() == old(Value())
    {
      match d
      case Unparsable =>
        ok := false;
      case NullValue =>
        ok := false;
      case Parsed(n, e, m) =>
        if n.Some? && e.Some? && m.Some? {
          nodes := n.value;
          edges := e.value;
          metadata := m.value;
        }
        ok := true;
    }

    /** An empty graph created and updated at `now`. */
    method ClearGraph(now: int)
      modifies this
      ensures Value() == EmptyGraph(now)
      ensures Valid()
    {
      nodes := [];
      edges := [];
      metadata := Metadata(now, now, 0, 0, 0);
      EmptyGraphWellFormed(now);
    }
  }
}
