/**
 * Read-only views of the graph (search, nodes of one kind, neighbours,
 * statistics) and its export to and import from a parsed document.
 */
module Queries {
  import opened Wrappers
  import opened Text
  import opened GraphModel
  import opened Ingestion

  // ---------------------------------------------------------------------
  // Search

  /** The abstract of a paper node; other nodes have none. */
  function AbstractOf(n: Node): Option<string> {
    if n.data.PaperData? then n.data.paper.abstractText else None
  }

  /** A node matches a lower-cased query when its lower-cased label, or the
      lower-cased abstract of a paper, contains it. */
  predicate Matches(n: Node, lowered: string) {
    || Contains(Lower(n.labelText), lowered)
    || (AbstractOf(n).Some? && Contains(Lower(AbstractOf(n).value), lowered))
  }

  function Found(nodes: seq<Node>, lowered: string): (r: seq<Node>)
    ensures IsSubsequence(r, nodes)
    ensures forall n :: n in r <==> n in nodes && Matches(n, lowered)
    ensures forall n :: multiset(r)[n] == if Matches(n, lowered) then multiset(nodes)[n] else 0
  {
    Filter(nodes, (n: Node) => Matches(n, lowered))
  }

  /** The matching nodes, in storage order. */
  function SearchNodes(nodes: seq<Node>, query: string): (r: seq<Node>)
    ensures IsSubsequence(r, nodes)
    ensures forall n :: n in r <==> n in nodes && Matches(n, Lower(query))
    ensures forall n :: multiset(r)[n] == if Matches(n, Lower(query)) then multiset(nodes)[n] else 0
  {
    Found(nodes, Lower(query))
  }

  /** Every label contains the empty query, so it returns every node. */
  lemma {:induction false} SearchEmptyQuery(nodes: seq<Node>)
    ensures SearchNodes(nodes, "") == nodes
  {
    FoundEverything(nodes);
  }

  lemma FoundEverything(nodes: seq<Node>)
    ensures Found(nodes, "") == nodes
  {
    forall n | n in nodes ensures Matches(n, "") {
      assert Contains(Lower(n.labelText), "");
    }
    FilterAll(nodes, (n: Node) => Matches(n, ""));
  }

  /** The query's case does not matter. */
  lemma SearchIgnoresCase(nodes: seq<Node>, query: string)
    ensures SearchNodes(nodes, Lower(query)) == SearchNodes(nodes, query)
  {
    LowerIdempotent(query);
  }

  lemma LowerConcat(a: string, b: string)
    ensures Lower(a + b) == Lower(a) + Lower(b)
  {
    assert forall i :: 0 <= i < |a + b| ==> Lower(a + b)[i] == (Lower(a) + Lower(b))[i];
  }

  lemma ContainsLonger(hay: string, a: string, b: string)
    requires Contains(hay, a + b)
    ensures Contains(hay, a)
  {
    ContainsAt(hay, a + b);
    ContainsAt(hay, a);
    var i :| 0 <= i <= |hay| && a + b <= hay[i..];
    assert a <= hay[i..];
  }

  /** Lengthening a query never adds results. */
  lemma SearchNarrows(nodes: seq<Node>, query: string, more: string)
    ensures forall n :: n in SearchNodes(nodes, query + more) ==> n in SearchNodes(nodes, query)
  {
    LowerConcat(query, more);
    forall n | n in SearchNodes(nodes, query + more) ensures Matches(n, Lower(query)) {
      if Contains(Lower(n.labelText), Lower(query) + Lower(more)) {
        ContainsLonger(Lower(n.labelText), Lower(query), Lower(more));
      } else {
        ContainsLonger(Lower(AbstractOf(n).value), Lower(query), Lower(more));
      }
    }
  }

  // ---------------------------------------------------------------------
  // Neighbours

  /** The ids an edge scan collects for `id`: the target of an edge leaving
      it, otherwise the source of an edge entering it. */
  function Neighbours(edges: seq<Edge>, id: string): set<string>
    decreases |edges|
  {
    if edges == [] then {}
    else
      var e := edges[|edges| - 1];
      var rest := Neighbours(edges[..|edges| - 1], id);
      if e.source == id then rest + {e.target}
      else if e.target == id then rest + {e.source}
      else rest
  }

  /** The node ids sharing an edge with `id`, in either direction. */
  predicate Adjacent(edges: seq<Edge>, id: string, x: string) {
    exists e :: e in edges && ((e.source == id && e.target == x) || (e.target == id && e.source == x))
  }

  /** The scan collects exactly the ids adjacent to `id`: the `else` loses
      nothing, since an edge from `id` to itself adds `id` either way. */
  lemma {:induction false} NeighboursAdjacent(edges: seq<Edge>, id: string)
    ensures forall x :: x in Neighbours(edges, id) <==> Adjacent(edges, id, x)
    decreases |edges|
  {
    if edges != [] {
      var init := edges[..|edges| - 1];
      var e := edges[|edges| - 1];
      NeighboursAdjacent(init, id);
      assert edges == init + [e];
      forall x ensures Adjacent(edges, id, x) <==> Adjacent(init, id, x) || (e.source == id && e.target == x) || (e.target == id && e.source == x) {
        if Adjacent(edges, id, x) {
          var f :| f in edges && ((f.source == id && f.target == x) || (f.target == id && f.source == x));
          if f != e {
            assert f in init;
          }
        }
      }
    }
  }

  /** The nodes sharing an edge with `id`, in storage order. */
  function Connected(nodes: seq<Node>, edges: seq<Edge>, id: string): (r: seq<Node>)
    ensures IsSubsequence(r, nodes)
    ensures forall n :: n in r <==> n in nodes && Adjacent(edges, id, n.id)
    ensures forall n :: multiset(r)[n] == if Adjacent(edges, id, n.id) then multiset(nodes)[n] else 0
    ensures UniqueNodeIds(nodes) ==> UniqueNodeIds(r)
  {
    NeighboursAdjacent(edges, id);
    var r := Filter(nodes, (n: Node) => n.id in Neighbours(edges, id));
    assert UniqueNodeIds(nodes) ==> UniqueNodeIds(r) by {
      if UniqueNodeIds(nodes) {
        SubsequenceUniqueIds(r, nodes);
      }
    }
    r
  }

  // ---------------------------------------------------------------------
  // Statistics

  datatype NodeCounts = NodeCounts(papers: nat, authors: nat, topics: nat, keywords: nat, citations: nat)

  datatype EdgeCounts = EdgeCounts(citations: nat, authorships: nat, topics: nat, similarities: nat, collaborations: nat)

  datatype Stats = Stats(nodes: NodeCounts, edges: EdgeCounts, totalNodes: nat, totalEdges: nat)

  /** Every node has exactly one of the five kinds. */
  lemma {:induction false} NodeKindsPartition(nodes: seq<Node>)
    ensures CountKind(nodes, PaperKind) + CountKind(nodes, AuthorKind) + CountKind(nodes, TopicKind)
      + CountKind(nodes, KeywordKind) + CountKind(nodes, CitationKind) == |nodes|
  {
    if nodes != [] {
      NodeKindsPartition(nodes[1..]);
      CountKindCons(nodes, PaperKind);
      CountKindCons(nodes, AuthorKind);
      CountKindCons(nodes, TopicKind);
      CountKindCons(nodes, KeywordKind);
      CountKindCons(nodes, CitationKind);
    }
  }

  /** Every edge has exactly one of the five kinds. */
  lemma {:induction false} EdgeKindsPartition(edges: seq<Edge>)
    ensures CountEdgeKind(edges, Cites) + CountEdgeKind(edges, AuthoredBy) + CountEdgeKind(edges, ContainsTopic)
      + CountEdgeKind(edges, SimilarTo) + CountEdgeKind(edges, CollaboratesWith) == |edges|
  {
    if edges != [] {
      EdgeKindsPartition(edges[1..]);
      CountEdgeKindCons(edges, Cites);
      CountEdgeKindCons(edges, AuthoredBy);
      CountEdgeKindCons(edges, ContainsTopic);
      CountEdgeKindCons(edges, SimilarTo);
      CountEdgeKindCons(edges, CollaboratesWith);
    }
  }

  lemma CountKindCons(nodes: seq<Node>, kind: NodeKind)
    requires nodes != []
    ensures CountKind(nodes, kind) == CountKind(nodes[1..], kind) + (if nodes[0].Kind() == kind then 1 else 0)
  {
  }

  lemma CountEdgeKindCons(edges: seq<Edge>, kind: EdgeKind)
    requires edges != []
    ensures CountEdgeKind(edges, kind) == CountEdgeKind(edges[1..], kind) + (if edges[0].kind == kind then 1 else 0)
  {
  }

  /** Counts per kind and totals; the per-kind counts add up to the totals. */
  function GraphStats(g: Graph): (s: Stats)
    ensures s.totalNodes == |g.nodes| && s.totalEdges == |g.edges|
    ensures s.nodes.papers + s.nodes.authors + s.nodes.topics + s.nodes.keywords + s.nodes.citations == s.totalNodes
    ensures s.edges.citations + s.edges.authorships + s.edges.topics + s.edges.similarities + s.edges.collaborations == s.totalEdges
  {
    NodeKindsPartition(g.nodes);
    EdgeKindsPartition(g.edges);
    Stats(
      NodeCounts(CountKind(g.nodes, PaperKind), CountKind(g.nodes, AuthorKind), CountKind(g.nodes, TopicKind),
                 CountKind(g.nodes, KeywordKind), CountKind(g.nodes, CitationKind)),
      EdgeCounts(CountEdgeKind(g.edges, Cites), CountEdgeKind(g.edges, AuthoredBy), CountEdgeKind(g.edges, ContainsTopic),
                 CountEdgeKind(g.edges, SimilarTo), CountEdgeKind(g.edges, CollaboratesWith)),
      |g.nodes|, |g.edges|)
  }

  /** After a completed addition the stored totals agree with the
      statistics of the graph. */
  lemma IngestStatsAgree(g: Graph, p: Paper, a: Analysis, now: int)
    ensures var r := Ingest(g, p, a, now);
      var s := GraphStats(r.graph);
      r.returned.Some? ==>
        && r.graph.metadata.totalPapers == s.nodes.papers
        && r.graph.metadata.totalAuthors == s.nodes.authors
        && r.graph.metadata.totalTopics == s.nodes.topics
        && r.graph.metadata.updatedAt == now
        && r.graph.metadata.createdAt == g.metadata.createdAt
  {
    IngestMetadata(g, p, a, now);
  }

  // ---------------------------------------------------------------------
  // Export and import

  /** A document as the JSON parser leaves it: text that does not parse,
      the `null` value, or a value whose three sections are each present or
      absent (absent covering every falsy value). */
  datatype Document =
    | Unparsable
    | NullValue
    | Parsed(nodes: Option<seq<Node>>, edges: Option<seq<Edge>>, metadata: Option<Metadata>)

  const ImportError := "Invalid graph data"

  function Export(g: Graph): (d: Document)
    ensures d.Parsed? && d.nodes.Some? && d.edges.Some? && d.metadata.Some?
  {
    Parsed(Some(g.nodes), Some(g.edges), Some(g.metadata))
  }

  /** The graph after importing `d` into `g`: failure for a document that
      does not parse or is `null` (reading a section of it throws), the
      document's graph when all three sections are present, and `g` itself
      otherwise. */
  function Import(g: Graph, d: Document): (r: Result<Graph, string>)
    ensures r.Failure? <==> d.Unparsable? || d.NullValue?
    ensures r.Failure? ==> r.error == ImportError
  {
    match d
    case Unparsable => Failure(ImportError)
    case NullValue => Failure(ImportError)
    case Parsed(nodes, edges, metadata) =>
      if nodes.Some? && edges.Some? && metadata.Some? then Success(Graph(nodes.value, edges.value, metadata.value))
      else Success(g)
  }

  /** Importing an export gives back the exported graph, whatever the
      current graph. */
  lemma ImportExport(current: Graph, g: Graph)
    ensures Import(current, Export(g)) == Success(g)
  {
  }

  /** A parsed document missing any section is ignored without an error. */
  lemma ImportIncomplete(g: Graph, d: Document)
    requires d.Parsed? && (d.nodes.None? || d.edges.None? || d.metadata.None?)
    ensures Import(g, d) == Success(g)
  {
  }
}
