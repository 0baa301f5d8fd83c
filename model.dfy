/**
 * The knowledge graph as a value: nodes of five kinds, edges of five kinds
 * and the count metadata, with the list operations the builder uses on
 * them (`filter`, `find` by id) and the invariants a graph built by the
 * builder keeps.
 */
module GraphModel {
  import opened Wrappers
  import opened Text

  datatype NodeKind = PaperKind | AuthorKind | TopicKind | CitationKind | KeywordKind

  datatype EdgeKind = Cites | AuthoredBy | ContainsTopic | SimilarTo | CollaboratesWith

  /** The paper record handed to the builder. An absent author list,
      citation count or category behaves exactly as `[]`, `0` or an unknown
      category, so those are what stand for absence here. */
  datatype Paper = Paper(
    id: string,
    title: string,
    authors: seq<string>,
    category: string,
    citations: int,
    abstractText: Option<string>)

  /** The text-analysis record; an absent list behaves as `[]`. */
  datatype Analysis = Analysis(topics: seq<string>, keywords: seq<string>)

  /** The kind-specific payload of a node (its `data`). */
  datatype Payload =
    | PaperData(paper: Paper, analysis: Option<Analysis>)
    | AuthorData(name: string, papers: seq<string>)
    | TopicData(topic: string, papers: seq<string>)
    | KeywordData(keyword: string, papers: seq<string>)
    | CitationData
  {
    /** Author, topic and keyword payloads carry the list of associated paper ids. */
    predicate HasPapers() {
      AuthorData? || TopicData? || KeywordData?
    }
  }

  datatype Node = Node(id: string, labelText: string, data: Payload, size: real, color: string)
  {
    function Kind(): NodeKind {
      match data
      case PaperData(_, _) => PaperKind
      case AuthorData(_, _) => AuthorKind
      case TopicData(_, _) => TopicKind
      case KeywordData(_, _) => KeywordKind
      case CitationData => CitationKind
    }
  }

  /** An edge; an absent weight behaves as 0 everywhere it is read. */
  datatype Edge = Edge(
    id: string,
    source: string,
    target: string,
    kind: EdgeKind,
    weight: real,
    labelText: Option<string>)

  /** Creation and update times are opaque clock readings. */
  datatype Metadata = Metadata(
    createdAt: int,
    updatedAt: int,
    totalPapers: nat,
    totalAuthors: nat,
    totalTopics: nat)

  datatype Graph = Graph(nodes: seq<Node>, edges: seq<Edge>, metadata: Metadata)

  function EmptyGraph(now: int): (g: Graph)
    ensures g.nodes == [] && g.edges == []
    ensures g.metadata.totalPapers == g.metadata.totalAuthors == g.metadata.totalTopics == 0
  {
    Graph([], [], Metadata(now, now, 0, 0, 0))
  }

  // ---------------------------------------------------------------------
  // Array.prototype.filter and Array.prototype.find

  /** `sub` is `s` with some elements left out, the rest in their order. */
  predicate IsSubsequence<T(==)>(sub: seq<T>, s: seq<T>)
    decreases |s|
  {
    if sub == [] then true
    else if s == [] then false
    else if sub[0] == s[0] then IsSubsequence(sub[1..], s[1..])
    else IsSubsequence(sub, s[1..])
  }

  /** The elements of `s` that satisfy `p`, in storage order. */
  function Filter<T(==,!new)>(s: seq<T>, p: T -> bool): (r: seq<T>)
    ensures IsSubsequence(r, s)
    ensures forall x :: x in r <==> x in s && p(x)
    ensures forall x :: multiset(r)[x] == if p(x) then multiset(s)[x] else 0
    ensures |r| <= |s|
  {
    if s == [] then []
    else
      assert s == [s[0]] + s[1..];
      if p(s[0]) then [s[0]] + Filter(s[1..], p)
      else Filter(s[1..], p)
  }

  /** A filter that every element passes keeps the whole sequence. */
  lemma {:induction false} FilterAll<T(!new)>(s: seq<T>, p: T -> bool)
    requires forall x :: x in s ==> p(x)
    ensures Filter(s, p) == s
  {
    if s != [] {
      FilterAll(s[1..], p);
      assert s == [s[0]] + s[1..];
    }
  }

  lemma {:induction false} SubsequenceMembers<T(!new)>(sub: seq<T>, s: seq<T>)
    requires IsSubsequence(sub, s)
    ensures forall x :: x in sub ==> x in s
    decreases |s|
  {
    if sub != [] && s != [] {
      assert s == [s[0]] + s[1..];
      if sub[0] == s[0] {
        SubsequenceMembers(sub[1..], s[1..]);
        assert sub == [sub[0]] + sub[1..];
      } else {
        SubsequenceMembers(sub, s[1..]);
      }
    }
  }

  /** No two nodes share an id. */
  predicate UniqueNodeIds(nodes: seq<Node>) {
    forall i, j :: 0 <= i < j < |nodes| ==> nodes[i].id != nodes[j].id
  }

  /** No two edges share an id. */
  predicate UniqueEdgeIds(edges: seq<Edge>) {
    forall i, j :: 0 <= i < j < |edges| ==> edges[i].id != edges[j].id
  }

  /** Leaving nodes out keeps ids distinct. */
  lemma {:induction false} SubsequenceUniqueIds(sub: seq<Node>, s: seq<Node>)
    requires IsSubsequence(sub, s) && UniqueNodeIds(s)
    ensures UniqueNodeIds(sub)
    decreases |s|
  {
    if sub != [] && s != [] {
      assert UniqueNodeIds(s[1..]);
      if sub[0] == s[0] {
        SubsequenceUniqueIds(sub[1..], s[1..]);
        SubsequenceMembers(sub[1..], s[1..]);
        forall j | 0 < j < |sub| ensures sub[0].id != sub[j].id {
          assert sub[j] == sub[1..][j - 1];
          assert sub[j] in s[1..];
          var k :| 0 <= k < |s[1..]| && s[1..][k] == sub[j];
          assert s[k + 1] == sub[j];
        }
      } else {
        SubsequenceUniqueIds(sub, s[1..]);
      }
    }
  }

  /** The index of the first occurrence of `id` (`find` by id). */
  function IndexOf(ids: seq<string>, id: string): (r: Option<nat>)
    ensures r.Some? ==> r.value < |ids| && ids[r.value] == id
    ensures r.Some? ==> forall j :: 0 <= j < r.value ==> ids[j] != id
    ensures r.None? <==> forall j :: 0 <= j < |ids| ==> ids[j] != id
  {
    if ids == [] then None
    else if ids[0] == id then Some(0)
    else match IndexOf(ids[1..], id)
      case None => None
      case Some(k) => Some(k + 1)
  }

  /** The index of the first node with this id (`nodes.find`). */
  function FindNode(nodes: seq<Node>, id: string): (r: Option<nat>)
    ensures r.Some? ==> r.value < |nodes| && nodes[r.value].id == id
    ensures r.Some? ==> forall j :: 0 <= j < r.value ==> nodes[j].id != id
    ensures r.None? <==> forall j :: 0 <= j < |nodes| ==> nodes[j].id != id
  {
    var ids := seq(|nodes|, i requires 0 <= i < |nodes| => nodes[i].id);
    assert forall j :: 0 <= j < |nodes| ==> ids[j] == nodes[j].id;
    IndexOf(ids, id)
  }

  /** The index of the first edge with this id (`edges.find`). */
  function FindEdge(edges: seq<Edge>, id: string): (r: Option<nat>)
    ensures r.Some? ==> r.value < |edges| && edges[r.value].id == id
    ensures r.Some? ==> forall j :: 0 <= j < r.value ==> edges[j].id != id
    ensures r.None? <==> forall j :: 0 <= j < |edges| ==> edges[j].id != id
  {
    var ids := seq(|edges|, i requires 0 <= i < |edges| => edges[i].id);
    assert forall j :: 0 <= j < |edges| ==> ids[j] == edges[j].id;
    IndexOf(ids, id)
  }

  /** The first node with an id is wherever the id first occurs. */
  lemma FindNodeIs(nodes: seq<Node>, id: string, k: nat)
    requires k < |nodes| && nodes[k].id == id
    requires forall j :: 0 <= j < k ==> nodes[j].id != id
    ensures FindNode(nodes, id) == Some(k)
  {
  }

  lemma FindEdgeIs(edges: seq<Edge>, id: string, k: nat)
    requires k < |edges| && edges[k].id == id
    requires forall j :: 0 <= j < k ==> edges[j].id != id
    ensures FindEdge(edges, id) == Some(k)
  {
  }

  /** Appending an edge changes the lookup only of its own id, and only
      when that id was absent. */
  lemma FindEdgeAppend(edges: seq<Edge>, e: Edge, id: string)
    ensures FindEdge(edges + [e], id) ==
      if FindEdge(edges, id).Some? then FindEdge(edges, id)
      else if e.id == id then Some(|edges|) else None
  {
    var s := edges + [e];
    match FindEdge(edges, id)
    case Some(k) => FindEdgeIs(s, id, k);
    case None =>
      if e.id == id {
        FindEdgeIs(s, id, |edges|);
      }
  }

  lemma FindEdgeAppendAll(edges: seq<Edge>, e: Edge)
    ensures forall x :: FindEdge(edges, x).Some? ==> FindEdge(edges + [e], x) == FindEdge(edges, x)
    ensures forall x :: FindEdge(edges, x).None? ==>
                          FindEdge(edges + [e], x) == if e.id == x then Some(|edges|) else None
  {
    forall x { FindEdgeAppend(edges, e, x); }
  }

  /** Rewriting an edge in place under the same id changes no lookup. */
  lemma FindEdgeUpdate(edges: seq<Edge>, k: nat, e: Edge, id: string)
    requires k < |edges| && e.id == edges[k].id
    ensures FindEdge(edges[k := e], id) == FindEdge(edges, id)
  {
    var s := edges[k := e];
    match FindEdge(edges, id)
    case Some(j) => FindEdgeIs(s, id, j);
    case None =>
  }

  lemma FindEdgeUpdateAll(edges: seq<Edge>, k: nat, e: Edge)
    requires k < |edges| && e.id == edges[k].id
    ensures forall x :: FindEdge(edges[k := e], x) == FindEdge(edges, x)
  {
    forall x { FindEdgeUpdate(edges, k, e, x); }
  }

  /** The weight of the first edge with this id, 0 when there is none. */
  function WeightOf(edges: seq<Edge>, id: string): real {
    match FindEdge(edges, id)
    case Some(k) => edges[k].weight
    case None => 0.0
  }

  /** Appending an edge under an absent id gives that id the edge's weight
      and leaves every other weight alone. */
  lemma WeightAfterAppend(edges: seq<Edge>, e: Edge, x: string)
    requires FindEdge(edges, e.id).None?
    ensures WeightOf(edges + [e], x) == WeightOf(edges, x) + (if x == e.id then e.weight else 0.0)
  {
    FindEdgeAppend(edges, e, x);
    if FindEdge(edges, x).Some? {
      var k := FindEdge(edges, x).value;
      assert (edges + [e])[k] == edges[k];
    }
  }

  /** Raising the weight of the first edge with its id by 1 raises that id's
      weight by 1 and leaves every other weight alone. */
  lemma WeightAfterBump(edges: seq<Edge>, k: nat, x: string)
    requires k < |edges| && FindEdge(edges, edges[k].id) == Some(k)
    ensures WeightOf(edges[k := edges[k].(weight := edges[k].weight + 1.0)], x)
      == WeightOf(edges, x) + (if x == edges[k].id then 1.0 else 0.0)
  {
    var e := edges[k].(weight := edges[k].weight + 1.0);
    FindEdgeUpdate(edges, k, e, x);
    if x == edges[k].id {
      assert FindEdge(edges, x) == Some(k);
    } else if FindEdge(edges, x).Some? {
      assert FindEdge(edges, x).value != k;
    }
  }

  /** Appending edges under ids other than `x` leaves the weight of `x`. */
  lemma WeightAfterAppends(edges: seq<Edge>, r: seq<Edge>, x: string)
    requires edges <= r
    requires forall i :: |edges| <= i < |r| ==> r[i].id != x
    ensures WeightOf(r, x) == WeightOf(edges, x)
  {
    match FindEdge(edges, x)
    case Some(k) =>
      assert forall j :: 0 <= j <= k ==> r[j] == edges[j];
      FindEdgeIs(r, x, k);
    case None =>
      assert forall j :: 0 <= j < |edges| ==> r[j] == edges[j];
  }

  /** The nodes of one kind, in storage order. */
  function OfKind(nodes: seq<Node>, kind: NodeKind): (r: seq<Node>)
    ensures IsSubsequence(r, nodes)
    ensures forall n :: n in r <==> n in nodes && n.Kind() == kind
    ensures forall n :: multiset(r)[n] == if n.Kind() == kind then multiset(nodes)[n] else 0
  {
    Filter(nodes, (n: Node) => n.Kind() == kind)
  }

  function CountKind(nodes: seq<Node>, kind: NodeKind): nat {
    |OfKind(nodes, kind)|
  }

  /** The edges of one kind, in storage order. */
  function EdgesOfKind(edges: seq<Edge>, kind: EdgeKind): (r: seq<Edge>)
    ensures IsSubsequence(r, edges)
    ensures forall e :: e in r <==> e in edges && e.kind == kind
    ensures forall e :: multiset(r)[e] == if e.kind == kind then multiset(edges)[e] else 0
  {
    Filter(edges, (e: Edge) => e.kind == kind)
  }

  function CountEdgeKind(edges: seq<Edge>, kind: EdgeKind): nat {
    |EdgesOfKind(edges, kind)|
  }
}
