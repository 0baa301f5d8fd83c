/**
 * The edge synthesizer's two derived families: collaboration edges between
 * the authors of one paper, whose weights accumulate, and similarity edges
 * from a new paper to the papers already in the graph.
 */
module Synthesizer {
  import opened Wrappers
  import opened Text
  import opened GraphModel
  import opened Registry

  /** Every edge of `before` is still at its index in `after`, unchanged
      but for its weight; more edges may follow. */
  predicate EdgesExtend(before: seq<Edge>, after: seq<Edge>) {
    && |before| <= |after|
    && forall i :: 0 <= i < |before| ==> after[i] == before[i].(weight := after[i].weight)
  }

  /** Every edge after the old ones is of the given kind. */
  predicate AddsOnly(before: seq<Edge>, after: seq<Edge>, kind: EdgeKind) {
    forall i :: |before| <= i < |after| ==> after[i].kind == kind
  }

  lemma AddsOnlyTransitive(a: seq<Edge>, b: seq<Edge>, c: seq<Edge>, kind: EdgeKind)
    requires EdgesExtend(a, b) && EdgesExtend(b, c)
    requires AddsOnly(a, b, kind) && AddsOnly(b, c, kind)
    ensures AddsOnly(a, c, kind)
  {
    forall i | |a| <= i < |c| ensures c[i].kind == kind {
      if i < |b| {
        assert c[i].kind == b[i].kind;
      }
    }
  }

  lemma EdgesExtendTransitive(a: seq<Edge>, b: seq<Edge>, c: seq<Edge>)
    requires EdgesExtend(a, b) && EdgesExtend(b, c)
    ensures EdgesExtend(a, c)
  {
  }

  // ---------------------------------------------------------------------
  // Collaboration

  /** The id of the collaboration edge of an ordered pair of author ids. */
  function CollabId(a: string, b: string): string {
    a + "_collaborates_" + b
  }

  /** One co-listing: the edge of the pair is created with weight 1, or its
      weight grows by 1 (an absent weight counting as 0). */
  function CollabPair(edges: seq<Edge>, a: string, b: string): seq<Edge> {
    var id := CollabId(a, b);
    match FindEdge(edges, id)
    case None => edges + [Edge(id, a, b, CollaboratesWith, 1.0, None)]
    case Some(k) => edges[k := edges[k].(weight := edges[k].weight + 1.0)]
  }

  /** One co-listing appends a collaboration edge or changes one weight in
      place, and keeps ids distinct. */
  lemma CollabPairShape(edges: seq<Edge>, a: string, b: string)
    ensures var r := CollabPair(edges, a, b);
      && EdgesExtend(edges, r) && |r| <= |edges| + 1
      && AddsOnly(edges, r, CollaboratesWith)
      && (UniqueEdgeIds(edges) ==> UniqueEdgeIds(r))
  {
  }

  /** One co-listing raises the weight of exactly the pair's id by 1, an
      absent edge counting as weight 0. */
  lemma CollabPairWeights(edges: seq<Edge>, a: string, b: string)
    ensures var r := CollabPair(edges, a, b);
      forall x :: WeightOf(r, x) == WeightOf(edges, x) + (if x == CollabId(a, b) then 1.0 else 0.0)
  {
    forall x {
      CollabPairWeight(edges, a, b, x);
    }
  }

  lemma CollabPairWeight(edges: seq<Edge>, a: string, b: string, x: string)
    ensures WeightOf(CollabPair(edges, a, b), x) == WeightOf(edges, x) + (if x == CollabId(a, b) then 1.0 else 0.0)
  {
    var id := CollabId(a, b);
    match FindEdge(edges, id)
    case None =>
      var e := Edge(id, a, b, CollaboratesWith, 1.0, None);
      assert CollabPair(edges, a, b) == edges + [e];
      WeightAfterAppend(edges, e, x);
    case Some(k) =>
      assert CollabPair(edges, a, b) == edges[k := edges[k].(weight := edges[k].weight + 1.0)];
      WeightAfterBump(edges, k, x);
  }


  /** The pairs of the names at i and at k, for k from i + 1 up to j - 1. */
  function Row(authors: seq<string>, i: nat, j: nat): seq<(string, string)>
    requires i < j <= |authors|
    decreases j
  {
    if j == i + 1 then [] else Row(authors, i, j - 1) + [(authors[i], authors[j - 1])]
  }

  /** The rows of the first `n` names, in the order the nested loops visit
      them. */
  function Rows(authors: seq<string>, n: nat): seq<(string, string)>
    requires n <= |authors|
  {
    if n == 0 then [] else Rows(authors, n - 1) + Row(authors, n - 1, |authors|)
  }

  /** The pairs a paper's author list produces: every index pair i < k. */
  function AuthorPairs(authors: seq<string>): seq<(string, string)> {
    Rows(authors, |authors|)
  }

  /** One co-listing per pair, in order. */
  function CollabAll(edges: seq<Edge>, pairs: seq<(string, string)>): seq<Edge>
    decreases |pairs|
  {
    if pairs == [] then edges
    else
      var last := pairs[|pairs| - 1];
      CollabPair(CollabAll(edges, pairs[..|pairs| - 1]), EntityId(Author, last.0), EntityId(Author, last.1))
  }

  /** The collaboration rule over a paper's author list: every index pair
      i < k in list order; fewer than two authors change nothing. */
  function CollabEdges(edges: seq<Edge>, authors: seq<string>): seq<Edge> {
    if |authors| < 2 then edges else CollabAll(edges, AuthorPairs(authors))
  }

  /** One more pair is one more co-listing. */
  lemma CollabAllStep(edges: seq<Edge>, pairs: seq<(string, string)>, p: (string, string))
    ensures CollabAll(edges, pairs + [p]) == CollabPair(CollabAll(edges, pairs), EntityId(Author, p.0), EntityId(Author, p.1))
  {
    assert (pairs + [p])[..|pairs|] == pairs;
  }

  /** Running two lists of pairs one after the other is running their
      concatenation. */
  lemma {:induction false} CollabAllConcat(edges: seq<Edge>, p: seq<(string, string)>, q: seq<(string, string)>)
    ensures CollabAll(CollabAll(edges, p), q) == CollabAll(edges, p + q)
    decreases |q|
  {
    if q == [] {
      assert p + q == p;
    } else {
      var last := q[|q| - 1];
      CollabAllConcat(edges, p, q[..|q| - 1]);
      assert (p + q)[..|p + q| - 1] == p + q[..|q| - 1];
      assert (p + q)[|p + q| - 1] == last;
      assert CollabAll(edges, p + q) == CollabPair(CollabAll(edges, p + q[..|q| - 1]), EntityId(Author, last.0), EntityId(Author, last.1));
    }
  }

  /** The row of `i` after the rows before it is the rows up to `i`. */
  lemma CollabRowsStep(edges: seq<Edge>, authors: seq<string>, i: nat)
    requires i < |authors|
    ensures CollabAll(CollabAll(edges, Rows(authors, i)), Row(authors, i, |authors|)) == CollabAll(edges, Rows(authors, i + 1))
  {
    CollabAllConcat(edges, Rows(authors, i), Row(authors, i, |authors|));
  }

  /** The collaboration edge id of a pair of author names. */
  function PairId(p: (string, string)): string {
    CollabId(EntityId(Author, p.0), EntityId(Author, p.1))
  }

  /** How many of the pairs give the id `x`. */
  function PairCount(pairs: seq<(string, string)>, x: string): nat
    decreases |pairs|
  {
    if pairs == [] then 0
    else
      var last := pairs[|pairs| - 1];
      PairCount(pairs[..|pairs| - 1], x) + (if PairId(last) == x then 1 else 0)
  }

  /** The pairs of a row are exactly the ones it names. */
  lemma {:induction false} RowMembers(authors: seq<string>, i: nat, j: nat)
    requires i < j <= |authors|
    ensures forall p :: p in Row(authors, i, j) <==> exists k :: i < k < j && p == (authors[i], authors[k])
    decreases j
  {
    if j > i + 1 {
      RowMembers(authors, i, j - 1);
    }
  }

  /** The pairs of the rows are exactly the index pairs i < k with i < n. */
  lemma {:induction false} RowsMembers(authors: seq<string>, n: nat)
    requires n <= |authors|
    ensures forall p :: p in Rows(authors, n) <==>
      exists i, k :: 0 <= i < n && i < k < |authors| && p == (authors[i], authors[k])
  {
    if n > 0 {
      RowsMembers(authors, n - 1);
      RowMembers(authors, n - 1, |authors|);
      var before, row := Rows(authors, n - 1), Row(authors, n - 1, |authors|);
      assert Rows(authors, n) == before + row;
      forall p | exists i, k :: 0 <= i < n && i < k < |authors| && p == (authors[i], authors[k])
        ensures p in before + row
      {
        var i, k :| 0 <= i < n && i < k < |authors| && p == (authors[i], authors[k]);
        if i < n - 1 {
          assert p in before;
        } else {
          assert p in row;
        }
      }
    }
  }

  /** Every pair the author list produces is an index pair i < k of it, and
      every index pair i < k is produced. */
  lemma AuthorPairsMembers(authors: seq<string>)
    ensures forall p :: p in AuthorPairs(authors) <==>
      exists i, k :: 0 <= i < k < |authors| && p == (authors[i], authors[k])
  {
    RowsMembers(authors, |authors|);
  }

  lemma {:induction false} CollabAllShape(edges: seq<Edge>, pairs: seq<(string, string)>)
    ensures var r := CollabAll(edges, pairs);
      && EdgesExtend(edges, r)
      && AddsOnly(edges, r, CollaboratesWith)
      && (UniqueEdgeIds(edges) ==> UniqueEdgeIds(r))
    decreases |pairs|
  {
    if pairs != [] {
      CollabAllShape(edges, pairs[..|pairs| - 1]);
      var r := CollabAll(edges, pairs[..|pairs| - 1]);
      var last := pairs[|pairs| - 1];
      CollabPairShape(r, EntityId(Author, last.0), EntityId(Author, last.1));
      AddsOnlyTransitive(edges, r, CollabAll(edges, pairs), CollaboratesWith);
    }
  }

  lemma {:induction false} CollabAllWeights(edges: seq<Edge>, pairs: seq<(string, string)>)
    ensures var r := CollabAll(edges, pairs);
      forall x :: WeightOf(r, x) == WeightOf(edges, x) + PairCount(pairs, x) as real
    decreases |pairs|
  {
    if pairs != [] {
      CollabAllWeights(edges, pairs[..|pairs| - 1]);
      var last := pairs[|pairs| - 1];
      CollabPairWeights(CollabAll(edges, pairs[..|pairs| - 1]), EntityId(Author, last.0), EntityId(Author, last.1));
    }
  }

  /** The weight of every collaboration id grows by the number of index
      pairs i < k of the author list that produce it (an absent edge having
      weight 0); nothing is removed or re-keyed. */
  lemma CollabEdgesSpec(edges: seq<Edge>, authors: seq<string>)
    ensures var r := CollabEdges(edges, authors);
      && EdgesExtend(edges, r)
      && AddsOnly(edges, r, CollaboratesWith)
      && (UniqueEdgeIds(edges) ==> UniqueEdgeIds(r))
      && forall x :: WeightOf(r, x) == WeightOf(edges, x) + PairCount(AuthorPairs(authors), x) as real
  {
    if |authors| < 2 {
      ShortListNoPairs(authors, |authors|);
    } else {
      CollabAllShape(edges, AuthorPairs(authors));
      CollabAllWeights(edges, AuthorPairs(authors));
    }
  }

  /** The early exit for fewer than two authors changes nothing: such a list
      has no pairs, so the rule is one co-listing per pair either way. */
  lemma CollabEdgesAllPairs(edges: seq<Edge>, authors: seq<string>)
    ensures CollabEdges(edges, authors) == CollabAll(edges, AuthorPairs(authors))
  {
    if |authors| < 2 {
      ShortListNoPairs(authors, |authors|);
    }
  }

  /** A list of fewer than two authors has no pairs. */
  lemma {:induction false} ShortListNoPairs(authors: seq<string>, n: nat)
    requires n <= |authors| < 2
    ensures Rows(authors, n) == []
  {
    if n > 0 {
      ShortListNoPairs(authors, n - 1);
    }
  }

  /** A pair present in the list is counted under its id. */
  lemma {:induction false} PairCountPositive(pairs: seq<(string, string)>, p: (string, string))
    requires p in pairs
    ensures PairCount(pairs, PairId(p)) >= 1
    decreases |pairs|
  {
    if pairs[|pairs| - 1] != p {
      assert pairs == pairs[..|pairs| - 1] + [pairs[|pairs| - 1]];
      PairCountPositive(pairs[..|pairs| - 1], p);
    }
  }

  /** Edges that extend keep every id where it was found. */
  lemma FindEdgeExtended(before: seq<Edge>, after: seq<Edge>, id: string)
    requires EdgesExtend(before, after) && FindEdge(before, id).Some?
    ensures FindEdge(after, id) == FindEdge(before, id)
  {
    var k := FindEdge(before, id).value;
    assert forall j :: 0 <= j <= k ==> after[j].id == before[j].id;
    FindEdgeIs(after, id, k);
  }

  /** An edge whose id no author pair produces is left exactly as it was:
      authorship and containment weights are never changed by this rule
      (unless an id of theirs spells a collaboration id). */
  lemma CollabEdgesKeeps(edges: seq<Edge>, authors: seq<string>)
    ensures var r := CollabEdges(edges, authors);
      |edges| <= |r| &&
      forall t :: 0 <= t < |edges| && PairCount(AuthorPairs(authors), edges[t].id) == 0 ==> r[t] == edges[t]
  {
    CollabEdgesSpec(edges, authors);
    if |authors| >= 2 {
      forall t | 0 <= t < |edges| && PairCount(AuthorPairs(authors), edges[t].id) == 0
        ensures t < |CollabAll(edges, AuthorPairs(authors))| && CollabAll(edges, AuthorPairs(authors))[t] == edges[t]
      {
        CollabAllKeepsAt(edges, AuthorPairs(authors), t);
      }
    }
  }

  /** A co-listing changes at most the first edge under the pair's id, so
      an edge at any index under another id stays, even when ids repeat. */
  lemma CollabPairKeepsAt(edges: seq<Edge>, a: string, b: string, t: nat)
    requires t < |edges| && edges[t].id != CollabId(a, b)
    ensures t < |CollabPair(edges, a, b)| && CollabPair(edges, a, b)[t] == edges[t]
  {
  }

  lemma {:induction false} CollabAllKeepsAt(edges: seq<Edge>, pairs: seq<(string, string)>, t: nat)
    requires t < |edges| && PairCount(pairs, edges[t].id) == 0
    ensures t < |CollabAll(edges, pairs)| && CollabAll(edges, pairs)[t] == edges[t]
    decreases |pairs|
  {
    if pairs != [] {
      var init := pairs[..|pairs| - 1];
      var last := pairs[|pairs| - 1];
      CollabAllKeepsAt(edges, init, t);
      CollabPairKeepsAt(CollabAll(edges, init), EntityId(Author, last.0), EntityId(Author, last.1), t);
    }
  }

  /** The rule counts co-listings per call: running it twice over the same
      author list, as re-adding the same paper does, counts every pair
      twice. */
  lemma CollabTwice(edges: seq<Edge>, authors: seq<string>)
    ensures var r := CollabEdges(CollabEdges(edges, authors), authors);
      forall x :: WeightOf(r, x) == WeightOf(edges, x) + 2.0 * PairCount(AuthorPairs(authors), x) as real
  {
    CollabEdgesSpec(edges, authors);
    CollabEdgesSpec(CollabEdges(edges, authors), authors);
  }

  /** Every ordered pair i < j of the author list has an edge afterwards,
      so two authors listed in reverse order are counted under the other
      ordered id, and a name listed twice gives an edge from its node to
      itself. */
  lemma CollabEdgesCover(edges: seq<Edge>, authors: seq<string>)
    ensures var r := CollabEdges(edges, authors);
      forall i, k :: 0 <= i < k < |authors| ==>
        FindEdge(r, CollabId(EntityId(Author, authors[i]), EntityId(Author, authors[k]))).Some?
  {
    var r := CollabEdges(edges, authors);
    CollabEdgesSpec(edges, authors);
    AuthorPairsMembers(authors);
    forall i, k | 0 <= i < k < |authors|
      ensures FindEdge(r, CollabId(EntityId(Author, authors[i]), EntityId(Author, authors[k]))).Some?
    {
      var p := (authors[i], authors[k]);
      var x := PairId(p);
      PairCountPositive(AuthorPairs(authors), p);
      if FindEdge(edges, x).Some? {
        FindEdgeExtended(edges, r, x);
      } else {
        assert WeightOf(r, x) >= 1.0;
      }
    }
  }

  // ---------------------------------------------------------------------
  // Similarity

  /** A JavaScript number as the similarity computation produces it: NaN,
      or an exact value (floating-point rounding is not modelled). */
  datatype Score = NaN | Value(v: real)

  function ToSet(s: seq<string>): set<string> {
    set x | x in s
  }

  /** `|A ∩ B| / |A ∪ B|`; NaN when the union is empty (0 / 0). */
  function Jaccard(a: set<string>, b: set<string>): (r: Score)
    ensures r.NaN? <==> a == {} && b == {}
    ensures r.Value? ==> 0.0 <= r.v <= 1.0
    ensures r.Value? ==> (r.v == 1.0 <==> a == b)
  {
    if |a + b| == 0 then NaN
    else
      JaccardBounds(a, b);
      Value(|a * b| as real / |a + b| as real)
  }

  lemma JaccardBounds(a: set<string>, b: set<string>)
    requires a + b != {}
    ensures |a * b| <= |a + b|
    ensures |a * b| == |a + b| <==> a == b
  {
    var c, d := a * b, (a + b) - (a * b);
    assert c * d == {} && c + d == a + b;
    assert |c + d| + |c * d| == |c| + |d|;
    if a != b {
      var x :| x in (a - b) + (b - a);
      assert x in d;
    }
  }

  lemma JaccardSymmetric(a: set<string>, b: set<string>)
    ensures Jaccard(a, b) == Jaccard(b, a)
  {
    assert a + b == b + a && a * b == b * a;
  }

  /** `(x + y) / 2`, NaN if either is. */
  function Mean(x: Score, y: Score): Score {
    if x.NaN? || y.NaN? then NaN else Value((x.v + y.v) / 2.0)
  }

  /** The similarity of a new paper's analysis with another paper's: the
      mean of the keyword and topic Jaccard coefficients over the full
      lists, 0 when the other analysis is missing. */
  function Similarity(a: Analysis, other: Option<Analysis>): (r: Score)
    ensures r.Value? ==> 0.0 <= r.v <= 1.0
    ensures other.None? ==> r == Value(0.0)
    ensures other.Some? ==> (r.NaN? <==>
      (a.keywords == [] && other.value.keywords == []) || (a.topics == [] && other.value.topics == []))
  {
    match other
    case None => Value(0.0)
    case Some(b) =>
      EmptySet(a.keywords);
      EmptySet(b.keywords);
      EmptySet(a.topics);
      EmptySet(b.topics);
      Mean(Jaccard(ToSet(a.keywords), ToSet(b.keywords)), Jaccard(ToSet(a.topics), ToSet(b.topics)))
  }

  lemma EmptySet(s: seq<string>)
    ensures ToSet(s) == {} <==> s == []
  {
    if s != [] {
      assert s[0] in ToSet(s);
    }
  }

  /** `similarity > 0.3` on a JavaScript number: false for NaN. */
  predicate Exceeds(s: Score) {
    s.Value? && s.v > 0.3
  }

  /** `Math.round`: the nearest integer, halves rounded up. */
  function Round(x: real): (r: int)
    ensures x - 0.5 < r as real <= x + 0.5
  {
    (x + 0.5).Floor
  }

  function SimilarId(paperNodeId: string, otherId: string): string {
    paperNodeId + "_similar_" + otherId
  }

  /** The label of a similarity edge: the rounded percentage. */
  function SimilarLabel(score: real): string
    requires score >= 0.0
  {
    NatToString(Round(score * 100.0) as nat) + "% similar"
  }

  function SimilarEdge(paperNodeId: string, otherId: string, score: real): (e: Edge)
    requires score >= 0.0
    ensures e.id == SimilarId(paperNodeId, otherId)
  {
    Edge(SimilarId(paperNodeId, otherId), paperNodeId, otherId, SimilarTo, score, Some(SimilarLabel(score)))
  }

  /** The analysis stored with a paper node. */
  function AnalysisOf(n: Node): Option<Analysis> {
    if n.data.PaperData? then n.data.analysis else None
  }

  /** The paper nodes other than the anchor, in storage order. */
  function OtherPapers(nodes: seq<Node>, paperNodeId: string): (r: seq<Node>)
    ensures IsSubsequence(r, nodes)
    ensures forall n :: n in r <==> n in nodes && n.Kind() == PaperKind && n.id != paperNodeId
    ensures forall n :: multiset(r)[n] == if n.Kind() == PaperKind && n.id != paperNodeId then multiset(nodes)[n] else 0
  {
    Filter(nodes, (n: Node) => n.Kind() == PaperKind && n.id != paperNodeId)
  }

  /** The edge from the anchor to one other paper, if the score exceeds the
      threshold and no edge with its id exists yet. */
  function SimilarStep(edges: seq<Edge>, paperNodeId: string, a: Analysis, other: Node): seq<Edge> {
    var s := Similarity(a, AnalysisOf(other));
    if Exceeds(s) && FindEdge(edges, SimilarId(paperNodeId, other.id)).None?
    then edges + [SimilarEdge(paperNodeId, other.id, s.v)]
    else edges
  }

  /** The similarity rule over the other papers, in order. */
  function SimilarAll(edges: seq<Edge>, paperNodeId: string, a: Analysis, others: seq<Node>): seq<Edge>
    decreases |others|
  {
    if others == [] then edges
    else SimilarStep(SimilarAll(edges, paperNodeId, a, others[..|others| - 1]), paperNodeId, a, others[|others| - 1])
  }

  /** An edge the similarity rule may add: from the anchor to one of the
      other papers, scored above the threshold, weighted and labelled by
      the score. */
  predicate SimilarityEdgeFor(e: Edge, paperNodeId: string, a: Analysis, others: seq<Node>) {
    exists o :: o in others &&
      var s := Similarity(a, AnalysisOf(o));
      Exceeds(s) && e == SimilarEdge(paperNodeId, o.id, s.v)
  }

  /** The similarity rule only appends edges, so existing edges are left
      exactly as they were, and it keeps edge ids distinct. */
  lemma {:induction false} SimilarAllAppends(edges: seq<Edge>, paperNodeId: string, a: Analysis, others: seq<Node>)
    ensures var r := SimilarAll(edges, paperNodeId, a, others);
      && edges <= r
      && |r| <= |edges| + |others|
      && (UniqueEdgeIds(edges) ==> UniqueEdgeIds(r))
    decreases |others|
  {
    if others != [] {
      var init := others[..|others| - 1];
      SimilarAllAppends(edges, paperNodeId, a, init);
      var r0 := SimilarAll(edges, paperNodeId, a, init);
      var last := others[|others| - 1];
      var s := Similarity(a, AnalysisOf(last));
      if Exceeds(s) && FindEdge(r0, SimilarId(paperNodeId, last.id)).None? {
        FindEdgeAppendAll(r0, SimilarEdge(paperNodeId, last.id, s.v));
      }
    }
  }

  /** Every edge the rule adds runs from the anchor to another paper scored
      strictly above 0.3, weighted and labelled by that score. */
  lemma {:induction false} SimilarAllAdds(edges: seq<Edge>, paperNodeId: string, a: Analysis, others: seq<Node>)
    ensures var r := SimilarAll(edges, paperNodeId, a, others);
      forall i :: |edges| <= i < |r| ==> SimilarityEdgeFor(r[i], paperNodeId, a, others)
    decreases |others|
  {
    if others != [] {
      var init := others[..|others| - 1];
      var last := others[|others| - 1];
      SimilarAllAdds(edges, paperNodeId, a, init);
      SimilarAllAppends(edges, paperNodeId, a, init);
      var r0 := SimilarAll(edges, paperNodeId, a, init);
      var r := SimilarAll(edges, paperNodeId, a, others);
      forall i | |edges| <= i < |r| ensures SimilarityEdgeFor(r[i], paperNodeId, a, others) {
        if i < |r0| {
          assert r[i] == r0[i];
          assert SimilarityEdgeFor(r0[i], paperNodeId, a, init);
          var o :| o in init && var s := Similarity(a, AnalysisOf(o));
            Exceeds(s) && r0[i] == SimilarEdge(paperNodeId, o.id, s.v);
          assert o in others;
        } else {
          assert last in others;
        }
      }
    }
  }

  /** After the rule every other paper scored strictly above 0.3 has an
      edge under its similarity id (the one added now or one already
      there, which is never updated). */
  lemma {:induction false} SimilarAllCovers(edges: seq<Edge>, paperNodeId: string, a: Analysis, others: seq<Node>)
    ensures var r := SimilarAll(edges, paperNodeId, a, others);
      forall o :: o in others && Exceeds(Similarity(a, AnalysisOf(o))) ==>
        FindEdge(r, SimilarId(paperNodeId, o.id)).Some?
    decreases |others|
  {
    if others != [] {
      var init := others[..|others| - 1];
      var last := others[|others| - 1];
      SimilarAllCovers(edges, paperNodeId, a, init);
      var r0 := SimilarAll(edges, paperNodeId, a, init);
      var r := SimilarAll(edges, paperNodeId, a, others);
      assert r0 <= r;
      var s := Similarity(a, AnalysisOf(last));
      if Exceeds(s) && FindEdge(r0, SimilarId(paperNodeId, last.id)).None? {
        FindEdgeAppendAll(r0, SimilarEdge(paperNodeId, last.id, s.v));
      }
      forall o | o in others && Exceeds(Similarity(a, AnalysisOf(o)))
        ensures FindEdge(r, SimilarId(paperNodeId, o.id)).Some?
      {
        if o != last {
          assert o in init;
          var j := FindEdge(r0, SimilarId(paperNodeId, o.id)).value;
          assert r[j] == r0[j];
        }
      }
    }
  }
}
