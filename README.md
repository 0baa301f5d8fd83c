# Knowledge-graph builder, modelled in Dafny

This project models the `GraphService` class of the research-paper explorer
(src/services/GraphService.ts). The class keeps a single knowledge graph:
an ordered list of nodes (papers, authors, topics, keywords, citations),
an ordered list of edges, and count metadata. It grows the graph one paper
at a time:

- `addPaper` replaces the paper's node and moves it to the end of the list.
- It gets or creates an author, topic and keyword node under a canonical
  id. The id is a prefix plus the name with each whitespace run collapsed
  to `_`.
- It records the association of each such node with the paper, and grows
  the node's size.
- It links each node to the paper with an edge. An edge is never added
  when an edge with its id already exists.
- It accumulates collaboration weights over every ordered author pair.
- It adds an edge to every other paper whose similarity score is strictly
  above 0.3. The score is the mean of a keyword and a topic Jaccard
  coefficient.
- Finally it recomputes the counts.

The read side is also modelled: search, nodes by kind, connected nodes and
statistics. So are the lifecycle operations: export, import and clear.

The files:

- `text.dfy` (module `Text`) holds the string rules:
  - the canonical form of a name;
  - ASCII lower-casing;
  - substring search;
  - decimal rendering of a natural number.
- `model.dfy` (module `GraphModel`) holds the graph as a value:
  - nodes, with a payload case per kind;
  - edges and metadata;
  - `filter` and `find` over the lists, with their specifications.
- `registry.dfy` (module `Registry`) covers one mention of an author,
  topic or keyword: get or create, associate, link. It also covers runs
  of mentions, the error path and the well-formedness invariant.
- `synthesizer.dfy` (module `Synthesizer`) holds the two derived edge
  rules, collaboration and similarity, and the similarity score.
- `ingestion.dfy` (module `Ingestion`) defines `Ingest`, the whole of
  `addPaper` as a function of the graph before, and its end-to-end
  properties.
- `queries.dfy` (module `Queries`) covers search, neighbours, statistics,
  export and import.
- `service.dfy` (module `Service`) holds the class `GraphService`:
  - its fields `nodes`, `edges` and `metadata` are updated in place;
  - its methods carry the loops of the source;
  - each method is proved equal to its specification function.
- `scenarios.dfy` (module `Scenarios`) has worked instances on concrete
  names and analyses.

How the model follows the code:

- **The throwing path.** A get-or-create can find a node under an
  `author_`, `topic_` or `keyword_` id whose payload has no `papers` list.
  A graph built only by the constructor, `clearGraph` and `addPaper`
  never contains one (`GraphService.Valid`), but an imported graph can.
  When that happens the source throws a TypeError part-way through.
  `UpsertStep` returns `None` in that case. `AddPaper` then returns `None`
  and leaves the graph as it was at the throw.
- **Well-formed graphs.** `Registry.WellFormed` requires four things:
  - unique node ids;
  - unique edge ids;
  - every node's payload matches the registry its id names;
  - no papers list has duplicates.

  The empty graph is well-formed (`Registry.EmptyGraphWellFormed`).
  `WellFormed` rules the throwing path out, and `addPaper` preserves it
  (`Ingestion.IngestWellFormed`).
- **Absent inputs.** An absent author list, topic list, keyword list,
  citation count or category behaves exactly like `[]`, `0` or an unknown
  category. Those values stand for absence in the model.
- **Empty union.** A Jaccard coefficient over two empty sets is 0/0, which
  is NaN in the source. The model gives it as the `NaN` case of `Score`.
  NaN fails the `> 0.3` test, so no edge results, even when the other
  coefficient is 1.
- **Import without error.** Import fails only for text that does not parse
  and for the `null` value. Reading a section of `null` throws inside the
  `try`, and the `catch` turns that into the same error. A parsed value
  that lacks a section leaves the graph unchanged, without an error.
- **Edge ids are strings.** Ids from different edge families can coincide
  when a name contains text such as `_collaborates_`. Every lookup is by
  id alone, as in the source, so the lemmas are stated by id.

## Model

| member | source | states |
|---|---|---|
| Text.CollapseNoSpace | src/services/GraphService.ts:72 | the whitespace-run rewrite leaves no whitespace and never lengthens a name |
| Text.CollapseAppend | src/services/GraphService.ts:72 | rewriting a concatenation rewrites each part, the second knowing whether the first ended in whitespace |
| Text.CanonRun | src/services/GraphService.ts:72 | a maximal whitespace run between two non-space parts becomes exactly one `_` |
| Text.CanonWithoutSpace | src/services/GraphService.ts:72 | a name without whitespace is its own canonical form, so "A_B" meets "A B" |
| Text.CanonIdempotent | src/services/GraphService.ts:72 | canonicalising a canonical id changes nothing |
| Text.Lower | src/services/GraphService.ts:295 | lower-casing maps each character and keeps the length |
| Text.LowerIdempotent | src/services/GraphService.ts:295 | lower-casing twice is lower-casing once |
| Text.ContainsAt | src/services/GraphService.ts:297 | `includes` holds exactly when the needle occurs at some index |
| Text.NatToString | src/services/GraphService.ts:238 | the decimal text is non-empty, all digits, without a leading zero |
| Text.NatToStringRoundTrip | src/services/GraphService.ts:238 | the decimal text of the percentage reads back as the same number |
| GraphModel.EmptyGraph | src/services/GraphService.ts:33-43 | the initial graph has no nodes, no edges and zero counts |
| GraphModel.Filter | src/services/GraphService.ts:66 | `filter` keeps exactly the elements that pass, in their order, each as often as in the input |
| GraphModel.SubsequenceUniqueIds | src/services/GraphService.ts:66 | filtering a node list with distinct ids keeps the ids distinct |
| GraphModel.IndexOf | src/services/GraphService.ts:75 | the search both `find` calls perform: the first index holding the id, and nothing exactly when no index holds it |
| GraphModel.FindNode | src/services/GraphService.ts:75 | `find` gives the first node with the id, and nothing exactly when no node has it |
| GraphModel.FindEdge | src/services/GraphService.ts:96 | `find` gives the first edge with the id, and nothing exactly when no edge has it |
| GraphModel.FindEdgeAppendAll | src/services/GraphService.ts:97-103 | after a push, every id found before is found at the same index, and only the pushed id is newly found |
| GraphModel.FindEdgeUpdateAll | src/services/GraphService.ts:216-217 | updating an edge in place without changing its id changes no lookup |
| GraphModel.WeightAfterAppend | src/services/GraphService.ts:208-215 | pushing an edge under an absent id gives that id the edge's weight and changes no other weight |
| GraphModel.WeightAfterBump | src/services/GraphService.ts:216-217 | raising the first edge with an id by 1 raises that id's weight by 1 and no other |
| GraphModel.WeightAfterAppends | src/services/GraphService.ts:95-104 | edges pushed under other ids leave an id's weight unchanged |
| GraphModel.OfKind | src/services/GraphService.ts:302-304 | nodes by type: the nodes of that kind, in storage order, each as often as stored, and no others |
| Registry.PayloadEntity | src/services/GraphService.ts:81 | only author, topic and keyword payloads carry a papers list |
| Registry.KeyOfEntityId | src/services/GraphService.ts:72 | an author, topic or keyword id names its registry |
| Registry.KeyOfPaperNodeId | src/services/GraphService.ts:50 | a paper node id names no registry |
| Registry.EmptyGraphWellFormed | src/services/GraphService.ts:33-43 | the initial graph, and the graph after a clear, is well-formed |
| Registry.LinkIdMentions | src/services/GraphService.ts:97-103 | an authorship id ends with the paper's node id, a containment id starts with it |
| Registry.UpsertAllMentions | src/services/GraphService.ts:71-105 | a run of mentions, thrown or not, only appends link edges of the paper |
| Registry.EntitySize | src/services/GraphService.ts:91 | the size is max(base, growth times the number of papers), so it is at least both |
| Registry.EntitySizeMonotone | src/services/GraphService.ts:130 | more papers never make a node smaller |
| Registry.NewEntityNode | src/services/GraphService.ts:77-84 | a new node has the canonical id, the name as label, no papers and the base size |
| Registry.Associate | src/services/GraphService.ts:89-92 | the paper is listed afterwards, the list stays duplicate-free, and an already-listed paper changes nothing |
| Registry.AssociateIdempotent | src/services/GraphService.ts:167-170 | associating the same paper twice is the same as once |
| Registry.LinkEdge | src/services/GraphService.ts:97-103 | the link edge has the link id and the authorship or containment kind |
| Registry.Link | src/services/GraphService.ts:95-104 | the link edge is pushed when its id is absent, and the edges stay exactly as they were when it is present; existing edges are kept, and the id is found afterwards |
| Registry.UpsertStep | src/services/GraphService.ts:72-104 | a mention throws exactly when the node found under the id has no papers list |
| Registry.UpsertStepSpec | src/services/GraphService.ts:75-104 | a mention adds a node only when the id is absent, keeps the first label, associates and links the paper, and keeps everything else; it pushes the link edge exactly when its id is absent, so a name mentioned again adds no edge |
| Registry.UpsertStepWellFormed | src/services/GraphService.ts:75-86 | on a well-formed graph a mention does not throw, and no second node with the id appears |
| Registry.PlaceNode | src/services/GraphService.ts:75-86 | the node found under the id, or a new one appended, is the one rewritten; every other node keeps its place |
| Registry.StepLinks | src/services/GraphService.ts:72-104 | on a well-formed graph a mention registers its name and keeps every earlier registration |
| Registry.UpsertAllWellFormed | src/services/GraphService.ts:71-105 | on a well-formed graph a list of names never throws and keeps the graph well-formed |
| Registry.UpsertAllRegisters | src/services/GraphService.ts:71-105 | on a well-formed graph every name of the list ends up registered |
| Registry.UpsertAllSpec | src/services/GraphService.ts:110-145 | on a well-formed graph a list of names does not throw, stays well-formed and registers every name |
| Registry.UpsertAll | src/services/GraphService.ts:71-105 | defines the `forEach` over a list of names: one mention per name in list order, stopping at the first throw; its contract is stated by UpsertAllSpec, UpsertAllGrows, UpsertAllTouches, UpsertAllMentions and ThrewSticks |
| Registry.StepTouches | src/services/GraphService.ts:72-104 | a mention rewrites or appends only the node under its own id |
| Registry.UpsertAllTouches | src/services/GraphService.ts:71-105 | thrown or not, a list of names rewrites only nodes under the ids of listed names and appends only such nodes; every other node keeps its value |
| Registry.UpsertAllGrows | src/services/GraphService.ts:71-105 | thrown or not, a list of names only touches nodes of its own registry and only appends its link edges |
| Registry.ThrewSticks | src/services/GraphService.ts:71 | once a mention throws, the rest of the list changes nothing |
| Registry.RegisteredGrows | src/services/GraphService.ts:149-184 | a registration in one registry survives the mentions of another |
| Synthesizer.CollabPairWeight | src/services/GraphService.ts:205-218 | one co-listing raises the weight of exactly that pair's id by 1, starting from 0 |
| Synthesizer.CollabPairShape | src/services/GraphService.ts:207-218 | one co-listing keeps every edge and its id, appends at most one collaboration edge, and keeps ids distinct |
| Synthesizer.AuthorPairsMembers | src/services/GraphService.ts:201-202 | the nested loops visit exactly the pairs of names at indices i < j |
| Synthesizer.CollabAll | src/services/GraphService.ts:201-220 | defines the co-listing of a list of pairs, in order; its contract is stated by CollabAllConcat, CollabAllKeepsAt and, through CollabEdges, CollabEdgesSpec |
| Synthesizer.CollabEdges | src/services/GraphService.ts:198-221 | defines `updateCollaborationEdges`: the early return for fewer than two names, else one co-listing per pair i < j; its contract is stated by CollabEdgesSpec, CollabEdgesCover, CollabEdgesKeeps and CollabTwice |
| Synthesizer.CollabAllConcat | src/services/GraphService.ts:201-220 | processing one list of pairs and then another is processing their concatenation |
| Synthesizer.CollabEdgesSpec | src/services/GraphService.ts:198-221 | every id's weight grows by the number of index pairs i < j that produce it; edges are only appended, and only collaboration edges |
| Synthesizer.ShortListNoPairs | src/services/GraphService.ts:199 | a list of fewer than two authors produces no pairs |
| Synthesizer.CollabEdgesAllPairs | src/services/GraphService.ts:199-221 | the early return for fewer than two authors gives the same edges as running the loops |
| Synthesizer.CollabEdgesCover | src/services/GraphService.ts:200-219 | every ordered pair i < j has an edge afterwards, including a name listed twice |
| Synthesizer.CollabEdgesKeeps | src/services/GraphService.ts:206-217 | an edge whose id no pair produces is left exactly as it was, on any edge list, repeated ids included |
| Synthesizer.CollabPairKeepsAt | src/services/GraphService.ts:207-217 | a co-listing changes no edge at an index whose id is not the pair's |
| Synthesizer.CollabAllKeepsAt | src/services/GraphService.ts:201-220 | a run of co-listings changes no edge at an index whose id no pair produces |
| Synthesizer.CollabTwice | src/services/GraphService.ts:198-221 | running the rule twice over one author list counts every pair twice |
| Synthesizer.Jaccard | src/services/GraphService.ts:251-260 | the coefficient is NaN exactly for two empty sets, otherwise in [0, 1], and 1 exactly for equal sets |
| Synthesizer.JaccardSymmetric | src/services/GraphService.ts:251-256 | the coefficient does not depend on the order of the two sets |
| Synthesizer.Similarity | src/services/GraphService.ts:245-263 | a missing analysis scores 0; NaN exactly when both keyword lists or both topic lists are empty; otherwise a score in [0, 1] |
| Synthesizer.Round | src/services/GraphService.ts:238 | rounding lands within half of the value, halves rounding up |
| Synthesizer.OtherPapers | src/services/GraphService.ts:224 | exactly the paper nodes with another id, in storage order, each as often as stored |
| Synthesizer.SimilarStep | src/services/GraphService.ts:226-242 | defines the loop body of `updateSimilarityEdges`: push a similarity edge when the score exceeds 0.3 and no edge has the id; stated by SimilarAllAppends, SimilarAllAdds and SimilarAllCovers |
| Synthesizer.SimilarAll | src/services/GraphService.ts:223-243 | defines `updateSimilarityEdges` as one step per other paper, in storage order; stated by SimilarAllAppends, SimilarAllAdds, SimilarAllCovers and SimilarAllMentions |
| Synthesizer.SimilarAllAppends | src/services/GraphService.ts:223-243 | the similarity rule only appends, at most one edge per other paper, and keeps ids distinct |
| Synthesizer.SimilarAllAdds | src/services/GraphService.ts:226-240 | every edge it adds runs from the paper to another paper scored strictly above 0.3, weighted and labelled by the score |
| Synthesizer.SimilarAllCovers | src/services/GraphService.ts:226-240 | every other paper scored strictly above 0.3 has an edge under its similarity id afterwards |
| Ingestion.CategoryColor | src/services/GraphService.ts:265-285 | a colour is `#` and six hex digits, from the palette when listed, and the grey fallback exactly for unlisted categories |
| Ingestion.PaperSize | src/services/GraphService.ts:61 | the size is a tenth of the citations plus 10, clamped to [10, 50]; the bounds are reached exactly from 0 and 400 citations |
| Ingestion.PaperSizeMonotone | src/services/GraphService.ts:61 | more citations never make a paper node smaller |
| Ingestion.PaperNode | src/services/GraphService.ts:53-63 | the paper node has the paper id, the title as label, and the record with its analysis |
| Ingestion.LinkedKeywords | src/services/GraphService.ts:149 | only the first five keywords are registered |
| Ingestion.Refreshed | src/services/GraphService.ts:287-292 | defines the metadata `updateMetadata` writes: the creation time kept, the update time and the three counts recomputed; stated by IngestMetadata, IngestStatsAgree and GraphService.UpdateMetadata |
| Ingestion.Ingest | src/services/GraphService.ts:49-196 | defines `addPaper` as a function of the graph before, with the graph left at a throw; its contract is stated by IngestWellFormed, IngestPaperNode, IngestTouches, IngestEdges, IngestCollabWeights, IngestSimilarity and IngestMetadata |
| Ingestion.Without | src/services/GraphService.ts:66 | the nodes with another id, in storage order, each as often as stored |
| Ingestion.RegisterFrame | src/services/GraphService.ts:70-185 | registration keeps every node outside the registries and all edges, and adds only registry nodes and link edges |
| Ingestion.RegisterTouches | src/services/GraphService.ts:69-185 | thrown or not, registration rewrites or adds only the nodes under the ids of the listed authors, topics and linked keywords |
| Ingestion.IngestTouches | src/services/GraphService.ts:49-196 | thrown or not, adding a paper leaves every node other than the paper node and the nodes of its listed authors, topics and linked keywords in place and unchanged, and adds nodes only for those names |
| Ingestion.PlacedWellFormed | src/services/GraphService.ts:65-67 | replacing the paper node keeps a graph well-formed |
| Ingestion.RegisterWellFormed | src/services/GraphService.ts:69-185 | on a well-formed graph every author, topic and linked keyword is registered without a throw |
| Ingestion.IngestPaperNode | src/services/GraphService.ts:65-67 | afterwards exactly one node has the paper id: the new paper node, right after the kept nodes with other ids |
| Ingestion.IngestCollabWeights | src/services/GraphService.ts:49-221 | a completed addition raises every id's weight by the number of author index pairs i < j that produce it (ids naming the paper itself set aside), so a pair co-listed on k papers has weight k |
| Ingestion.RegisterMentions | src/services/GraphService.ts:69-185 | registration, thrown or not, only appends edges whose ids name the paper |
| Ingestion.SimilarAllMentions | src/services/GraphService.ts:223-243 | the similarity rule only appends edges whose ids start with the paper's node id |
| Ingestion.IngestEdges | src/services/GraphService.ts:49-196 | adding a paper never removes or re-keys an edge, including the edges of a replaced paper |
| Ingestion.IngestMetadata | src/services/GraphService.ts:191-195 | a completed addition returns the paper node and refreshes the counts; a thrown one leaves the metadata |
| Ingestion.IngestWellFormed | src/services/GraphService.ts:49-196 | on a well-formed graph the addition completes, keeps the graph well-formed and registers all names |
| Ingestion.IngestSimilarity | src/services/GraphService.ts:187-189 | a completed addition links the paper to exactly the other papers scored strictly above 0.3 |
| Queries.SearchNodes | src/services/GraphService.ts:294-300 | search gives exactly the nodes whose lower-cased label or abstract contains the lower-cased query, in storage order, each as often as stored |
| Queries.SearchEmptyQuery | src/services/GraphService.ts:294-300 | the empty query returns every node |
| Queries.SearchIgnoresCase | src/services/GraphService.ts:295 | a lower-cased query gives the same result as the original |
| Queries.SearchNarrows | src/services/GraphService.ts:294-300 | lengthening a query never adds results |
| Queries.Neighbours | src/services/GraphService.ts:309-315 | defines the id set the edge scan builds; stated by NeighboursAdjacent |
| Queries.NeighboursAdjacent | src/services/GraphService.ts:309-315 | the edge scan collects exactly the ids that share an edge with the node, so the `else` loses nothing |
| Queries.Connected | src/services/GraphService.ts:306-318 | connected nodes are exactly the stored nodes adjacent to the id, in storage order, each as often as stored, with distinct ids when the stored ids are distinct |
| Queries.NodeKindsPartition | src/services/GraphService.ts:351-357 | the five node counts add up to the number of nodes |
| Queries.EdgeKindsPartition | src/services/GraphService.ts:359-365 | the five edge counts add up to the number of edges |
| Queries.GraphStats | src/services/GraphService.ts:350-374 | the totals are the list lengths, and the per-kind counts add up to them |
| Queries.IngestStatsAgree | src/services/GraphService.ts:287-292 | after a completed addition the stored totals equal the statistics' counts |
| Queries.Export | src/services/GraphService.ts:320-322 | an export has all three sections |
| Queries.Import | src/services/GraphService.ts:324-334 | import fails, with "Invalid graph data", exactly for unparsable text and `null` |
| Queries.ImportExport | src/services/GraphService.ts:320-334 | importing an export restores the exported graph |
| Queries.ImportIncomplete | src/services/GraphService.ts:327-329 | a parsed value missing a section is ignored, without an error |
| Service.GraphService.constructor | src/services/GraphService.ts:33-43 | the service starts with the empty graph, which is well-formed |
| Service.GraphService.AddPaper | src/services/GraphService.ts:49-196 | the in-place updates leave the fields holding exactly `Ingest` of the old graph, and return its node; on a well-formed graph it completes and the graph stays well-formed |
| Service.GraphService.UpsertEach | src/services/GraphService.ts:71-105 | the `forEach` over the names ends where the run of mentions ends, stopping at a throw |
| Service.GraphService.Upsert | src/services/GraphService.ts:72-104 | one mention updates the fields as `UpsertStep`, and a throw changes nothing |
| Service.GraphService.UpdateCollaborationEdges | src/services/GraphService.ts:198-221 | the nested loops leave the edges of the collaboration rule |
| Service.GraphService.CollaborateAll | src/services/GraphService.ts:201-220 | the outer loop processes the rows i = 0, 1, ... in order |
| Service.GraphService.CollaborateRow | src/services/GraphService.ts:202-219 | the inner loop processes the pairs (i, j) for j > i in order |
| Service.GraphService.Collaborate | src/services/GraphService.ts:202-217 | one loop body is one co-listing |
| Service.GraphService.UpdateSimilarityEdges | src/services/GraphService.ts:223-243 | the loop over the other papers leaves the edges of the similarity rule |
| Service.GraphService.SimilarToEach | src/services/GraphService.ts:226-242 | the loop body, run for each other paper in order, is one similarity step |
| Service.GraphService.UpdateMetadata | src/services/GraphService.ts:287-292 | the counts are recomputed and the creation time kept |
| Service.GraphService.ConnectedNodes | src/services/GraphService.ts:306-318 | the set-building scan and filter give exactly the adjacent nodes |
| Service.GraphService.ImportGraph | src/services/GraphService.ts:324-334 | the fields are replaced only by a complete document, and an error leaves them unchanged |
| Service.GraphService.ClearGraph | src/services/GraphService.ts:336-348 | the fields hold the empty graph, which is well-formed |
| Scenarios.SpacingVariants | src/services/GraphService.ts:72 | "A  B", "A B" and "A_B" name one author node |
| Scenarios.EmptyKeywordUnion | src/services/GraphService.ts:253-262 | equal topics with no keywords on either side score NaN, so no edge |
| Scenarios.ThresholdIsStrict | src/services/GraphService.ts:229 | keywords 3 of 5 and disjoint topics score (0.6 + 0) / 2 = 0.3, which gives no edge |
| Scenarios.ReversedPair | src/services/GraphService.ts:202-204 | a pair listed in the other order has another collaboration id |
| Scenarios.LabelExample | src/services/GraphService.ts:238 | a score of 0.75 is labelled "75% similar" |

## Left out

- Floating point: scores, sizes and weights are exact reals. In doubles, topic and keyword coefficients of 0.2 and 0.4 average to 0.30000000000000004, which passes the threshold, while their exact mean of 0.3 does not; the model follows exact arithmetic there. `Scenarios.ThresholdIsStrict` uses an input whose mean is 0.3 in both. Rounding of the percentage near .5 can also differ.
- Ingestion.Ingest: the paper record and the analysis record are always present. In the source a null or undefined `paperData` throws at src/services/GraphService.ts:50, before any change, and a null or undefined `analysisData` throws at src/services/GraphService.ts:109, after the paper node has been placed and the authors registered, leaving the graph half-updated. Absent fields inside a present record are modelled (see above).
- Text.Lower: only ASCII letters are lower-cased. JavaScript's `toLowerCase` also maps other scripts.
- Clock: `new Date()` becomes the `now` parameter of `AddPaper`, `UpdateMetadata` and `ClearGraph`. The module-load initialisation becomes the constructor's `now`.
- Logging: the `console.error` call made before import rethrows is not modelled. Only the thrown error is.
- JSON text: `JSON.stringify` and `JSON.parse` are not modelled. Export yields the graph value, and import takes the parser's outcome as a `Document`. Dates turning into strings across a round trip, and truthy sections of the wrong shape, are not represented.
- Typed fields: the paper record keeps `id`, `title`, `authors`, `category`, `citations` and `abstract`. Other fields of the spread record (year, URL and the like) and node `position` are not modelled.
- Ingestion.CategoryColor: a category equal to an inherited object property name, such as `constructor`, yields that property in the source. The model gives the grey fallback.
- Citation nodes and `cites` edges: `addPaper` never creates them. They appear only through import, and are only counted and searched.
- `getGraph` is not modelled separately: `GraphService.Value()` is the graph it returns.
- Queries.SearchNodes: a node with no label makes `toLowerCase` throw in the source. The model's labels are always strings.
