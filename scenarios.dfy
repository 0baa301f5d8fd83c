/**
 * Worked instances of the rules on concrete names and analyses.
 */
module Scenarios {
  import opened Wrappers
  import opened Text
  import opened GraphModel
  import opened Registry
  import opened Synthesizer

  /** Names differing only in whitespace runs, or in a run against an
      underscore, share one node. */
  lemma SpacingVariants()
    ensures EntityId(Author, "A  B") == EntityId(Author, "A B") == EntityId(Author, "A_B") == "author_A_B"
  {
  }

  /** Identical topics but no keywords on either side: the keyword
      coefficient divides zero by zero, so there is no edge although the
      topic coefficient is 1. */
  lemma EmptyKeywordUnion()
    ensures Similarity(Analysis(["graphs"], []), Some(Analysis(["graphs"], []))) == NaN
    ensures !Exceeds(Similarity(Analysis(["graphs"], []), Some(Analysis(["graphs"], []))))
  {
  }

  lemma ThreeOfFive()
    ensures Jaccard(ToSet(["k", "l", "m"]), ToSet(["k", "l", "m", "n", "o"])) == Value(0.6)
  {
    var three := {"k", "l", "m"};
    var five := {"k", "l", "m", "n", "o"};
    assert ToSet(["k", "l", "m"]) == three;
    assert ToSet(["k", "l", "m", "n", "o"]) == five;
    assert three * five == three;
    assert three + five == five;
    assert |three| == 3;
    assert |five| == |three + {"n"}| + 1;
  }

  lemma Disjoint()
    ensures Jaccard(ToSet(["a"]), ToSet(["b"])) == Value(0.0)
  {
    assert ToSet(["a"]) == {"a"};
    assert ToSet(["b"]) == {"b"};
    assert {"a"} * {"b"} == {};
  }

  /** Keywords 3 of 5 and disjoint topics score (0.6 + 0) / 2 = 0.3, which
      is not above the threshold; in doubles the sum and the halving are
      exact too, so the mean is the double nearest 0.3 there as well. */
  lemma ThresholdIsStrict()
    ensures Similarity(Analysis(["a"], ["k", "l", "m"]), Some(Analysis(["b"], ["k", "l", "m", "n", "o"]))) == Value(0.3)
    ensures !Exceeds(Similarity(Analysis(["a"], ["k", "l", "m"]), Some(Analysis(["b"], ["k", "l", "m", "n", "o"]))))
  {
    ThreeOfFive();
    Disjoint();
  }

  /** The authors of a pair listed in the other order count under another
      edge id. */
  lemma ReversedPair()
    ensures CollabId(EntityId(Author, "Ada"), EntityId(Author, "Bob")) != CollabId(EntityId(Author, "Bob"), EntityId(Author, "Ada"))
  {
    assert EntityId(Author, "Ada") == "author_Ada";
    assert EntityId(Author, "Bob") == "author_Bob";
    assert CollabId("author_Ada", "author_Bob")[7] == 'A';
    assert CollabId("author_Bob", "author_Ada")[7] == 'B';
  }

  lemma LabelExample()
    ensures SimilarLabel(0.75) == "75% similar"
  {
  }
}
