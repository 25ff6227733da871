/// Properties of the labeler's specification: what the labels mean, and which
/// changes to the phrase lists leave them alone.
module SpanProperties {
  import opened Labels
  import opened SpanLabeling

  /** With no phrases at all, every token is labeled `Neither`. */
  lemma NoPhrasesAllNeither(query: Tokens)
    ensures Expected(query, [], []) == seq(|query|, _ => Neither)
  {
  }

  /** A position that no occurrence of any phrase covers stays `Neither`. */
  lemma UncoveredStaysNeither(query: Tokens, inclusion: seq<Tokens>, exclusion: seq<Tokens>, k: int)
    requires 0 <= k < |query|
    requires forall j :: 0 <= j < |inclusion| ==> !Covers(query, inclusion[j], k)
    requires forall j :: 0 <= j < |exclusion| ==> !Covers(query, exclusion[j], k)
    ensures Expected(query, inclusion, exclusion)[k] == Neither
  {
  }

  /** Every occurrence of an inclusion phrase is marked, not only the first:
      each of its positions is `Include` unless an exclusion occurrence covers it. */
  lemma EveryInclusionOccurrenceMarked(query: Tokens, inclusion: seq<Tokens>, exclusion: seq<Tokens>,
                                       j: int, i: int, k: int)
    requires 0 <= j < |inclusion| && MatchesAt(query, inclusion[j], i)
    requires i <= k < i + |inclusion[j]|
    ensures Expected(query, inclusion, exclusion)[k] ==
              if CoveredBy(query, exclusion, k) then Exclude else Include
  {
    assert InMatch(query, inclusion[j], i, k);
  }

  /** Exclusion precedence: a position inside any occurrence of an exclusion
      phrase is `Exclude`, whatever inclusion occurrences also cover it. */
  lemma ExclusionWins(query: Tokens, inclusion: seq<Tokens>, exclusion: seq<Tokens>,
                      j: int, i: int, k: int)
    requires 0 <= j < |exclusion| && MatchesAt(query, exclusion[j], i)
    requires i <= k < i + |exclusion[j]|
    ensures Expected(query, inclusion, exclusion)[k] == Exclude
  {
    assert InMatch(query, exclusion[j], i, k);
  }

  /** A phrase longer than the query has no start index to try; an empty phrase
      only ever writes empty spans. Either way it covers nothing. */
  lemma UnmatchableCoversNothing(query: Tokens, phrase: Tokens, k: int)
    requires |phrase| > |query| || |phrase| == 0
    ensures !Covers(query, phrase, k)
  {
  }

  /** Adding a phrase that is longer than the query, or empty, to either list
      leaves the labels unchanged. */
  lemma UnmatchablePhraseChangesNothing(query: Tokens, inclusion: seq<Tokens>, exclusion: seq<Tokens>,
                                        p: Tokens)
    requires |p| > |query| || |p| == 0
    ensures Expected(query, inclusion + [p], exclusion) == Expected(query, inclusion, exclusion)
    ensures Expected(query, inclusion, exclusion + [p]) == Expected(query, inclusion, exclusion)
  {
    forall k | 0 <= k < |query|
      ensures LabelAt(query, inclusion + [p], exclusion, k) == LabelAt(query, inclusion, exclusion, k)
      ensures LabelAt(query, inclusion, exclusion + [p], k) == LabelAt(query, inclusion, exclusion, k)
    {
      UnmatchableCoversNothing(query, p, k);
      CoveredBySnoc(query, inclusion, p, k);
      CoveredBySnoc(query, exclusion, p, k);
    }
  }

  /** Coverage depends only on which phrases are present. */
  lemma CoveredBySubset(query: Tokens, ps: seq<Tokens>, qs: seq<Tokens>, k: int)
    requires forall p :: p in ps ==> p in qs
    ensures CoveredBy(query, ps, k) ==> CoveredBy(query, qs, k)
  {
    if CoveredBy(query, ps, k) {
      var j :| 0 <= j < |ps| && Covers(query, ps[j], k);
      assert ps[j] in qs;
      var j' :| 0 <= j' < |qs| && qs[j'] == ps[j];
    }
  }

  /** Within each category only the set of phrases matters: their order and
      their repetitions do not change the labels. */
  lemma SamePhrasesSameLabels(query: Tokens, inc1: seq<Tokens>, inc2: seq<Tokens>,
                              exc1: seq<Tokens>, exc2: seq<Tokens>)
    requires forall p :: p in inc1 <==> p in inc2
    requires forall p :: p in exc1 <==> p in exc2
    ensures Expected(query, inc1, exc1) == Expected(query, inc2, exc2)
  {
    forall k | 0 <= k < |query|
      ensures LabelAt(query, inc1, exc1, k) == LabelAt(query, inc2, exc2, k)
    {
      CoveredBySubset(query, inc1, inc2, k);
      CoveredBySubset(query, inc2, inc1, k);
      CoveredBySubset(query, exc1, exc2, k);
      CoveredBySubset(query, exc2, exc1, k);
    }
  }

  /** Reordering the inclusion phrases, or the exclusion phrases, changes nothing. */
  lemma PhraseOrderIrrelevant(query: Tokens, inc1: seq<Tokens>, inc2: seq<Tokens>,
                              exc1: seq<Tokens>, exc2: seq<Tokens>)
    requires multiset(inc1) == multiset(inc2) && multiset(exc1) == multiset(exc2)
    ensures Expected(query, inc1, exc1) == Expected(query, inc2, exc2)
  {
    forall p ensures p in inc1 <==> p in inc2 {
      assert p in inc1 <==> p in multiset(inc1);
      assert p in inc2 <==> p in multiset(inc2);
    }
    forall p ensures p in exc1 <==> p in exc2 {
      assert p in exc1 <==> p in multiset(exc1);
      assert p in exc2 <==> p in multiset(exc2);
    }
    SamePhrasesSameLabels(query, inc1, inc2, exc1, exc2);
  }

  /** Repeating an inclusion phrase already in the list changes nothing. */
  lemma DuplicateInclusionIrrelevant(query: Tokens, inclusion: seq<Tokens>, exclusion: seq<Tokens>, p: Tokens)
    requires p in inclusion
    ensures Expected(query, inclusion + [p], exclusion) == Expected(query, inclusion, exclusion)
  {
    SamePhrasesSameLabels(query, inclusion + [p], inclusion, exclusion, exclusion);
  }

  /** Repeating an exclusion phrase already in the list changes nothing. */
  lemma DuplicateExclusionIrrelevant(query: Tokens, inclusion: seq<Tokens>, exclusion: seq<Tokens>, p: Tokens)
    requires p in exclusion
    ensures Expected(query, inclusion, exclusion + [p]) == Expected(query, inclusion, exclusion)
  {
    SamePhrasesSameLabels(query, inclusion, inclusion, exclusion + [p], exclusion);
  }

  /** Overlapping inclusion and exclusion occurrences: the shared token is `Exclude`. */
  lemma OverlapExample()
    ensures Expected(["a", "b", "c", "d"], [["b", "c"]], [["c", "d"]]) == [Neither, Include, Exclude, Exclude]
  {
    var query: Tokens := ["a", "b", "c", "d"];
    var inc: Tokens := ["b", "c"];
    var exc: Tokens := ["c", "d"];
    assert InMatch(query, inc, 1, 1) && InMatch(query, inc, 1, 2);
    assert InMatch(query, exc, 2, 2) && InMatch(query, exc, 2, 3);
    assert !MatchesAt(query, inc, 0) && !MatchesAt(query, exc, 0) && !MatchesAt(query, exc, 1);
    assert !Covers(query, inc, 0) && !Covers(query, exc, 0) && !Covers(query, exc, 1);
    assert [inc][0] == inc && [exc][0] == exc;
  }

  /** A phrase occurring twice is marked at both occurrences. */
  lemma RepeatedOccurrenceExample()
    ensures Expected(["x", "y", "x", "y"], [["x", "y"]], []) == [Include, Include, Include, Include]
  {
    var query: Tokens := ["x", "y", "x", "y"];
    var inc: Tokens := ["x", "y"];
    assert InMatch(query, inc, 0, 0) && InMatch(query, inc, 0, 1);
    assert InMatch(query, inc, 2, 2) && InMatch(query, inc, 2, 3);
    assert [inc][0] == inc;
  }
}
