/// The span labeler: tag every query token covered by an occurrence of an
/// inclusion phrase or an exclusion phrase, exclusion taking precedence.
module SpanLabeling {
  import opened Labels

  /** A token sequence, as produced by the tokenizer. */
  type Tokens = seq<string>

  /** `phrase` occurs in `query` starting at index `i`, for a start index the
      labeler tries (0 up to and including |query| - |phrase|). */
  predicate MatchesAt(query: Tokens, phrase: Tokens, i: int)
  {
    0 <= i <= |query| - |phrase| && query[i..i + |phrase|] == phrase
  }

  /** Position `k` lies inside the occurrence of `phrase` that starts at `i`. */
  predicate InMatch(query: Tokens, phrase: Tokens, i: int, k: int)
  {
    MatchesAt(query, phrase, i) && i <= k < i + |phrase|
  }

  /** Position `k` lies inside some occurrence of `phrase` starting before `n`. */
  ghost predicate CoveredBefore(query: Tokens, phrase: Tokens, k: int, n: int)
  {
    exists i :: 0 <= i < n && InMatch(query, phrase, i, k)
  }

  /** Position `k` lies inside some occurrence of `phrase`. */
  ghost predicate Covers(query: Tokens, phrase: Tokens, k: int)
  {
    exists i :: InMatch(query, phrase, i, k)
  }

  /** Position `k` lies inside some occurrence of one of `phrases`. */
  ghost predicate CoveredBy(query: Tokens, phrases: seq<Tokens>, k: int)
  {
    exists j :: 0 <= j < |phrases| && Covers(query, phrases[j], k)
  }

  /** The label position `k` should receive: exclusion first, then inclusion. */
  ghost function LabelAt(query: Tokens, inclusion: seq<Tokens>, exclusion: seq<Tokens>, k: int): Label
  {
    if CoveredBy(query, exclusion, k) then Exclude
    else if CoveredBy(query, inclusion, k) then Include
    else Neither
  }

  /** The label sequence the labeler should produce: one label per query token. */
  ghost function Expected(query: Tokens, inclusion: seq<Tokens>, exclusion: seq<Tokens>): seq<Label>
  {
    seq(|query|, k => LabelAt(query, inclusion, exclusion, k))
  }

  /** The inner loop over start indices for one phrase: every occurrence of
      `phrase` in `query` has its span overwritten with `value`; every other
      position keeps its label. */
  method MarkOccurrences(query: Tokens, phrase: Tokens, a: array<Label>, value: Label)
    requires a.Length == |query|
    modifies a
    ensures forall k :: 0 <= k < a.Length ==>
              a[k] == if Covers(query, phrase, k) then value else old(a[k])
  {
    var i := 0;
    while i <= |query| - |phrase|
      invariant 0 <= i
      invariant i <= |query| - |phrase| + 1 || i == 0
      invariant forall k :: 0 <= k < a.Length ==>
                  a[k] == if CoveredBefore(query, phrase, k, i) then value else old(a[k])
    {
      ghost var before := a[..];
      if query[i..i + |phrase|] == phrase {
        forall k | i <= k < i + |phrase| {
          a[k] := value;
        }
      }
      forall k | 0 <= k < a.Length
        ensures a[k] == if CoveredBefore(query, phrase, k, i + 1) then value else old(a[k])
      {
        if !InMatch(query, phrase, i, k) {
          assert a[k] == before[k];
          if CoveredBefore(query, phrase, k, i + 1) {
            var m :| 0 <= m < i + 1 && InMatch(query, phrase, m, k);
            assert CoveredBefore(query, phrase, k, i);
          }
        }
      }
      i := i + 1;
    }
    forall k | 0 <= k < a.Length
      ensures CoveredBefore(query, phrase, k, i) == Covers(query, phrase, k)
    {
      if Covers(query, phrase, k) {
        var m :| InMatch(query, phrase, m, k);
        assert 0 <= m < i;
      }
    }
  }

  /** Extending a phrase list by one phrase adds exactly that phrase's occurrences. */
  lemma CoveredBySnoc(query: Tokens, phrases: seq<Tokens>, p: Tokens, k: int)
    ensures CoveredBy(query, phrases + [p], k) <==> CoveredBy(query, phrases, k) || Covers(query, p, k)
  {
    var ext := phrases + [p];
    if CoveredBy(query, phrases, k) {
      var j :| 0 <= j < |phrases| && Covers(query, phrases[j], k);
      assert ext[j] == phrases[j];
    }
    if Covers(query, p, k) {
      assert ext[|phrases|] == p;
    }
    if CoveredBy(query, ext, k) {
      var j :| 0 <= j < |ext| && Covers(query, ext[j], k);
      if j < |phrases| {
        assert ext[j] == phrases[j];
      }
    }
  }

  /** One pass over a phrase list: every position covered by an occurrence of one
      of `phrases` is overwritten with `value`; every other position keeps its label. */
  method MarkAll(query: Tokens, phrases: seq<Tokens>, a: array<Label>, value: Label)
    requires a.Length == |query|
    modifies a
    ensures forall k :: 0 <= k < a.Length ==>
              a[k] == if CoveredBy(query, phrases, k) then value else old(a[k])
  {
    var j := 0;
    while j < |phrases|
      invariant 0 <= j <= |phrases|
      invariant forall k :: 0 <= k < a.Length ==>
                  a[k] == if CoveredBy(query, phrases[..j], k) then value else old(a[k])
    {
      MarkOccurrences(query, phrases[j], a, value);
      forall k | 0 <= k < a.Length {
        CoveredBySnoc(query, phrases[..j], phrases[j], k);
      }
      assert phrases[..j + 1] == phrases[..j] + [phrases[j]];
      j := j + 1;
    }
    assert phrases[..j] == phrases;
  }

  /** Labels one record's tokens: fill with `Neither`, mark every inclusion
      occurrence, then mark every exclusion occurrence over it. */
  method LabelSpans(query: Tokens, inclusion: seq<Tokens>, exclusion: seq<Tokens>)
    returns (labels: seq<Label>)
    ensures |labels| == |query|
    ensures forall k :: 0 <= k < |query| ==>
              (labels[k] == Exclude <==> CoveredBy(query, exclusion, k))
    ensures forall k :: 0 <= k < |query| ==>
              (labels[k] == Include <==> CoveredBy(query, inclusion, k) && !CoveredBy(query, exclusion, k))
    ensures forall k :: 0 <= k < |query| ==>
              (labels[k] == Neither <==> !CoveredBy(query, inclusion, k) && !CoveredBy(query, exclusion, k))
    ensures labels == Expected(query, inclusion, exclusion)
  {
    var a := new Label[|query|](_ => Neither);
    MarkAll(query, inclusion, a, Include);
    MarkAll(query, exclusion, a, Exclude);
    labels := a[..];
  }
}
