/// The per-record pipeline of the preprocessing script: clean the query,
/// tokenize it and the criteria phrases, label the query tokens, collect the labels.
module Preprocessing {
  import opened Labels
  import opened TextCleaning
  import opened SpanLabeling
  import SpanProperties

  /** One input row: the query text and its inclusion and exclusion phrase texts. */
  datatype Record = Record(query: string, inclusion: seq<string>, exclusion: seq<string>)

  /** Tokenizes every phrase of a list, keeping the list's order. */
  function TokenizeAll(tokenize: string -> Tokens, texts: seq<string>): (r: seq<Tokens>)
    ensures |r| == |texts|
  {
    seq(|texts|, j requires 0 <= j < |texts| => tokenize(texts[j]))
  }

  /** The labels a record should receive: the query is cleaned before it is
      tokenized; the phrases are tokenized as they are, without cleaning. */
  ghost function RecordLabels(tokenize: string -> Tokens, rec: Record): (r: seq<Label>)
    ensures |r| == |tokenize(CleanText(rec.query))|
  {
    Expected(tokenize(CleanText(rec.query)),
             TokenizeAll(tokenize, rec.inclusion),
             TokenizeAll(tokenize, rec.exclusion))
  }

  /** Labels one record. `tokenize` stands for the external subword tokenizer. */
  method LabelRecord(tokenize: string -> Tokens, rec: Record) returns (labels: seq<Label>)
    ensures |labels| == |tokenize(CleanText(rec.query))|
    ensures labels == RecordLabels(tokenize, rec)
  {
    var tokenizedQuery := tokenize(CleanText(rec.query));
    var tokenizedInclusion := TokenizeAll(tokenize, rec.inclusion);
    var tokenizedExclusion := TokenizeAll(tokenize, rec.exclusion);
    labels := LabelSpans(tokenizedQuery, tokenizedInclusion, tokenizedExclusion);
  }

  /** Labels every record in turn, appending each label sequence to the result. */
  method LabelAll(tokenize: string -> Tokens, records: seq<Record>) returns (finalLabels: seq<seq<Label>>)
    ensures |finalLabels| == |records|
    ensures forall r :: 0 <= r < |records| ==> finalLabels[r] == RecordLabels(tokenize, records[r])
  {
    ghost var expected := seq(|records|, s requires 0 <= s < |records| => RecordLabels(tokenize, records[s]));
    finalLabels := [];
    var r := 0;
    while r < |records|
      invariant 0 <= r <= |records|
      invariant finalLabels == expected[..r]
    {
      var labels := LabelRecord(tokenize, records[r]);
      assert expected[..r + 1] == expected[..r] + [expected[r]];
      finalLabels := finalLabels + [labels];
      r := r + 1;
    }
    assert expected[..r] == expected;
  }

  /** A record whose query is already clean is labeled exactly as the original:
      cleaning is applied once and applying it again would change nothing. */
  lemma PrecleanedQuerySameLabels(tokenize: string -> Tokens, rec: Record)
    ensures RecordLabels(tokenize, rec.(query := CleanText(rec.query))) == RecordLabels(tokenize, rec)
  {
    CleanTextIdempotent(rec.query);
  }

  /** A tokenizer that makes every character its own token. */
  function CharTokens(s: string): (r: Tokens)
    ensures |r| == |s|
  {
    seq(|s|, i requires 0 <= i < |s| => [s[i]])
  }

  /** Only the query is cleaned: with a per-character tokenizer, a phrase that
      contains a hyphen never matches a query made of that very phrase, because
      the query loses its hyphens and the phrase keeps them. */
  lemma HyphenatedPhraseMissesItsOwnQuery(text: string)
    requires '-' in text
    ensures RecordLabels(CharTokens, Record(text, [text], [])) == seq(|CleanText(text)|, _ => Neither)
  {
    var query := CharTokens(CleanText(text));
    var phrase := CharTokens(text);
    assert '-' in multiset(text);
    assert TokenizeAll(CharTokens, [text]) == [phrase];
    forall k | 0 <= k < |query| ensures !Covers(query, phrase, k) {
      SpanProperties.UnmatchableCoversNothing(query, phrase, k);
    }
  }
}
