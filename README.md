# Token labels for clinical eligibility queries

This project models the core of a preprocessing script. The script turns free-text
clinical eligibility queries into token-level training labels. Each query comes with a
list of inclusion phrases and a list of exclusion phrases. Every token of the tokenized
query is labeled as part of an inclusion phrase, part of an exclusion phrase, or neither.

The model has five modules:

- `Labels` (`labels.dfy`): the three labels and the literal strings the script writes for
  them: `"Neither"`, `"include"` and `"exclude"`.
- `TextCleaning` (`text_cleaning.dfy`): the query cleaner. It makes three character-level
  passes in the script's order: delete every `-`, replace every `(` with a space, then
  replace every `)` with a space. `CleanByChar` is a one-pass reference definition.
  The contract of `CleanText` says the output has none of the three characters and loses
  exactly the hyphens. Lemmas show that it keeps every other character in order and is
  idempotent.
- `SpanLabeling` (`span_labeling.dfy`): the labeler, working in place on an array of
  labels.
  - `MarkOccurrences` is the loop over start indices `0 .. |query| - |phrase|`. Slice
    assignment becomes a `forall` statement over the matched span.
  - `MarkAll` is the loop over the phrases of one category.
  - `LabelSpans` fills the array with `Neither`, runs the inclusion pass, then runs the
    exclusion pass.
  - All three are proved against the pure specification `Expected`, which is built from
    "position k lies inside an occurrence of one of these phrases" (`CoveredBy`).
- `SpanProperties` (`span_properties.dfy`): lemmas about `Expected`. They cover exclusion
  precedence, every occurrence being marked, phrases that cannot match, independence from
  phrase order and repetition, and two worked examples.
- `Preprocessing` (`preprocessing.dfy`): the per-record pipeline and the loop over records.
  - The tokenizer is a parameter `tokenize: string -> seq<string>`. A Dafny function value
    is deterministic, which is all the labeler relies on.
  - Only the query is cleaned; phrase texts are tokenized as they are, as in the script.
    `HyphenatedPhraseMissesItsOwnQuery` shows one consequence of this asymmetry.

Two details of the script that the model keeps:

- Phrases with zero tokens are not skipped. Each of their `|query| + 1` start indices
  matches and writes an empty slice, so nothing changes (`UnmatchablePhraseChangesNothing`).
- The script writes `"include"` and `"exclude"` in lower case next to a capitalised
  `"Neither"`. The constructors are named `Include` and `Exclude` (`Labels.Spelling`).

## Model

| member | source | states |
|---|---|---|
| `Labels.Spelling` | Data_Preprocessing.py:66-78 | the literal written for each label; only `Neither` begins with an upper-case letter; all three have seven characters |
| `Labels.SpellingInjective` | Data_Preprocessing.py:66-78 | the three literals are pairwise distinct, so each label can be recovered from its output string |
| `TextCleaning.RemoveAll` | Data_Preprocessing.py:50 | deleting a character leaves none of it, shortens the string by its number of occurrences, adds no new character, and leaves a string without it unchanged |
| `TextCleaning.RemoveAllAppend` | Data_Preprocessing.py:50 | deletion distributes over concatenation, so the characters that remain keep their order |
| `TextCleaning.ReplaceAll` | Data_Preprocessing.py:51-52 | a one-character substitution keeps the length and changes exactly the positions that held that character |
| `TextCleaning.CleanText` | Data_Preprocessing.py:49-53 | the cleaned query contains no `-`, `(` or `)`, and is as long as the input minus its number of `-` characters |
| `TextCleaning.CleanTextByChar` | Data_Preprocessing.py:49-53 | cleaning equals the per-character reference: `-` dropped, `(` and `)` become a space, every other character kept in order |
| `TextCleaning.ReplaceAllAppend` | Data_Preprocessing.py:51-52 | a substitution distributes over concatenation |
| `TextCleaning.CleanTextFixesCleanStrings` | Data_Preprocessing.py:49-53 | a string without `-`, `(` and `)` is left unchanged |
| `TextCleaning.CleanByCharFixes` | Data_Preprocessing.py:49-53 | the per-character reference leaves a string without `-`, `(` and `)` unchanged |
| `TextCleaning.CleanTextIdempotent` | Data_Preprocessing.py:49-53 | cleaning twice gives the same result as cleaning once |
| `SpanLabeling.MarkOccurrences` | Data_Preprocessing.py:71-73 | after the loop over start indices, every position inside some occurrence of the phrase holds the written label and every other position is unchanged |
| `SpanLabeling.CoveredBySnoc` | Data_Preprocessing.py:70 | one more phrase in the list adds exactly that phrase's occurrences to what is covered |
| `SpanLabeling.MarkAll` | Data_Preprocessing.py:70-73 | after the loop over a phrase list, positions covered by an occurrence of any phrase hold the written label and the rest are unchanged |
| `SpanLabeling.LabelSpans` | Data_Preprocessing.py:66-78 | one label per query token; `Exclude` exactly where an exclusion occurrence covers; `Include` exactly where an inclusion occurrence covers and no exclusion occurrence does; `Neither` exactly where nothing covers |
| `SpanProperties.NoPhrasesAllNeither` | Data_Preprocessing.py:66 | with no phrases every label is `Neither` |
| `SpanProperties.UncoveredStaysNeither` | Data_Preprocessing.py:66-78 | a position covered by no occurrence of any phrase is `Neither` |
| `SpanProperties.EveryInclusionOccurrenceMarked` | Data_Preprocessing.py:70-73 | every position of every occurrence of an inclusion phrase is `Include`, or `Exclude` if an exclusion occurrence covers it |
| `SpanProperties.ExclusionWins` | Data_Preprocessing.py:70-78 | every position of an exclusion occurrence is `Exclude`, whatever inclusion occurrences cover it |
| `SpanProperties.UnmatchableCoversNothing` | Data_Preprocessing.py:71-73 | a phrase longer than the query, or an empty phrase, covers no position |
| `SpanProperties.UnmatchablePhraseChangesNothing` | Data_Preprocessing.py:71-78 | adding such a phrase to either list leaves the labels unchanged |
| `SpanProperties.CoveredBySubset` | Data_Preprocessing.py:70-78 | coverage by a phrase list only grows when the set of phrases grows |
| `SpanProperties.SamePhrasesSameLabels` | Data_Preprocessing.py:70-78 | lists with the same phrases in each category, in any order and with any repetitions, give the same labels |
| `SpanProperties.PhraseOrderIrrelevant` | Data_Preprocessing.py:70-78 | permuting the inclusion list or the exclusion list does not change the labels |
| `SpanProperties.DuplicateInclusionIrrelevant` | Data_Preprocessing.py:70-73 | repeating an inclusion phrase already present changes nothing |
| `SpanProperties.DuplicateExclusionIrrelevant` | Data_Preprocessing.py:75-78 | repeating an exclusion phrase already present changes nothing |
| `SpanProperties.OverlapExample` | Data_Preprocessing.py:70-78 | query a b c d, inclusion "b c", exclusion "c d" gives Neither, Include, Exclude, Exclude |
| `SpanProperties.RepeatedOccurrenceExample` | Data_Preprocessing.py:70-73 | query x y x y with inclusion "x y" labels all four tokens `Include` |
| `Preprocessing.TokenizeAll` | Data_Preprocessing.py:67-68 | tokenizing a phrase list gives one token sequence per phrase |
| `Preprocessing.RecordLabels` | Data_Preprocessing.py:65-78 | the specified labels of a record are as many as the tokens of its cleaned query |
| `Preprocessing.LabelRecord` | Data_Preprocessing.py:65-78 | a record's labels are as many as its cleaned, tokenized query has tokens, and equal the specification applied to the tokenized query and the tokenized, uncleaned phrases |
| `Preprocessing.LabelAll` | Data_Preprocessing.py:61-80 | one label sequence per record, in record order, each the specified labels of that record |
| `Preprocessing.PrecleanedQuerySameLabels` | Data_Preprocessing.py:49-55 | a record whose query is already cleaned gets the same labels as the original record |
| `Preprocessing.HyphenatedPhraseMissesItsOwnQuery` | Data_Preprocessing.py:55-68 | with a per-character tokenizer, a phrase containing `-` never matches a query equal to that phrase, so every token is `Neither`, because only the query is cleaned |

## Left out

- Command-line arguments (Data_Preprocessing.py:33-34): process I/O.
- Reading the CSV, decoding the `cohort` JSON column, and copying the inclusion and
  exclusion lists into table cells (Data_Preprocessing.py:37-46): table and JSON plumbing.
  A record is given directly as a query text with two lists of phrase texts.
- The BERT tokenizer and its configuration (Data_Preprocessing.py:58): a foreign library.
  It is a function parameter with no further properties; WordPiece and lower-casing are
  not modelled.
- Writing the labels into the table and the table to `final.csv`
  (Data_Preprocessing.py:82-84): file I/O. The script writes to `final.csv` and ignores
  its `output_name` argument.
- The regular-expression engine: `clean_text` is modelled directly as character
  deletion and replacement.
- In the script, cleaning runs over the whole query column before the labeling loop
  (line 55). The model cleans each query inside the per-record step instead. The result
  is the same, because cleaning one query does not depend on any other.
- Errors for inputs of the wrong shape: the Dafny types rule them out.
