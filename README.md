# ConvertDataset: a verified model

`ConvertDataset.py` turns a table of question/answer rows into the
ConvAI-style dictionary used to fine-tune a conversational model. It has two
functions, and the model has three modules.

- **`sample_candidates`** (`candidate_sampler.dfy`, module `CandidateSampler`)
  draws distractor answers for one row, in these steps:
  - It finds the split of the first row with the given id.
  - It restricts the table to the other rows of that split (the pool).
  - It draws `n + 15` distinct pool rows and joins their text with spaces.
  - It replaces newlines with spaces, lower-cases the text and splits it on
    `?`, `.` and `!`.
  - It strips every piece and keeps the pieces longer than one character
    (the sentences).
  - It picks `n` sentences at random, with replacement.
- **The Python string built-ins it uses** (`py_strings.dfy`, module `PyStrings`):
  - `" ".join`;
  - `re.sub("\n", " ", _).lower()`;
  - `re.split('[?.!]', _)`;
  - `str.strip`;
  - the filter comprehension.
- **`convert_df_to_conv_ai_dict`** (`convert_dataset.dfy`, module `ConvertDataset`)
  loops over the rows, and for each row over the response columns:
  - It calls the sampler once per column, on the `body` column with
    `n_candidates`.
  - When `max_tokens` is set, it truncates the row's `body_1` question and
    every candidate to `max_tokens` tokens.
  - It appends the example to `train` or `val`, depending on whether the
    row's split is `"train"` or `"val"`.
  - It returns `{"train": train, "valid": val}`.

The converter keeps the source's imperative form: `ConvertDfToConvAiDict` is
the outer loop and `ConvertRow` the inner one, both with local `train`/`val`
lists. The outer loop is proved equal to the specification function
`Convert`. The inner loop is proved to give the row's first failure
(`FirstFailure`) or to append the row's examples (`RowPart`) to each list.
Every property of the result is proved as a lemma about `Convert`, which is
built from these pieces:
- `Outcomes`: the sampler outcome of every call, by row and column;
- `ConvertOutcomes`: the first error, or the two lists `Collected` builds.

The random draws of pandas `.sample` and `np.random.choice` are an oracle.
`Draw(rows, picks)` holds the pool positions `.sample` returns and the
sentence positions `choice` returns, and `DrawFits` states what the random
source guarantees: the rows are distinct and in range, and the picks are in
range. The converter receives one `Draw` per sampler call,
`draws[row][column]`.

Python exceptions become `Failure` results (`SampleError`):
- `UnknownId`: the id is in no row, so `.tolist()[0]` raises `IndexError`;
- `NegativeRowCount`: `n + 15 < 0` in the row draw;
- `PoolTooSmall`: the pool holds fewer than `n + 15` rows;
- `NoSentences`: no sentence survives and `n != 0`; numpy checks for an
  empty list before it checks the size;
- `NegativeCandidateCount`: some sentence survives and `n < 0` in `choice`.

A failure in any sampler call ends the conversion with that error. The
converter calls the sampler even when `max_tokens` is `None`, so errors
happen then too.

Where the code and its comments disagree, the model follows the code:
- The comment at `ConvertDataset.py:55` says three rows are sampled; the code
  samples `n + 15`.
- The comment at `ConvertDataset.py:70` says the list is shuffled; the code
  draws `n` sentences with replacement. Repeats are possible. The draw fails
  when `n < 0`, and when the sentence list is empty and `n != 0`.
- A small table therefore fails outright. With four rows split two and two,
  asking for one candidate needs 16 pool rows (`FourRowTableFails`).

## Model

| member | source | states |
|---|---|---|
| PyStrings.JoinSpacesKeepsTexts | ConvertDataset.py:59 | the joined text is the pieces in order: piece `i` starts at the total length of the pieces before it plus one per piece, every piece but the last is followed by one blank, and the length is the total length plus the count minus one; the join of no pieces is the empty string |
| PyStrings.Normalise | ConvertDataset.py:62 | same length; no newline and no upper-case letter remains; a newline becomes a space, an upper-case letter its lower-case form, every other character is kept; delimiters stay where they were |
| PyStrings.NormaliseIdempotent | ConvertDataset.py:62 | normalising twice is normalising once |
| PyStrings.SplitDelims | ConvertDataset.py:65 | at least one piece, and no piece contains `?`, `.` or `!` |
| PyStrings.SplitDelimsPartition | ConvertDataset.py:65 | the pieces concatenated are the text with the delimiters removed, and there is one piece more than there are delimiters |
| PyStrings.SplitDelimsRejoin | ConvertDataset.py:65 | there is one piece more than there are delimiters, and putting the delimiters of the text back between the pieces, in order, gives the text: piece `k` runs from just after the `k`-th delimiter to just before the next |
| PyStrings.SplitDelimsUnique | ConvertDataset.py:65 | any delimiter-free pieces that give the text back when delimiters are put between them are exactly the pieces of the split |
| PyStrings.SplitDelimsPieces | ConvertDataset.py:65 | every piece is a contiguous part of the text |
| PyStrings.Strip | ConvertDataset.py:68 | the result is no longer than the input and neither starts nor ends with whitespace |
| PyStrings.StripTrims | ConvertDataset.py:68 | the result occurs in the input with only whitespace before and after it |
| PyStrings.StripIsSubstring | ConvertDataset.py:68 | the result is a contiguous part of the input |
| PyStrings.StripIdempotent | ConvertDataset.py:68 | stripping twice is stripping once |
| PyStrings.LongAt | ConvertDataset.py:68 | the `q`-th string kept by the length filter is the one at the `q`-th kept position, and it is longer than one character |
| PyStrings.LongPositionsExact | ConvertDataset.py:68 | a position is kept exactly when its string is longer than one character |
| PyStrings.KeepSentences | ConvertDataset.py:68 | no more sentences than pieces, each at least two characters long with no whitespace at either end |
| PyStrings.KeepSentencesOrder | ConvertDataset.py:68 | the kept sentences are the stripped pieces whose stripped length exceeds one, exactly those and in their original order |
| PyStrings.SentencesOf | ConvertDataset.py:65-68 | every sentence of a text has no delimiter, at least two characters, no whitespace at either end, and is a contiguous part of the text |
| CandidateSampler.FirstIndexOf | ConvertDataset.py:52 | the position of the first row with the id, or the table length when no row has it |
| CandidateSampler.SplitOf | ConvertDataset.py:52 | the split is that of the first row with the id; there is none exactly when no row has the id |
| CandidateSampler.Pool | ConvertDataset.py:53-56 | a row is in the pool exactly when it is in the table, has the split and has another id |
| CandidateSampler.PoolCounts | ConvertDataset.py:53-56 | the pool holds each row of the split with another id as often as the table does, and no other row |
| CandidateSampler.SelectDistinctIsSubMultiset | ConvertDataset.py:56 | a draw of distinct positions takes no row more often than the population holds it (without replacement) |
| CandidateSampler.SampleCandidates | ConvertDataset.py:33-71 | a success holds exactly `n` candidates; the call fails with `UnknownId` exactly when no row has the id |
| CandidateSampler.SampleCandidatesNoLeak | ConvertDataset.py:51-56 | on success the drawn rows are exactly `n + 15` rows of the pool, none drawn twice, all of the id's split and none with the id |
| CandidateSampler.SampleCandidatesSentences | ConvertDataset.py:58-71 | every candidate is a sentence of the drawn rows' normalised text, a contiguous part of it with no delimiter, newline or upper-case letter, no whitespace at either end and at least two characters |
| CandidateSampler.SampleCandidatesFailures | ConvertDataset.py:52-71 | the call succeeds exactly when the id is known, the pool holds `n + 15` rows, `n >= 0` and some sentence survives unless `n == 0`; for each of the five errors, the exact inputs that raise it |
| CandidateSampler.FourRowTableFails | ConvertDataset.py:55-56 | a four-row table split two and two fails with `PoolTooSmall` for one candidate, whatever the draw |
| ConvertDataset.PyTake | ConvertDataset.py:19-20 | Python's `[:k]` gives a prefix of the tokens, at most `k` long for `k >= 0` and the whole list when it is shorter; for negative `k` it drops the last `-k` |
| ConvertDataset.MakeExampleShape | ConvertDataset.py:19-23 | an example carries the personality unchanged and one utterance with as many candidates as were sampled; the history and every candidate are the string of a token prefix at most `max_tokens` long |
| ConvertDataset.RowOutcomes | ConvertDataset.py:15-16 | one outcome per response column; each success holds `n_candidates` candidates |
| ConvertDataset.Outcomes | ConvertDataset.py:13-16 | one row of outcomes per table row, one outcome per response column; each success holds `n_candidates` candidates |
| ConvertDataset.RowOutcomeAt | ConvertDataset.py:15-16 | outcome `j` of row `i` is the sampler call for row `i`'s id on `body` with draw `draws[i][j]` |
| ConvertDataset.OutcomesAt | ConvertDataset.py:13-16 | the outcome at row `i`, column `j` is the sampler call for row `i`'s id on `body` with `n_candidates` and draw `draws[i][j]` |
| ConvertDataset.RowExamples | ConvertDataset.py:15-23 | a row whose calls all succeed gives one example per column, in column order, each built from the row's question and that call's candidates |
| ConvertDataset.ConvertOutcomes | ConvertDataset.py:29-31 | a successful result has exactly the keys `"train"` and `"valid"` |
| ConvertDataset.RowCallsOfOutcomes | ConvertDataset.py:13-16 | row `i` of the outcomes holds one sampler call per response column, with that column's draw |
| ConvertDataset.AddExample | ConvertDataset.py:18-27 | with `max_tokens` set, the example built from the truncated question and candidates is appended to `train` when the split is `"train"` and to `val` when it is `"val"`; otherwise both lists are unchanged |
| ConvertDataset.RowPartExamples | ConvertDataset.py:15-27 | a row puts all its examples, in column order, in the list of its split when `max_tokens` is set, and nothing otherwise |
| ConvertDataset.ConvertRow | ConvertDataset.py:14-27 | the inner loop returns the row's first sampler error, or appends the row's examples to the list of its split and leaves the other list unchanged |
| ConvertDataset.ConvertDfToConvAiDict | ConvertDataset.py:1-31 | the nested loops compute `Convert`: the first sampler error, or the two lists |
| ConvertDataset.FirstFailureNone | ConvertDataset.py:15-16 | a row has no failure exactly when all its calls succeed |
| ConvertDataset.TableFailureNone | ConvertDataset.py:13-16 | the first rows have no failure exactly when all their calls succeed |
| ConvertDataset.ConvertSucceedsIff | ConvertDataset.py:13-16 | the conversion succeeds exactly when every sampler call succeeds |
| ConvertDataset.ConvertFailsAtFirst | ConvertDataset.py:13-16 | when a call is the first to fail (row order, then column order) the conversion fails with its error |
| ConvertDataset.ConvertFailureIsFirst | ConvertDataset.py:13-16 | every error the conversion returns is the error of its first failing call |
| ConvertDataset.RowsWith | ConvertDataset.py:24-27 | the positions of the rows of a split: increasing, each of that split, and every row of that split is among them |
| ConvertDataset.GridRows | ConvertDataset.py:13-27 | block `q` holds the examples of the `q`-th row of the split, one per column |
| ConvertDataset.ConvertLayout | ConvertDataset.py:13-29 | with `max_tokens` set, `"train"` is the examples of the `"train"` rows and `"valid"` those of the `"val"` rows, row after row in table order and column after column; each list has (rows of its split) × (response columns) elements; rows of other splits contribute nothing |
| ConvertDataset.ConvertWithoutMaxTokens | ConvertDataset.py:18 | without `max_tokens` both lists are empty |
| ConvertDataset.ConvertExamplesShaped | ConvertDataset.py:16-27 | every example in `"train"` (`"valid"`) carries the personality unchanged, one utterance and `n_candidates` candidates; it is built from the `body_1` of a `"train"` (`"val"`) row and the candidates of one of that row's successful calls, with the history and every candidate truncated to at most `max_tokens` tokens (given, as `Outcomes` ensures, that every successful call returned `n_candidates` candidates) |

## Left out

- The pandas machinery is not modelled: boolean masks, `itertuples`, the `tuple_map` column offset and `getattr`. A table is a sequence of `Row(id, body, body1, split)` records, and only the columns the code reads are kept.
- The id column is fixed to `id`. The converter samples only from `body` (`ConvertDataset.py:16`). `TextColumn` also has `Body1`, because `sample_candidates` takes any text column and the commented-out call at `ConvertDataset.py:17` would use `body_1`. Other columns are not modelled.
- Ids are integers. The source accepts any value that compares with `==`.
- Cells are strings. Missing values (NaN) and non-string cells, where `" ".join` would raise, are not modelled.
- The random number generators of pandas and numpy are replaced by the oracle `Draw`. The model proves what holds for every admissible draw, not the distribution of the draws.
- `np.random.choice` copies the sentences into a fixed-width numpy string array, which drops trailing `'\x00'` characters from a chosen sentence. The model returns the sentence unchanged.
- The tokenizer is a pair of uninterpreted functions, `tokenize` and `convert_tokens_to_string`.
- ConvertDataset.MakeExampleShape: bounds the token prefix before it is turned back into a string. It says nothing about how many tokens the string gives when it is tokenised again.
- PyStrings.Lower: lower-cases ASCII letters only. Python's full Unicode `str.lower` is not modelled, and neither are mappings that change the length of a string.
- PyStrings.IsSpace: the whitespace set of `str.strip` is a fixed list of characters, the ASCII ones plus the Unicode spaces Python treats as whitespace.
- PyStrings.SplitDelims: splits directly on the three delimiter characters. The regular-expression engine is not modelled.
- The `response_column` loop variable is not modelled as data, because the source never reads it. Only the number of response columns matters.
- Python exceptions are `Failure` results, and the converter returns the first one.
- `ConvertRow`, the inner loop, is a separate method for proof size. Its behaviour is that of the nested `for` loops.
