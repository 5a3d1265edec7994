/** `convert_df_to_conv_ai_dict`: one training example per row and response
    column, with candidates from `sample_candidates`, partitioned into a
    "train" and a "valid" list by the row's split.

    The tokenizer is a pair of uninterpreted functions (`tokenize`,
    `convert_tokens_to_string`); the random draws of call `j` for row `i` are
    `draws[i][j]`. */
module ConvertDataset {
  import opened CandidateSampler

  type Tokens = seq<string>

  datatype Utterance = Utterance(history: string, candidates: seq<string>)

  /** `{"personality": ..., "utterances": [{"history": ..., "candidates": ...}]}`. */
  datatype Example = Example(personality: seq<string>, utterances: seq<Utterance>)

  /** The arguments of the conversion other than the table. */
  datatype Config = Config(
    personality: seq<string>,
    responseColumns: seq<string>,
    tokenize: string -> Tokens,
    detokenize: Tokens -> string,
    maxTokens: Option<int>,
    nCandidates: int)

  /** Python's slice `s[:k]`: a prefix of `s`, at most `k` long when `k` is not
      negative, and `s` without its last `-k` elements when it is. */
  function PyTake<T>(s: seq<T>, k: int): (r: seq<T>)
    ensures |r| <= |s| && r == s[..|r|]
    ensures 0 <= k ==> |r| <= k && (|r| == k || r == s)
    ensures k < 0 ==> |r| == if -k < |s| then |s| + k else 0
  {
    if 0 <= k then (if k < |s| then s[..k] else s)
    else if -k < |s| then s[..|s| + k] else []
  }

  /** `tokenizer.convert_tokens_to_string(tokenizer.tokenize(text)[:k])`. */
  function Truncate(cfg: Config, text: string, k: int): string
  {
    cfg.detokenize(PyTake(cfg.tokenize(text), k))
  }

  /** Every candidate truncated, in order. */
  function TruncateAll(cfg: Config, candidates: seq<string>, k: int): (r: seq<string>)
    ensures |r| == |candidates|
    ensures forall c :: 0 <= c < |r| ==> r[c] == Truncate(cfg, candidates[c], k)
  {
    seq(|candidates|, c requires 0 <= c < |candidates| => Truncate(cfg, candidates[c], k))
  }

  /** The example built from a question and its sampled candidates. */
  function MakeExample(cfg: Config, question: string, candidates: seq<string>, k: int): Example
  {
    Example(cfg.personality, [Utterance(Truncate(cfg, question, k), TruncateAll(cfg, candidates, k))])
  }

  // ---------------------------------------------------------------------------
  // Specification of the conversion

  /** One oracle draw per sampler call, each one the random source could make. */
  predicate DrawsFit(t: Table, cfg: Config, draws: seq<seq<Draw>>)
  {
    && |draws| == |t|
    && forall i :: 0 <= i < |t| ==>
         && |draws[i]| == |cfg.responseColumns|
         && forall j :: 0 <= j < |draws[i]| ==> DrawFits(t, t[i].id, Body, cfg.nCandidates, draws[i][j])
  }

  type Outcome = Result<seq<string>>

  /** One sampler outcome per row and response column. */
  predicate Shaped(t: Table, cfg: Config, outs: seq<seq<Outcome>>)
  {
    |outs| == |t| && forall i :: 0 <= i < |outs| ==> |outs[i]| == |cfg.responseColumns|
  }

  /** The outcomes of the sampler calls for row `i` and its first `m` response
      columns: `sample_candidates(df, row.id, "id", "body", n_candidates)`. */
  function RowOutcomes(t: Table, cfg: Config, draws: seq<seq<Draw>>, i: nat, m: nat): (r: seq<Outcome>)
    requires DrawsFit(t, cfg, draws) && i < |t| && m <= |cfg.responseColumns|
    ensures |r| == m
    ensures forall j :: 0 <= j < m && r[j].Success? ==> |r[j].value| == cfg.nCandidates
  {
    if m == 0 then []
    else RowOutcomes(t, cfg, draws, i, m - 1) + [SampleCandidates(t, t[i].id, Body, cfg.nCandidates, draws[i][m - 1])]
  }

  /** The outcome of every sampler call, by row and response column; each
      success holds `n_candidates` candidates. */
  function Outcomes(t: Table, cfg: Config, draws: seq<seq<Draw>>): (outs: seq<seq<Outcome>>)
    requires DrawsFit(t, cfg, draws)
    ensures Shaped(t, cfg, outs)
    ensures forall i, j :: 0 <= i < |outs| && 0 <= j < |outs[i]| && outs[i][j].Success? ==>
              |outs[i][j].value| == cfg.nCandidates
  {
    seq(|t|, i requires 0 <= i < |t| => RowOutcomes(t, cfg, draws, i, |cfg.responseColumns|))
  }

  /** Outcome `[i][j]` is that of the sampler call for row `i` with draw `draws[i][j]`. */
  lemma {:induction false} RowOutcomeAt(t: Table, cfg: Config, draws: seq<seq<Draw>>, i: nat, m: nat, j: nat)
    requires DrawsFit(t, cfg, draws) && i < |t| && j < m <= |cfg.responseColumns|
    ensures RowOutcomes(t, cfg, draws, i, m)[j] == SampleCandidates(t, t[i].id, Body, cfg.nCandidates, draws[i][j])
  {
    var prefix := RowOutcomes(t, cfg, draws, i, m - 1);
    var last := SampleCandidates(t, t[i].id, Body, cfg.nCandidates, draws[i][m - 1]);
    assert RowOutcomes(t, cfg, draws, i, m) == prefix + [last];
    if j < m - 1 {
      RowOutcomeAt(t, cfg, draws, i, m - 1, j);
      assert (prefix + [last])[j] == prefix[j];
    }
  }

  /** The error of the first failure among the first `m` outcomes of a row. */
  function FirstFailure(row: seq<Outcome>, m: nat): Option<SampleError>
    requires m <= |row|
  {
    if m == 0 then None
    else match FirstFailure(row, m - 1)
      case Some(e) => Some(e)
      case None => if row[m - 1].Failure? then Some(row[m - 1].error) else None
  }

  /** The error of the first failure in the first `k` rows, in row order and
      then column order. */
  function TableFailure(outs: seq<seq<Outcome>>, k: nat): Option<SampleError>
    requires k <= |outs|
  {
    if k == 0 then None
    else match TableFailure(outs, k - 1)
      case Some(e) => Some(e)
      case None => FirstFailure(outs[k - 1], |outs[k - 1]|)
  }

  /** The examples of a row with question `question` for its first `m`
      outcomes, all successes. */
  function RowExamples(cfg: Config, question: string, row: seq<Outcome>, m: nat, k: int): (r: seq<Example>)
    requires m <= |row| && FirstFailure(row, m).None?
    ensures |r| == m
    ensures forall j :: 0 <= j < m ==> row[j].Success? && r[j] == MakeExample(cfg, question, row[j].value, k)
  {
    if m == 0 then []
    else RowExamples(cfg, question, row, m - 1, k) + [MakeExample(cfg, question, row[m - 1].value, k)]
  }

  /** The examples a table row with outcomes `row` puts in the list for
      `split` with its first `m` response columns, one call after the other:
      each call adds its example when `max_tokens` is set and the row is of
      that split. */
  function RowPart(cfg: Config, r: Row, row: seq<Outcome>, m: nat, split: string): seq<Example>
    requires m <= |row| && FirstFailure(row, m).None?
  {
    if m == 0 then []
    else
      RowPart(cfg, r, row, m - 1, split)
      + if cfg.maxTokens.Some? && r.split == split
        then [MakeExample(cfg, r.body1, row[m - 1].value, cfg.maxTokens.value)] else []
  }

  /** A row puts all its examples, in column order, in the list of its split
      when `max_tokens` is set, and nothing otherwise. */
  lemma {:induction false} RowPartExamples(cfg: Config, r: Row, row: seq<Outcome>, m: nat, split: string)
    requires m <= |row| && FirstFailure(row, m).None?
    ensures RowPart(cfg, r, row, m, split)
            == if cfg.maxTokens.Some? && r.split == split
               then RowExamples(cfg, r.body1, row, m, cfg.maxTokens.value) else []
  {
    if m > 0 {
      RowPartExamples(cfg, r, row, m - 1, split);
    }
  }

  /** The examples the first `k` rows put in the list for split `split`. */
  function Collected(t: Table, cfg: Config, outs: seq<seq<Outcome>>, k: nat, split: string): seq<Example>
    requires Shaped(t, cfg, outs) && k <= |t|
    requires TableFailure(outs, k).None?
  {
    if k == 0 then []
    else Collected(t, cfg, outs, k - 1, split) + RowPart(cfg, t[k - 1], outs[k - 1], |outs[k - 1]|, split)
  }

  /** The result for given sampler outcomes: the first error, or the two lists. */
  function ConvertOutcomes(t: Table, cfg: Config, outs: seq<seq<Outcome>>): (r: Result<map<string, seq<Example>>>)
    requires Shaped(t, cfg, outs)
    ensures r.Success? ==> r.value.Keys == {"train", "valid"}
  {
    match TableFailure(outs, |t|)
    case Some(e) => Failure(e)
    case None => Success(map["train" := Collected(t, cfg, outs, |t|, "train"),
                             "valid" := Collected(t, cfg, outs, |t|, "val")])
  }

  /** The result of `convert_df_to_conv_ai_dict(t, ...)` with the given draws. */
  function Convert(t: Table, cfg: Config, draws: seq<seq<Draw>>): Result<map<string, seq<Example>>>
    requires DrawsFit(t, cfg, draws)
  {
    ConvertOutcomes(t, cfg, Outcomes(t, cfg, draws))
  }

  // ---------------------------------------------------------------------------
  // convert_df_to_conv_ai_dict

  /** `outcomes` are the outcomes of the sampler calls for row `i`, one per
      response column. The trigger keeps the sampler out of the proofs that
      only pass these outcomes along. */
  ghost predicate RowCalls(t: Table, cfg: Config, draws: seq<seq<Draw>>, i: nat, outcomes: seq<Outcome>)
    requires DrawsFit(t, cfg, draws) && i < |t|
  {
    && |outcomes| == |cfg.responseColumns|
    && forall j {:trigger draws[i][j]} :: 0 <= j < |outcomes| ==>
         outcomes[j] == SampleCandidates(t, t[i].id, Body, cfg.nCandidates, draws[i][j])
  }

  /** The sampler call for row `i` and response column `j`. */
  method SampleFor(t: Table, cfg: Config, draws: seq<seq<Draw>>, i: nat, j: nat, ghost outcomes: seq<Outcome>)
    returns (r: Outcome)
    requires DrawsFit(t, cfg, draws) && i < |t| && RowCalls(t, cfg, draws, i, outcomes)
    requires j < |outcomes|
    ensures r == outcomes[j]
  {
    r := SampleCandidates(t, t[i].id, Body, cfg.nCandidates, draws[i][j]);
  }

  /** The inner loop for row `i`: one sampler call per response column,
      each success appending its example to the list of the row's split; the
      first failure stops the row. */
  method ConvertRow(t: Table, cfg: Config, draws: seq<seq<Draw>>, i: nat, ghost outcomes: seq<Outcome>,
                    train: seq<Example>, val: seq<Example>)
    returns (failure: Option<SampleError>, train': seq<Example>, val': seq<Example>)
    requires DrawsFit(t, cfg, draws) && i < |t| && RowCalls(t, cfg, draws, i, outcomes)
    ensures failure == FirstFailure(outcomes, |outcomes|)
    ensures failure.None? ==>
              && train' == train + RowPart(cfg, t[i], outcomes, |outcomes|, "train")
              && val' == val + RowPart(cfg, t[i], outcomes, |outcomes|, "val")
  {
    train', val' := train, val;
    var row := t[i];
    var questionText := row.body1;
    var j := 0;
    while j < |cfg.responseColumns|
      invariant 0 <= j <= |outcomes| == |cfg.responseColumns|
      invariant FirstFailure(outcomes, j).None?
      invariant train' == train + RowPart(cfg, row, outcomes, j, "train")
      invariant val' == val + RowPart(cfg, row, outcomes, j, "val")
    {
      var candidates := SampleFor(t, cfg, draws, i, j, outcomes);
      if candidates.Failure? {
        FirstFailureStays(outcomes, j + 1, |outcomes|);
        return Some(candidates.error), train', val';
      }
      train', val' := AddExample(cfg, row, questionText, candidates.value, train', val');
      j := j + 1;
    }
    failure := None;
  }

  /** The body of the inner loop once the sampler has returned `candidates`:
      with `max_tokens` set, the truncated example goes to the list of the
      row's split, if that is "train" or "val"; otherwise nothing changes. */
  method AddExample(cfg: Config, row: Row, questionText: string, candidates: seq<string>,
                    train: seq<Example>, val: seq<Example>)
    returns (train': seq<Example>, val': seq<Example>)
    ensures train' == train + if cfg.maxTokens.Some? && row.split == "train"
                              then [MakeExample(cfg, questionText, candidates, cfg.maxTokens.value)] else []
    ensures val' == val + if cfg.maxTokens.Some? && row.split == "val"
                          then [MakeExample(cfg, questionText, candidates, cfg.maxTokens.value)] else []
  {
    train', val' := train, val;
    if cfg.maxTokens.Some? {
      var k := cfg.maxTokens.value;
      var questions := Truncate(cfg, questionText, k);
      var truncated := TruncateAll(cfg, candidates, k);
      var d := Example(cfg.personality, [Utterance(questions, truncated)]);
      if row.split == "train" {
        train' := train' + [d];
      } else if row.split == "val" {
        val' := val' + [d];
      }
    }
  }

  /** `convert_df_to_conv_ai_dict`: the outer loop over the rows, with the
      `train` and `val` lists as local variables; a sampler error ends the
      conversion with that error. */
  method ConvertDfToConvAiDict(t: Table, cfg: Config, draws: seq<seq<Draw>>)
    returns (r: Result<map<string, seq<Example>>>)
    requires DrawsFit(t, cfg, draws)
    ensures r == Convert(t, cfg, draws)
  {
    ghost var outs := Outcomes(t, cfg, draws);
    var train: seq<Example> := [];
    var val: seq<Example> := [];
    var i := 0;
    while i < |t|
      invariant 0 <= i <= |t|
      invariant TableFailure(outs, i).None?
      invariant train == Collected(t, cfg, outs, i, "train")
      invariant val == Collected(t, cfg, outs, i, "val")
    {
      var failure;
      RowCallsOfOutcomes(t, cfg, draws, i);
      failure, train, val := ConvertRow(t, cfg, draws, i, outs[i], train, val);
      if failure.Some? {
        TableFailureStays(outs, i + 1, |t|);
        return Failure(failure.value);
      }
      i := i + 1;
    }
    r := Success(map["train" := train, "valid" := val]);
  }

  // ---------------------------------------------------------------------------
  // Errors

  lemma {:induction false} FirstFailureStays(row: seq<Outcome>, m: nat, m': nat)
    requires m <= m' <= |row|
    requires FirstFailure(row, m).Some?
    ensures FirstFailure(row, m') == FirstFailure(row, m)
    decreases m' - m
  {
    if m < m' {
      FirstFailureStays(row, m, m' - 1);
    }
  }

  lemma {:induction false} TableFailureStays(outs: seq<seq<Outcome>>, k: nat, k': nat)
    requires k <= k' <= |outs|
    requires TableFailure(outs, k).Some?
    ensures TableFailure(outs, k') == TableFailure(outs, k)
    decreases k' - k
  {
    if k < k' {
      TableFailureStays(outs, k, k' - 1);
    }
  }

  /** A row's first failure is `None` exactly when all its first `m` calls succeed. */
  lemma {:induction false} FirstFailureNone(row: seq<Outcome>, m: nat)
    requires m <= |row|
    ensures FirstFailure(row, m).None? <==> forall j :: 0 <= j < m ==> row[j].Success?
  {
    if m > 0 {
      FirstFailureNone(row, m - 1);
      if FirstFailure(row, m - 1).Some? {
        assert !row[FirstFailureAt(row, m - 1)].Success?;
      }
    }
  }

  /** The position of the first failure among the first `m` calls. */
  function FirstFailureAt(row: seq<Outcome>, m: nat): (j: nat)
    requires m <= |row| && FirstFailure(row, m).Some?
    ensures j < m && row[j] == Failure(FirstFailure(row, m).value)
    ensures forall j' :: 0 <= j' < j ==> row[j'].Success?
  {
    if FirstFailure(row, m - 1).Some? then FirstFailureAt(row, m - 1)
    else
      FirstFailureNone(row, m - 1);
      m - 1
  }

  /** A failure that follows only successes is the row's first failure. */
  lemma FirstFailureIs(row: seq<Outcome>, m: nat, j: nat)
    requires j < m <= |row| && row[j].Failure?
    requires forall j' :: 0 <= j' < j ==> row[j'].Success?
    ensures FirstFailure(row, m) == Some(row[j].error)
  {
    FirstFailureNone(row, j);
    FirstFailureStays(row, j + 1, m);
  }

  /** Every call of every row succeeds. */
  predicate AllSucceed(outs: seq<seq<Outcome>>)
  {
    forall i, j :: 0 <= i < |outs| && 0 <= j < |outs[i]| ==> outs[i][j].Success?
  }

  /** Call `j` of row `i` is the first to fail, in row order then column order. */
  predicate FirstFailAt(outs: seq<seq<Outcome>>, i: int, j: int)
  {
    && 0 <= i < |outs| && 0 <= j < |outs[i]| && outs[i][j].Failure?
    && (forall i', j' :: 0 <= i' < i && 0 <= j' < |outs[i']| ==> outs[i'][j'].Success?)
    && (forall j' :: 0 <= j' < j ==> outs[i][j'].Success?)
  }

  lemma {:induction false} TableFailureNone(outs: seq<seq<Outcome>>, k: nat)
    requires k <= |outs|
    ensures TableFailure(outs, k).None? <==> AllSucceed(outs[..k])
  {
    if k > 0 {
      TableFailureNone(outs, k - 1);
      FirstFailureNone(outs[k - 1], |outs[k - 1]|);
      assert forall i :: 0 <= i < k - 1 ==> outs[..k][i] == outs[..k - 1][i];
      assert outs[..k][k - 1] == outs[k - 1];
    }
  }

  lemma {:induction false} TableFailureFirst(outs: seq<seq<Outcome>>, k: nat)
    requires k <= |outs| && TableFailure(outs, k).Some?
    ensures exists i, j :: 0 <= i < k && FirstFailAt(outs, i, j) && outs[i][j].error == TableFailure(outs, k).value
  {
    if TableFailure(outs, k - 1).Some? {
      TableFailureFirst(outs, k - 1);
    } else {
      TableFailureNone(outs, k - 1);
      var i := k - 1;
      var j := FirstFailureAt(outs[i], |outs[i]|);
      assert forall i' :: 0 <= i' < i ==> outs[..k - 1][i'] == outs[i'];
      assert FirstFailAt(outs, i, j);
    }
  }

  /** The conversion succeeds exactly when every sampler call does. */
  lemma ConvertSucceedsIff(t: Table, cfg: Config, outs: seq<seq<Outcome>>)
    requires Shaped(t, cfg, outs)
    ensures ConvertOutcomes(t, cfg, outs).Success? <==> AllSucceed(outs)
  {
    TableFailureNone(outs, |outs|);
    assert outs[..|outs|] == outs;
  }

  /** The first failing sampler call decides the error, ... */
  lemma ConvertFailsAtFirst(t: Table, cfg: Config, outs: seq<seq<Outcome>>, i: nat, j: nat)
    requires Shaped(t, cfg, outs) && FirstFailAt(outs, i, j)
    ensures ConvertOutcomes(t, cfg, outs) == Failure(outs[i][j].error)
  {
    TableFailureNone(outs, i);
    assert AllSucceed(outs[..i]) by {
      forall i', j' | 0 <= i' < i && 0 <= j' < |outs[..i][i']|
        ensures outs[..i][i'][j'].Success?
      {
        assert outs[..i][i'] == outs[i'];
      }
    }
    FirstFailureIs(outs[i], |outs[i]|, j);
    TableFailureStays(outs, i + 1, |t|);
  }

  /** ... and every error the conversion returns is that of its first failing call. */
  lemma ConvertFailureIsFirst(t: Table, cfg: Config, outs: seq<seq<Outcome>>)
    requires Shaped(t, cfg, outs) && ConvertOutcomes(t, cfg, outs).Failure?
    ensures exists i, j :: FirstFailAt(outs, i, j) && outs[i][j].error == ConvertOutcomes(t, cfg, outs).error
  {
    TableFailureFirst(outs, |t|);
  }

  // ---------------------------------------------------------------------------
  // The two lists

  /** The positions, in table order, of the first `k` rows of split `split`. */
  function RowsWith(t: Table, split: string, k: nat): (rows: seq<nat>)
    requires k <= |t|
    ensures forall q :: 0 <= q < |rows| ==> rows[q] < k && t[rows[q]].split == split
    ensures forall a, b :: 0 <= a < b < |rows| ==> rows[a] < rows[b]
    ensures forall i :: 0 <= i < k && t[i].split == split ==> i in rows
  {
    if k == 0 then [] else RowsWith(t, split, k - 1) + if t[k - 1].split == split then [k - 1] else []
  }

  /** The sequences of `bs` one after the other. */
  function Concat<T>(bs: seq<seq<T>>): seq<T>
  {
    if bs == [] then [] else Concat(bs[..|bs| - 1]) + bs[|bs| - 1]
  }

  /** `n` sequences of length `c` make `n * c` elements. */
  lemma {:induction false} ConcatLength<T>(bs: seq<seq<T>>, c: nat)
    requires forall q :: 0 <= q < |bs| ==> |bs[q]| == c
    ensures |Concat(bs)| == |bs| * c
  {
    if bs != [] {
      ConcatLength(bs[..|bs| - 1], c);
      assert (|bs| - 1) * c + c == |bs| * c;
    }
  }

  /** Every row of a table whose calls up to row `k` all succeed has no failure. */
  lemma {:induction false} TableFailureRows(outs: seq<seq<Outcome>>, k: nat)
    requires k <= |outs| && TableFailure(outs, k).None?
    ensures forall i :: 0 <= i < k ==> FirstFailure(outs[i], |outs[i]|).None?
  {
    if k > 0 {
      TableFailureRows(outs, k - 1);
    }
  }

  /** The examples of each of the first `k` rows of split `split`, one
      sequence per row, in table order. */
  function Grid(t: Table, cfg: Config, outs: seq<seq<Outcome>>, k: nat, split: string): seq<seq<Example>>
    requires Shaped(t, cfg, outs) && k <= |t| && TableFailure(outs, k).None? && cfg.maxTokens.Some?
  {
    if k == 0 then []
    else
      Grid(t, cfg, outs, k - 1, split)
      + if t[k - 1].split == split
        then [RowExamples(cfg, t[k - 1].body1, outs[k - 1], |outs[k - 1]|, cfg.maxTokens.value)]
        else []
  }

  /** Block `q` of the grid holds the examples of the `q`-th row of the split. */
  lemma {:induction false} GridRows(t: Table, cfg: Config, outs: seq<seq<Outcome>>, k: nat, split: string)
    requires Shaped(t, cfg, outs) && k <= |t| && TableFailure(outs, k).None? && cfg.maxTokens.Some?
    ensures var g, rows := Grid(t, cfg, outs, k, split), RowsWith(t, split, k);
            && |g| == |rows|
            && forall q :: 0 <= q < |g| ==>
                 && FirstFailure(outs[rows[q]], |outs[rows[q]]|).None?
                 && g[q] == RowExamples(cfg, t[rows[q]].body1, outs[rows[q]], |outs[rows[q]]|, cfg.maxTokens.value)
  {
    TableFailureRows(outs, k);
    if k > 0 {
      GridRows(t, cfg, outs, k - 1, split);
      var g, rows := Grid(t, cfg, outs, k, split), RowsWith(t, split, k);
      var g', rows' := Grid(t, cfg, outs, k - 1, split), RowsWith(t, split, k - 1);
      if t[k - 1].split == split {
        assert g == g' + [g[|g| - 1]] && rows == rows' + [k - 1];
      } else {
        assert g == g' && rows == rows';
      }
    }
  }

  lemma {:induction false} CollectedLayout(t: Table, cfg: Config, outs: seq<seq<Outcome>>, k: nat, split: string)
    requires Shaped(t, cfg, outs) && k <= |t| && TableFailure(outs, k).None? && cfg.maxTokens.Some?
    ensures Collected(t, cfg, outs, k, split) == Concat(Grid(t, cfg, outs, k, split))
  {
    if k > 0 {
      CollectedLayout(t, cfg, outs, k - 1, split);
      TableFailureRows(outs, k);
      RowPartExamples(cfg, t[k - 1], outs[k - 1], |outs[k - 1]|, split);
      var grid := Grid(t, cfg, outs, k, split);
      var grid' := Grid(t, cfg, outs, k - 1, split);
      if t[k - 1].split == split {
        assert grid[..|grid| - 1] == grid';
      } else {
        assert grid == grid';
      }
    }
  }

  /** When the conversion succeeds and `max_tokens` is set, each list is the
      examples of the rows of its split, row after row in table order, each
      row giving `len(response_columns)` examples in column order; rows of
      other splits give nothing. */
  lemma ConvertLayout(t: Table, cfg: Config, outs: seq<seq<Outcome>>)
    requires Shaped(t, cfg, outs) && ConvertOutcomes(t, cfg, outs).Success? && cfg.maxTokens.Some?
    ensures ConvertOutcomes(t, cfg, outs).value["train"] == Concat(Grid(t, cfg, outs, |t|, "train"))
    ensures ConvertOutcomes(t, cfg, outs).value["valid"] == Concat(Grid(t, cfg, outs, |t|, "val"))
    ensures |ConvertOutcomes(t, cfg, outs).value["train"]| == |RowsWith(t, "train", |t|)| * |cfg.responseColumns|
    ensures |ConvertOutcomes(t, cfg, outs).value["valid"]| == |RowsWith(t, "val", |t|)| * |cfg.responseColumns|
  {
    CollectedLayout(t, cfg, outs, |t|, "train");
    GridRows(t, cfg, outs, |t|, "train");
    ConcatLength(Grid(t, cfg, outs, |t|, "train"), |cfg.responseColumns|);
    CollectedLayout(t, cfg, outs, |t|, "val");
    GridRows(t, cfg, outs, |t|, "val");
    ConcatLength(Grid(t, cfg, outs, |t|, "val"), |cfg.responseColumns|);
  }

  lemma {:induction false} CollectedEmpty(t: Table, cfg: Config, outs: seq<seq<Outcome>>, k: nat, split: string)
    requires Shaped(t, cfg, outs) && k <= |t| && TableFailure(outs, k).None? && cfg.maxTokens.None?
    ensures Collected(t, cfg, outs, k, split) == []
  {
    if k > 0 {
      CollectedEmpty(t, cfg, outs, k - 1, split);
      TableFailureRows(outs, k);
      RowPartExamples(cfg, t[k - 1], outs[k - 1], |outs[k - 1]|, split);
    }
  }

  /** Without `max_tokens` nothing is appended: both lists are empty. */
  lemma ConvertWithoutMaxTokens(t: Table, cfg: Config, outs: seq<seq<Outcome>>)
    requires Shaped(t, cfg, outs) && ConvertOutcomes(t, cfg, outs).Success? && cfg.maxTokens.None?
    ensures ConvertOutcomes(t, cfg, outs).value["train"] == []
    ensures ConvertOutcomes(t, cfg, outs).value["valid"] == []
  {
    CollectedEmpty(t, cfg, outs, |t|, "train");
    CollectedEmpty(t, cfg, outs, |t|, "val");
  }

  // ---------------------------------------------------------------------------
  // The examples

  /** `s` is the string of a prefix of `orig`'s tokens, at most `k` tokens long
      when `k` is not negative. */
  ghost predicate TruncatedFrom(cfg: Config, s: string, orig: string, k: int)
  {
    exists ts: Tokens :: && |ts| <= |cfg.tokenize(orig)| && ts == cfg.tokenize(orig)[..|ts|]
                         && (0 <= k ==> |ts| <= k) && s == cfg.detokenize(ts)
  }

  /** An example carries the personality unchanged, one utterance, one
      candidate per sampled candidate, and every string truncated to `k` tokens. */
  lemma MakeExampleShape(cfg: Config, question: string, candidates: seq<string>, k: int)
    ensures var e := MakeExample(cfg, question, candidates, k);
            && e.personality == cfg.personality
            && |e.utterances| == 1
            && |e.utterances[0].candidates| == |candidates|
            && TruncatedFrom(cfg, e.utterances[0].history, question, k)
            && forall c :: 0 <= c < |candidates| ==>
                 TruncatedFrom(cfg, e.utterances[0].candidates[c], candidates[c], k)
  {
    var e := MakeExample(cfg, question, candidates, k);
    var ts := PyTake(cfg.tokenize(question), k);
    assert e.utterances[0].history == cfg.detokenize(ts);
    forall c | 0 <= c < |candidates|
      ensures TruncatedFrom(cfg, e.utterances[0].candidates[c], candidates[c], k)
    {
      var cs := PyTake(cfg.tokenize(candidates[c]), k);
      assert e.utterances[0].candidates[c] == cfg.detokenize(cs);
    }
  }

  /** `e` is the example built from `question` and `candidates` with
      truncation to `k` tokens: one utterance whose history is the truncated
      question and whose candidates are the truncated candidates, in order. */
  ghost predicate TruncatedExample(cfg: Config, e: Example, question: string, candidates: seq<string>, k: int)
  {
    && |e.utterances| == 1
    && |e.utterances[0].candidates| == |candidates|
    && TruncatedFrom(cfg, e.utterances[0].history, question, k)
    && forall c :: 0 <= c < |candidates| ==> TruncatedFrom(cfg, e.utterances[0].candidates[c], candidates[c], k)
  }

  /** The shape every example of the list for `split` has: the personality
      unchanged and `n_candidates` candidates, built, with `max_tokens` set,
      from the `body_1` of a row `i` of that split and the candidates of one
      of its successful sampler calls `outs[i][j]`, each string truncated to
      at most `max_tokens` tokens. */
  ghost predicate ExampleShaped(t: Table, cfg: Config, outs: seq<seq<Outcome>>, split: string, e: Example)
  {
    && e.personality == cfg.personality
    && |e.utterances| == 1
    && |e.utterances[0].candidates| == cfg.nCandidates
    && cfg.maxTokens.Some?
    && exists i, j :: && 0 <= i < |t| && i < |outs| && 0 <= j < |outs[i]| && outs[i][j].Success?
                      && t[i].split == split
                      && TruncatedExample(cfg, e, t[i].body1, outs[i][j].value, cfg.maxTokens.value)
  }

  lemma {:induction false} CollectedShaped(t: Table, cfg: Config, outs: seq<seq<Outcome>>, k: nat, split: string)
    requires Shaped(t, cfg, outs) && k <= |t| && TableFailure(outs, k).None?
    requires forall i, j :: 0 <= i < |outs| && 0 <= j < |outs[i]| && outs[i][j].Success? ==>
               |outs[i][j].value| == cfg.nCandidates
    ensures forall x :: 0 <= x < |Collected(t, cfg, outs, k, split)| ==>
              ExampleShaped(t, cfg, outs, split, Collected(t, cfg, outs, k, split)[x])
  {
    if k > 0 {
      CollectedShaped(t, cfg, outs, k - 1, split);
      var ex' := Collected(t, cfg, outs, k - 1, split);
      TableFailureRows(outs, k);
      RowPartExamples(cfg, t[k - 1], outs[k - 1], |outs[k - 1]|, split);
      var part := RowPart(cfg, t[k - 1], outs[k - 1], |outs[k - 1]|, split);
      assert Collected(t, cfg, outs, k, split) == ex' + part;
      forall x | 0 <= x < |part|
        ensures ExampleShaped(t, cfg, outs, split, part[x])
      {
        var row := outs[k - 1];
        var q := t[k - 1].body1;
        MakeExampleShape(cfg, q, row[x].value, cfg.maxTokens.value);
        assert TruncatedExample(cfg, part[x], q, outs[k - 1][x].value, cfg.maxTokens.value);
      }
    }
  }

  /** Every example the conversion puts in the "train" list (the "valid" list)
      is built from a "train" ("val") row and one of its sampler calls, carries
      the personality unchanged, one utterance and `n_candidates` candidates,
      and every string in it is truncated to at most `max_tokens` tokens, when
      every successful sampler call returned `n_candidates` candidates, as
      `Outcomes` guarantees. */
  lemma ConvertExamplesShaped(t: Table, cfg: Config, outs: seq<seq<Outcome>>)
    requires Shaped(t, cfg, outs) && ConvertOutcomes(t, cfg, outs).Success?
    requires forall i, j :: 0 <= i < |outs| && 0 <= j < |outs[i]| && outs[i][j].Success? ==>
               |outs[i][j].value| == cfg.nCandidates
    ensures forall e :: e in ConvertOutcomes(t, cfg, outs).value["train"] ==> ExampleShaped(t, cfg, outs, "train", e)
    ensures forall e :: e in ConvertOutcomes(t, cfg, outs).value["valid"] ==> ExampleShaped(t, cfg, outs, "val", e)
  {
    CollectedShaped(t, cfg, outs, |t|, "train");
    CollectedShaped(t, cfg, outs, |t|, "val");
  }

  /** Row `i` of the outcomes holds the sampler calls of that row. */
  lemma RowCallsOfOutcomes(t: Table, cfg: Config, draws: seq<seq<Draw>>, i: nat)
    requires DrawsFit(t, cfg, draws) && i < |t|
    ensures RowCalls(t, cfg, draws, i, Outcomes(t, cfg, draws)[i])
  {
    forall j | 0 <= j < |cfg.responseColumns| {
      OutcomesAt(t, cfg, draws, i, j);
    }
  }

  /** The outcomes are those of the sampler calls the loop makes. */
  lemma OutcomesAt(t: Table, cfg: Config, draws: seq<seq<Draw>>, i: nat, j: nat)
    requires DrawsFit(t, cfg, draws) && i < |t| && j < |cfg.responseColumns|
    ensures Outcomes(t, cfg, draws)[i][j] == SampleCandidates(t, t[i].id, Body, cfg.nCandidates, draws[i][j])
  {
    RowOutcomeAt(t, cfg, draws, i, |cfg.responseColumns|, j);
  }
}
