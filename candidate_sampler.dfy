/** `sample_candidates`: split-aware sampling of distractor sentences.

    The table is a sequence of rows. The two random draws (pandas `.sample`
    and `np.random.choice`) are the oracle `Draw`: index sequences into the
    population each draw is taken from. */
module CandidateSampler {
  import opened PyStrings

  datatype Option<T> = None | Some(value: T)

  /** One row of the table, with the columns the converter reads. */
  datatype Row = Row(id: int, body: string, body1: string, split: string)

  type Table = seq<Row>

  /** The text column sampled from. */
  datatype TextColumn = Body | Body1

  function TextOf(r: Row, col: TextColumn): string
  {
    match col
    case Body => r.body
    case Body1 => r.body1
  }

  /** The ways `sample_candidates` raises. */
  datatype SampleError =
    | UnknownId              // `.tolist()[0]` on an empty selection: IndexError
    | NegativeRowCount       // `.sample(n + 15)` with `n + 15 < 0`: ValueError
    | PoolTooSmall           // `.sample(n + 15)` from fewer rows, without replacement: ValueError
    | NegativeCandidateCount // `np.random.choice(xs, n)` with `xs` not empty and `n < 0`: ValueError
    | NoSentences            // `np.random.choice([], n)` with `n != 0`: ValueError

  datatype Result<T> = Success(value: T) | Failure(error: SampleError)

  /** The oracle for the two random draws of one call: the pool positions
      `.sample` picks, in the order it returns them, and the sentence
      positions `np.random.choice` picks. */
  datatype Draw = Draw(rows: seq<nat>, picks: seq<nat>)

  // ---------------------------------------------------------------------------
  // Stages of the pipeline

  /** The position of the first row with this id, or `|t|` if there is none. */
  function FirstIndexOf(t: Table, id: int): (k: nat)
    ensures k <= |t|
    ensures forall i :: 0 <= i < k ==> t[i].id != id
    ensures k < |t| ==> t[k].id == id
  {
    if t == [] || t[0].id == id then 0 else 1 + FirstIndexOf(t[1..], id)
  }

  /** `df[df["id"] == id]["split"].tolist()[0]`, or `None` where that raises. */
  function SplitOf(t: Table, id: int): (r: Option<string>)
    ensures r.None? <==> forall i :: 0 <= i < |t| ==> t[i].id != id
    ensures r.Some? ==> exists i :: 0 <= i < |t| && t[i].id == id && t[i].split == r.value
                                    && forall j :: 0 <= j < i ==> t[j].id != id
  {
    var k := FirstIndexOf(t, id);
    if k < |t| then Some(t[k].split) else None
  }

  /** The rows of `split` with an id other than `id`, in table order:
      `candidate_df[candidate_df["id"] != id]` with `candidate_df` the rows of the split. */
  function Pool(t: Table, id: int, split: string): (p: Table)
    ensures forall r :: r in p <==> r in t && r.split == split && r.id != id
  {
    if t == [] then []
    else
      assert t == [t[0]] + t[1..];
      (if t[0].split == split && t[0].id != id then [t[0]] else []) + Pool(t[1..], id, split)
  }

  /** The pool holds each row of the split with another id as often as the
      table does, and nothing else. */
  lemma {:induction false} PoolCounts(t: Table, id: int, split: string)
    ensures forall r :: multiset(Pool(t, id, split))[r] == if r.split == split && r.id != id then multiset(t)[r] else 0
  {
    if t != [] {
      assert t == [t[0]] + t[1..];
      PoolCounts(t[1..], id, split);
    }
  }

  /** The elements of `xs` at positions `d`, in the order of `d`. */
  function Select<T>(xs: seq<T>, d: seq<nat>): (r: seq<T>)
    requires forall k :: 0 <= k < |d| ==> d[k] < |xs|
    ensures |r| == |d|
    ensures forall k :: 0 <= k < |r| ==> r[k] in xs
  {
    seq(|d|, k requires 0 <= k < |d| => xs[d[k]])
  }

  predicate Injective(d: seq<nat>)
  {
    forall a, b :: 0 <= a < b < |d| ==> d[a] != d[b]
  }

  function Texts(rows: seq<Row>, col: TextColumn): (r: seq<string>)
    ensures |r| == |rows|
  {
    seq(|rows|, k requires 0 <= k < |rows| => TextOf(rows[k], col))
  }

  /** The normalised, joined text of the drawn rows. */
  function Block(drawn: seq<Row>, col: TextColumn): string
  {
    Normalise(JoinSpaces(Texts(drawn, col)))
  }

  /** `filtered_text`: the sentences of the drawn rows' text. */
  function Sentences(drawn: seq<Row>, col: TextColumn): seq<string>
  {
    KeepSentences(SplitDelims(Block(drawn, col)))
  }

  // ---------------------------------------------------------------------------
  // The oracle

  /** A draw of `count` distinct positions out of `size`, as `.sample` makes. */
  predicate RowDrawFits(d: seq<nat>, size: nat, count: nat)
  {
    |d| == count && (forall k :: 0 <= k < |d| ==> d[k] < size) && Injective(d)
  }

  /** A draw of `count` positions out of `size`, repeats allowed, as `choice` makes. */
  predicate PickFits(picks: seq<nat>, size: nat, count: nat)
  {
    |picks| == count && forall k :: 0 <= k < |picks| ==> picks[k] < size
  }

  /** The oracle's draws are ones the random source could make at the point
      of the call where they are used. */
  predicate DrawFits(t: Table, id: int, col: TextColumn, n: int, draw: Draw)
  {
    match SplitOf(t, id)
    case None => true
    case Some(s) =>
      var pool := Pool(t, id, s);
      0 <= n + 15 <= |pool| ==>
        && RowDrawFits(draw.rows, |pool|, n + 15)
        && var sentences := Sentences(Select(pool, draw.rows), col);
           0 <= n && (n == 0 || |sentences| > 0) ==> PickFits(draw.picks, |sentences|, n)
  }

  // ---------------------------------------------------------------------------
  // sample_candidates

  /** `sample_candidates(t, id, "id", col, n)` with the random draws taken from `draw`. */
  function SampleCandidates(t: Table, id: int, col: TextColumn, n: int, draw: Draw): (r: Result<seq<string>>)
    requires DrawFits(t, id, col, n, draw)
    ensures r.Success? ==> |r.value| == n
    ensures r == Failure(UnknownId) <==> SplitOf(t, id).None?
  {
    match SplitOf(t, id)
    case None => Failure(UnknownId)
    case Some(s) =>
      var pool := Pool(t, id, s);
      if n + 15 < 0 then Failure(NegativeRowCount)
      else if n + 15 > |pool| then Failure(PoolTooSmall)
      else
        var sentences := Sentences(Select(pool, draw.rows), col);
        if |sentences| == 0 && n != 0 then Failure(NoSentences)
        else if n < 0 then Failure(NegativeCandidateCount)
        else Success(Select(sentences, draw.picks))
  }

  // ---------------------------------------------------------------------------
  // Properties

  lemma SelectAppend<T>(xs: seq<T>, a: seq<nat>, b: seq<nat>)
    requires forall k :: 0 <= k < |a| ==> a[k] < |xs|
    requires forall k :: 0 <= k < |b| ==> b[k] < |xs|
    ensures Select(xs, a + b) == Select(xs, a) + Select(xs, b)
  {
    assert forall k :: 0 <= k < |a + b| ==> (a + b)[k] < |xs|;
  }

  /** Positions inside a prefix select the same elements from the prefix. */
  lemma SelectPrefix<T>(xs: seq<T>, m: nat, d: seq<nat>)
    requires m <= |xs|
    requires forall k :: 0 <= k < |d| ==> d[k] < m
    ensures Select(xs[..m], d) == Select(xs, d)
  {
  }

  /** Taking position `p` out of an injective draw of positions below `m + 1`
      whose entry there is `m` leaves an injective draw below `m`. */
  lemma RemoveTop(d: seq<nat>, m: nat, p: nat)
    requires p < |d| && d[p] == m
    requires forall k :: 0 <= k < |d| ==> d[k] <= m
    requires Injective(d)
    ensures var d' := d[..p] + d[p + 1..];
            && (forall k :: 0 <= k < |d'| ==> d'[k] < m)
            && Injective(d')
  {
    var d' := d[..p] + d[p + 1..];
    forall k | 0 <= k < |d'|
      ensures d'[k] < m
    {
      var k' := if k < p then k else k + 1;
      assert d'[k] == d[k'];
    }
    forall a, b | 0 <= a < b < |d'|
      ensures d'[a] != d'[b]
    {
      var a', b' := if a < p then a else a + 1, if b < p then b else b + 1;
      assert d'[a] == d[a'] && d'[b] == d[b'];
    }
  }

  /** Drawing distinct positions takes each row at most as often as it is in
      the population: a draw without replacement. */
  lemma {:induction false} SelectDistinctIsSubMultiset<T>(xs: seq<T>, d: seq<nat>)
    requires forall k :: 0 <= k < |d| ==> d[k] < |xs|
    requires Injective(d)
    ensures multiset(Select(xs, d)) <= multiset(xs)
    decreases |xs|
  {
    if xs != [] {
      var m := |xs| - 1;
      var init := xs[..m];
      assert xs == init + [xs[m]];
      if p :| 0 <= p < |d| && d[p] == m {
        var left, right := d[..p], d[p + 1..];
        RemoveTop(d, m, p);
        SelectDistinctIsSubMultiset(init, left + right);
        assert d == left + [m] + right;
        SelectAppend(xs, left + [m], right);
        SelectAppend(xs, left, [m]);
        SelectAppend(xs, left, right);
        SelectPrefix(xs, m, left + right);
        assert Select(xs, [m]) == [xs[m]];
        assert multiset(Select(xs, d)) == multiset(Select(init, left + right)) + multiset{xs[m]};
      } else {
        assert forall k :: 0 <= k < |d| ==> d[k] < m;
        SelectPrefix(xs, m, d);
        SelectDistinctIsSubMultiset(init, d);
      }
    }
  }

  /** No leakage: the rows the text is drawn from are exactly `n + 15` rows of
      the pool, none drawn twice, so every one of them is a row of the table of
      the same split as the first row with `id`, and none has that id. */
  lemma SampleCandidatesNoLeak(t: Table, id: int, col: TextColumn, n: int, draw: Draw)
    requires DrawFits(t, id, col, n, draw)
    requires SampleCandidates(t, id, col, n, draw).Success?
    ensures SplitOf(t, id).Some?
    ensures var s := SplitOf(t, id).value;
            var pool := Pool(t, id, s);
            var drawn := Select(pool, draw.rows);
            && |drawn| == n + 15
            && multiset(drawn) <= multiset(pool)
            && forall r :: r in drawn ==> r in t && r.split == s && r.id != id
  {
    var s := SplitOf(t, id).value;
    var pool := Pool(t, id, s);
    SelectDistinctIsSubMultiset(pool, draw.rows);
  }

  /** Every candidate is one of the sentences of the drawn rows' text (repeats
      allowed), a contiguous part of the normalised text with no delimiter, no
      newline, no upper-case letter, no whitespace at either end and at least
      two characters. */
  lemma SampleCandidatesSentences(t: Table, id: int, col: TextColumn, n: int, draw: Draw)
    requires DrawFits(t, id, col, n, draw)
    requires SampleCandidates(t, id, col, n, draw).Success?
    ensures SplitOf(t, id).Some?
    ensures var drawn := Select(Pool(t, id, SplitOf(t, id).value), draw.rows);
            var block := Block(drawn, col);
            forall c :: c in SampleCandidates(t, id, col, n, draw).value ==>
              && c in Sentences(drawn, col)
              && IsSentence(c) && NoDelim(c) && IsSubstring(c, block)
              && forall k :: 0 <= k < |c| ==> c[k] != '\n' && !IsUpper(c[k])
  {
    var drawn := Select(Pool(t, id, SplitOf(t, id).value), draw.rows);
    var block := Block(drawn, col);
    SentencesOf(block);
    forall c | c in SampleCandidates(t, id, col, n, draw).value
      ensures forall k :: 0 <= k < |c| ==> c[k] != '\n' && !IsUpper(c[k])
    {
      SubstringChars(c, block);
    }
  }

  /** The row draw takes place: the id is known and the pool holds the
      `n + 15` rows asked for. */
  predicate RowsDrawn(t: Table, id: int, n: int)
  {
    SplitOf(t, id).Some? && 0 <= n + 15 <= |Pool(t, id, SplitOf(t, id).value)|
  }

  /** The sentences of the drawn rows' text, once the row draw has taken place. */
  function DrawnSentences(t: Table, id: int, col: TextColumn, n: int, draw: Draw): seq<string>
    requires DrawFits(t, id, col, n, draw) && RowsDrawn(t, id, n)
  {
    Sentences(Select(Pool(t, id, SplitOf(t, id).value), draw.rows), col)
  }

  /** When the call succeeds, and which error it raises otherwise: an unknown id,
      then a row count below zero or above the pool's size, then an empty
      sentence list with a non-zero candidate count, then a negative count. */
  lemma SampleCandidatesFailures(t: Table, id: int, col: TextColumn, n: int, draw: Draw)
    requires DrawFits(t, id, col, n, draw)
    ensures var r := SampleCandidates(t, id, col, n, draw);
      && (r.Success? <==>
            RowsDrawn(t, id, n) && 0 <= n && (n == 0 || |DrawnSentences(t, id, col, n, draw)| > 0))
      && (r == Failure(UnknownId) <==> SplitOf(t, id).None?)
      && (r == Failure(NegativeRowCount) <==> SplitOf(t, id).Some? && n + 15 < 0)
      && (r == Failure(PoolTooSmall) <==>
            SplitOf(t, id).Some? && 0 <= n + 15 && |Pool(t, id, SplitOf(t, id).value)| < n + 15)
      && (r == Failure(NoSentences) <==>
            RowsDrawn(t, id, n) && n != 0 && |DrawnSentences(t, id, col, n, draw)| == 0)
      && (r == Failure(NegativeCandidateCount) <==>
            RowsDrawn(t, id, n) && n < 0 && |DrawnSentences(t, id, col, n, draw)| > 0)
  {
  }

  /** Four rows, ids 1 to 4, ids 1 and 2 in "train" and 3 and 4 in "val": asking
      for one candidate for id 1 fails whatever the draw, because the row draw
      wants `1 + 15` rows and the pool holds only the row with id 2. */
  lemma FourRowTableFails(draw: Draw)
    ensures var t := [Row(1, "a", "q", "train"), Row(2, "b", "q", "train"),
                      Row(3, "c", "q", "val"), Row(4, "d", "q", "val")];
            && Pool(t, 1, "train") == [t[1]]
            && DrawFits(t, 1, Body, 1, draw)
            && SampleCandidates(t, 1, Body, 1, draw) == Failure(PoolTooSmall)
  {
    var t := [Row(1, "a", "q", "train"), Row(2, "b", "q", "train"),
              Row(3, "c", "q", "val"), Row(4, "d", "q", "val")];
    assert SplitOf(t, 1) == Some("train");
    assert t[1..][1..][1..][1..] == [];
  }
}
