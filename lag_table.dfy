/**
 * The feature builder of `rf_forecast`: 24 lag columns built with pandas'
 * `shift`, rows with an undefined lag dropped, the chronological 80/20
 * split, and the seed row of the iterative forecast.
 */
module LagTable {
  import opened Sequences

  /** Number of lag columns, `lag_1` .. `lag_24`. */
  const LagDepth: nat := 24

  /** A cell of a pandas column: a value or NaN. */
  datatype Cell = NaN | Val(value: real)

  /** A row kept by `dropna`: `lags[k]` is column `lag_{k+1}`, `target` the measurement. */
  datatype LagRow = LagRow(lags: seq<real>, target: real)

  function Undefined(n: nat): seq<Cell>
  {
    seq(n, _ => NaN)
  }

  function Defined(s: seq<real>): seq<Cell>
  {
    seq(|s|, i requires 0 <= i < |s| => Val(s[i]))
  }

  /** `col.shift(k)`: the column moved k places later, its first k places NaN. */
  function Shift(col: seq<real>, k: nat): (r: seq<Cell>)
    ensures |r| == |col|
    ensures forall t :: 0 <= t < k && t < |col| ==> r[t] == NaN
    ensures forall t :: k <= t < |col| ==> r[t] == Val(col[t - k])
  {
    if |col| <= k then Undefined(|col|) else Undefined(k) + Defined(col[..|col| - k])
  }

  /** The columns `lag_1` .. `lag_n`, in the order the loop adds them. */
  function LagColumns(col: seq<real>, n: nat): seq<seq<Cell>>
  {
    seq(n, k requires 0 <= k < n => Shift(col, k + 1))
  }

  /** Every column is as long as the frame. */
  predicate Aligned(col: seq<real>, cols: seq<seq<Cell>>)
  {
    forall k :: 0 <= k < |cols| ==> |cols[k]| == |col|
  }

  /** Row t has no NaN in any lag column. */
  predicate Complete(cols: seq<seq<Cell>>, t: nat)
    requires forall k :: 0 <= k < |cols| ==> t < |cols[k]|
  {
    forall k :: 0 <= k < |cols| ==> cols[k][t].Val?
  }

  function RowAt(col: seq<real>, cols: seq<seq<Cell>>, t: nat): LagRow
    requires Aligned(col, cols) && t < |col| && Complete(cols, t)
  {
    LagRow(seq(|cols|, k requires 0 <= k < |cols| => cols[k][t].value), col[t])
  }

  /** `dropna` over rows t, t+1, ..., keeping the order of the frame. */
  function DropIncomplete(col: seq<real>, cols: seq<seq<Cell>>, t: nat): seq<LagRow>
    requires Aligned(col, cols)
    decreases |col| - t
  {
    if t >= |col| then []
    else (if Complete(cols, t) then [RowAt(col, cols, t)] else []) + DropIncomplete(col, cols, t + 1)
  }

  /** The lag table of a chronological series, one row per step with a full history. */
  function Table(col: seq<real>): seq<LagRow>
  {
    DropIncomplete(col, LagColumns(col, LagDepth), 0)
  }

  /** The readings before step t, most recent first: col[t-1], ..., col[t-24]. */
  function LagsAt(col: seq<real>, t: nat): seq<real>
    requires LagDepth <= t <= |col|
  {
    seq(LagDepth, k requires 0 <= k < LagDepth => col[t - 1 - k])
  }

  /** Row t of the frame is complete exactly when t has 24 predecessors. */
  lemma CompleteIff(col: seq<real>, t: nat)
    requires t < |col|
    ensures Aligned(col, LagColumns(col, LagDepth))
    ensures Complete(LagColumns(col, LagDepth), t) <==> LagDepth <= t
    ensures LagDepth <= t ==> RowAt(col, LagColumns(col, LagDepth), t) == LagRow(LagsAt(col, t), col[t])
  {
    var cols := LagColumns(col, LagDepth);
    if t < LagDepth {
      assert cols[t][t] == NaN;
    } else {
      assert RowAt(col, cols, t).lags == LagsAt(col, t);
    }
  }

  /** One step of `dropna`: row t is kept, as its 24 lags and target, exactly when t >= 24. */
  lemma DropIncompleteStep(col: seq<real>, t: nat)
    requires t < |col|
    ensures Aligned(col, LagColumns(col, LagDepth))
    ensures DropIncomplete(col, LagColumns(col, LagDepth), t) ==
              (if t < LagDepth then [] else [LagRow(LagsAt(col, t), col[t])])
              + DropIncomplete(col, LagColumns(col, LagDepth), t + 1)
  {
    CompleteIff(col, t);
  }

  /** The rows for steps s, s+1, ..., N-1, each its 24 lags and its target. */
  function RowsFrom(col: seq<real>, s: nat): seq<LagRow>
    requires LagDepth <= s
  {
    if |col| <= s then []
    else seq(|col| - s, j requires 0 <= j < |col| - s => LagRow(LagsAt(col, s + j), col[s + j]))
  }

  lemma RowsFromAt(col: seq<real>, s: nat, j: nat)
    requires LagDepth <= s && s + j < |col|
    ensures |RowsFrom(col, s)| == |col| - s
    ensures RowsFrom(col, s)[j] == LagRow(LagsAt(col, s + j), col[s + j])
  {
  }

  lemma RowsFromCons(col: seq<real>, s: nat)
    requires LagDepth <= s < |col|
    ensures RowsFrom(col, s) == [LagRow(LagsAt(col, s), col[s])] + RowsFrom(col, s + 1)
  {
    var r, rest := RowsFrom(col, s), RowsFrom(col, s + 1);
    var cons := [LagRow(LagsAt(col, s), col[s])] + rest;
    assert |r| == |cons|;
    forall j | 0 <= j < |r|
      ensures r[j] == cons[j]
    {
      if j > 0 {
        assert cons[j] == rest[j - 1];
        assert s + 1 + (j - 1) == s + j;
      }
    }
  }

  /** What `dropna` keeps from row t on: the rows of steps max(t, 24) to the end. */
  lemma {:induction false} DropIncompleteRows(col: seq<real>, t: nat)
    requires t <= |col|
    ensures Aligned(col, LagColumns(col, LagDepth))
    ensures DropIncomplete(col, LagColumns(col, LagDepth), t) == RowsFrom(col, if t < LagDepth then LagDepth else t)
    decreases |col| - t
  {
    var cols := LagColumns(col, LagDepth);
    assert Aligned(col, cols);
    if t < |col| {
      DropIncompleteRows(col, t + 1);
      DropIncompleteStep(col, t);
      if t >= LagDepth {
        RowsFromCons(col, t);
      }
    }
  }

  /**
   * A series of length N > 24 gives N - 24 rows, a shorter one none; row j
   * has target y[j+24] and lag_{k+1} equal to y[j+23-k], so every lag
   * precedes its target and feature 0 is the most recent one.
   */
  lemma TableRows(col: seq<real>)
    ensures |Table(col)| == if |col| > LagDepth then |col| - LagDepth else 0
    ensures forall j :: 0 <= j < |Table(col)| ==>
              && Table(col)[j].target == col[j + LagDepth]
              && |Table(col)[j].lags| == LagDepth
              && forall k :: 0 <= k < LagDepth ==> Table(col)[j].lags[k] == col[j + LagDepth - 1 - k]
  {
    DropIncompleteRows(col, 0);
    var r := Table(col);
    assert r == RowsFrom(col, LagDepth);
    forall j | 0 <= j < |r|
      ensures && r[j].target == col[j + LagDepth]
              && |r[j].lags| == LagDepth
              && forall k :: 0 <= k < LagDepth ==> r[j].lags[k] == col[j + LagDepth - 1 - k]
    {
      RowsFromAt(col, LagDepth, j);
    }
  }

  /** The feature matrix `X`, one row of lags per table row. */
  function Features(table: seq<LagRow>): (x: seq<seq<real>>)
    ensures |x| == |table|
    ensures forall i :: 0 <= i < |table| ==> x[i] == table[i].lags
  {
    if table == [] then [] else [table[0].lags] + Features(table[1..])
  }

  /** The target column `y`, aligned with `Features`. */
  function Targets(table: seq<LagRow>): (y: seq<real>)
    ensures |y| == |table|
    ensures forall i :: 0 <= i < |table| ==> y[i] == table[i].target
  {
    if table == [] then [] else [table[0].target] + Targets(table[1..])
  }

  /** `int(m * 0.8)`: the largest cut with 5 * cut <= 4 * m. */
  function SplitPoint(m: nat): (cut: nat)
    ensures 5 * cut <= 4 * m < 5 * cut + 5
  {
    (4 * m) / 5
  }

  /** `iloc[:split]`: the chronological head used for fitting. */
  function Train<T>(s: seq<T>): seq<T>
  {
    s[..SplitPoint(|s|)]
  }

  /** `iloc[split:]`: the held-out tail. */
  function Test<T>(s: seq<T>): seq<T>
  {
    s[SplitPoint(|s|)..]
  }

  /**
   * The split partitions the rows in order: train then test is the whole
   * table, the tail holds ceil(m/5) rows, and neither part is empty once
   * the table holds enough rows.
   */
  lemma SplitPartition<T>(s: seq<T>)
    ensures Train(s) + Test(s) == s
    ensures |Train(s)| + |Test(s)| == |s|
    ensures |Test(s)| == (|s| + 4) / 5
    ensures |s| >= 1 ==> |Test(s)| >= 1
    ensures |Train(s)| >= 1 <==> |s| >= 2
  {
  }

  /** Splitting `X` and `y` separately, as the source does, keeps them row-aligned. */
  lemma {:induction false} SplitAligned(table: seq<LagRow>)
    ensures Train(Features(table)) == Features(Train(table))
    ensures Test(Features(table)) == Features(Test(table))
    ensures Train(Targets(table)) == Targets(Train(table))
    ensures Test(Targets(table)) == Targets(Test(table))
  {
    var cut := SplitPoint(|table|);
    var x, y := Features(table), Targets(table);
    assert Train(x) == Features(table[..cut]) by {
      assert |Train(x)| == cut;
    }
    assert Test(x) == Features(table[cut..]) by {
      assert |Test(x)| == |table| - cut;
    }
    assert Train(y) == Targets(table[..cut]) by {
      assert |Train(y)| == cut;
    }
    assert Test(y) == Targets(table[cut..]) by {
      assert |Test(y)| == |table| - cut;
    }
  }

  /** `X.iloc[-1]`: the lags of the table's last row. */
  function Seed(table: seq<LagRow>): seq<real>
    requires |table| > 0
  {
    table[|table| - 1].lags
  }

  /**
   * The seed holds the 24 readings before the final one, most recent first:
   * y[N-2], ..., y[N-25]; the final observation y[N-1] is not among them.
   */
  lemma SeedIsLastRowLags(col: seq<real>)
    requires |col| > LagDepth
    ensures |Table(col)| > 0
    ensures |Seed(Table(col))| == LagDepth
    ensures forall i :: 0 <= i < LagDepth ==> Seed(Table(col))[i] == col[|col| - 2 - i]
    ensures Seed(Table(col)) == Reversed(col[|col| - LagDepth - 1 .. |col| - 1])
  {
    TableRows(col);
    var before := col[|col| - LagDepth - 1 .. |col| - 1];
    forall i | 0 <= i < LagDepth
      ensures Seed(Table(col))[i] == Reversed(before)[i]
    {
      ReversedAt(before, i);
    }
  }

  /** Changing the final observation leaves the seed as it is. */
  lemma SeedIgnoresFinalObservation(col: seq<real>, x: real)
    requires |col| > LagDepth
    ensures |Table(col[..|col| - 1] + [x])| > 0 && |Table(col)| > 0
    ensures Seed(Table(col[..|col| - 1] + [x])) == Seed(Table(col))
  {
    var alt := col[..|col| - 1] + [x];
    SeedIsLastRowLags(col);
    SeedIsLastRowLags(alt);
    assert alt[|alt| - LagDepth - 1 .. |alt| - 1] == col[|col| - LagDepth - 1 .. |col| - 1];
  }

  /** The seed is not the "most recent 24 values" window: the series 0, ..., 0, 1 shows it. */
  lemma SeedIsNotMostRecentWindow()
    ensures var col := seq(LagDepth, _ => 0.0) + [1.0];
            && |Table(col)| > 0
            && Seed(Table(col)) != Reversed(col[|col| - LagDepth..])
  {
    var col := seq(LagDepth, _ => 0.0) + [1.0];
    SeedIsLastRowLags(col);
    assert Seed(Table(col))[0] == 0.0;
    ReversedAt(col[|col| - LagDepth..], 0);
    assert Reversed(col[|col| - LagDepth..])[0] == 1.0;
  }
}
