/**
 * The iterative random-forest forecast of `rf_forecast`: a 24-slot feature
 * buffer seeded from the last lag row, rolled one place right after every
 * prediction with the prediction written into slot 0.
 */
module Forecaster {
  import opened Sequences
  import opened LagTable

  /** The fitted regressor's `predict` on one feature row. */
  type Predictor = seq<real> -> real

  /** `model.fit(X_train, y_train)` followed by taking its `predict`. */
  type Fitter = (seq<seq<real>>, seq<real>) -> Predictor

  /** The fit raises when the training partition has no sample. */
  datatype FitError = EmptyTrainingSet

  datatype Result<T> = Ok(value: T) | Err(error: FitError)

  /** `np.roll(s, 1)`: every element one place right, the last one wrapping to the front. */
  function RollRight(s: seq<real>): (r: seq<real>)
    ensures |r| == |s|
  {
    if s == [] then [] else [s[|s| - 1]] + s[..|s| - 1]
  }

  /** A roll only moves elements: the result is a permutation of `s`. */
  lemma RollRightPermutes(s: seq<real>)
    ensures multiset(RollRight(s)) == multiset(s)
  {
    if s != [] {
      assert s == s[..|s| - 1] + [s[|s| - 1]];
    }
  }

  /** Element i of `np.roll(s, 1)` is element (i - 1) mod |s| of `s`. */
  lemma RollRightAt(s: seq<real>, i: nat)
    requires i < |s|
    ensures RollRight(s)[i] == s[(i - 1) % |s|]
  {
    var n := |s|;
    if i == 0 {
      assert -1 == (-1) * n + (n - 1);
      assert (i - 1) % n == n - 1;
    } else {
      assert (i - 1) % n == i - 1;
    }
  }

  /** One buffer update: roll, then overwrite slot 0 with the new prediction. */
  function Advance(buf: seq<real>, pred: real): (r: seq<real>)
    requires |buf| > 0
    ensures r == [pred] + buf[..|buf| - 1]
  {
    RollRight(buf)[0 := pred]
  }

  /**
   * The buffer after feeding `preds` (oldest first) into `seed`: the
   * predictions most recent first, then the seed, cut to the seed's length,
   * so the oldest entries fall off the end.
   */
  function Window(seed: seq<real>, preds: seq<real>): (w: seq<real>)
    ensures |w| == |seed|
  {
    (Reversed(preds) + seed)[..|seed|]
  }

  /**
   * Slot i of the window holds prediction |preds|-1-i while predictions
   * last, then seed slot i-|preds|.
   */
  lemma WindowAt(seed: seq<real>, preds: seq<real>, i: nat)
    requires i < |seed|
    ensures Window(seed, preds)[i] == if i < |preds| then preds[|preds| - 1 - i] else seed[i - |preds|]
  {
    assert Window(seed, preds)[i] == (Reversed(preds) + seed)[i];
    if i < |preds| {
      ReversedAt(preds, i);
    }
  }

  /** One buffer update turns the window of `preds` into the window of `preds + [p]`. */
  lemma AdvanceWindow(seed: seq<real>, preds: seq<real>, p: real)
    requires |seed| > 0
    ensures Advance(Window(seed, preds), p) == Window(seed, preds + [p])
  {
    var n := |seed|;
    var all := Reversed(preds) + seed;
    ReversedSnoc(preds, p);
    assert Reversed(preds + [p]) + seed == [p] + all;
    assert ([p] + all)[..n] == [p] + all[..n - 1];
    assert Window(seed, preds)[..n - 1] == all[..n - 1];
  }

  /** The predictions so far and the feature buffer after them. */
  datatype Rollout = Rollout(preds: seq<real>, buffer: seq<real>)

  /** The state of the forecast loop after t iterations. */
  function Run(predict: Predictor, seed: seq<real>, t: nat): (s: Rollout)
    requires |seed| > 0
    ensures |s.preds| == t && |s.buffer| == |seed|
  {
    if t == 0 then Rollout([], seed)
    else
      var prev := Run(predict, seed, t - 1);
      var p := predict(prev.buffer);
      Rollout(prev.preds + [p], Advance(prev.buffer, p))
  }

  /** The buffer obtained from `seed` by one update per prediction, oldest first. */
  function Feed(seed: seq<real>, preds: seq<real>): (b: seq<real>)
    requires |seed| > 0
    ensures |b| == |seed|
  {
    if preds == [] then seed
    else Advance(Feed(seed, preds[..|preds| - 1]), preds[|preds| - 1])
  }

  /** Feeding predictions one by one yields their closed-form window. */
  lemma {:induction false} FeedIsWindow(seed: seq<real>, preds: seq<real>)
    requires |seed| > 0
    ensures Feed(seed, preds) == Window(seed, preds)
  {
    if preds == [] {
      assert Window(seed, []) == seed;
    } else {
      var init, last := preds[..|preds| - 1], preds[|preds| - 1];
      SplitLast(preds);
      FeedIsWindow(seed, init);
      AdvanceWindow(seed, init, last);
    }
  }

  /** The loop's buffer after t iterations is the seed fed with the predictions so far. */
  lemma {:induction false} RunFeeds(predict: Predictor, seed: seq<real>, t: nat)
    requires |seed| > 0
    ensures Run(predict, seed, t).buffer == Feed(seed, Run(predict, seed, t).preds)
  {
    if t > 0 {
      var prev := Run(predict, seed, t - 1);
      var p := predict(prev.buffer);
      RunFeeds(predict, seed, t - 1);
      assert (prev.preds + [p])[..t - 1] == prev.preds;
    }
  }

  /**
   * After t iterations the buffer is the window of the predictions made so
   * far: slot i holds prediction t-1-i when i < t and seed slot i-t otherwise.
   */
  lemma RunWindow(predict: Predictor, seed: seq<real>, t: nat)
    requires |seed| > 0
    ensures Run(predict, seed, t).buffer == Window(seed, Run(predict, seed, t).preds)
  {
    RunFeeds(predict, seed, t);
    FeedIsWindow(seed, Run(predict, seed, t).preds);
  }

  /** One more iteration appends one prediction and keeps the earlier ones. */
  lemma RunStep(predict: Predictor, seed: seq<real>, t: nat, k: nat)
    requires |seed| > 0 && k <= t
    ensures Run(predict, seed, t + 1).preds[..k] == Run(predict, seed, t).preds[..k]
  {
    var prev := Run(predict, seed, t).preds;
    assert Run(predict, seed, t + 1).preds == prev + [predict(Run(predict, seed, t).buffer)];
  }

  /** Later steps only append: the first t1 predictions never change. */
  lemma {:induction false} RunPrefix(predict: Predictor, seed: seq<real>, t1: nat, t2: nat)
    requires |seed| > 0 && t1 <= t2
    ensures Run(predict, seed, t1).preds == Run(predict, seed, t2).preds[..t1]
    decreases t2
  {
    if t1 < t2 {
      RunPrefix(predict, seed, t1, t2 - 1);
      RunStep(predict, seed, t2 - 1, t1);
    }
  }

  /**
   * Prediction t is the regressor applied to the window of the earlier
   * predictions: after the first step the model consumes its own output,
   * never ground truth.
   */
  lemma SelfFeeding(predict: Predictor, seed: seq<real>, n: nat, t: nat)
    requires |seed| > 0 && t < n
    ensures Run(predict, seed, n).preds[t] == predict(Window(seed, Run(predict, seed, n).preds[..t]))
  {
    var full := Run(predict, seed, n).preds;
    var s := Run(predict, seed, t);
    var next := Run(predict, seed, t + 1);
    RunPrefix(predict, seed, t + 1, n);
    RunPrefix(predict, seed, t, n);
    RunWindow(predict, seed, t);
    assert next.preds == s.preds + [predict(s.buffer)];
    assert full[t] == next.preds[t];
  }

  /** `SelfFeeding` for every step of an n-step run. */
  lemma SelfFeedingAll(predict: Predictor, seed: seq<real>, n: nat)
    requires |seed| > 0
    ensures forall t :: 0 <= t < n ==>
              Run(predict, seed, n).preds[t] == predict(Window(seed, Run(predict, seed, n).preds[..t]))
  {
    forall t | 0 <= t < n
      ensures Run(predict, seed, n).preds[t] == predict(Window(seed, Run(predict, seed, n).preds[..t]))
    {
      SelfFeeding(predict, seed, n, t);
    }
  }

  /** `np.roll(a, 1)` into a new array. */
  method Roll(a: array<real>) returns (b: array<real>)
    ensures fresh(b)
    ensures b[..] == RollRight(a[..])
  {
    b := new real[a.Length];
    var i := 0;
    while i < a.Length
      invariant 0 <= i <= a.Length
      invariant forall j :: 0 <= j < i ==> b[j] == RollRight(a[..])[j]
    {
      RollRightAt(a[..], i);
      b[i] := a[(i - 1) % a.Length];
      i := i + 1;
    }
  }

  /** One buffer update: `np.roll` into a new array, then slot 0 set to the prediction. */
  method Shifted(a: array<real>, pred: real) returns (b: array<real>)
    requires a.Length > 0
    ensures fresh(b)
    ensures b[..] == Advance(a[..], pred)
  {
    b := Roll(a);
    ghost var rolled := b[..];
    b[0] := pred;
    assert b[..] == rolled[0 := pred];
  }

  /**
   * The loop of `rf_forecast`: `steps` predictions (none for steps <= 0),
   * each made from the buffer that earlier predictions shaped.
   */
  method IterativeForecast(predict: Predictor, seed: seq<real>, steps: int) returns (preds: seq<real>)
    requires |seed| > 0
    ensures |preds| == if steps < 0 then 0 else steps
    ensures preds == Run(predict, seed, |preds|).preds
    ensures forall t :: 0 <= t < |preds| ==> preds[t] == predict(Window(seed, preds[..t]))
  {
    var n := if steps < 0 then 0 else steps;
    var cur := new real[|seed|](i requires 0 <= i < |seed| => seed[i]);
    preds := [];
    var i := 0;
    while i < n
      invariant 0 <= i <= n
      invariant cur.Length == |seed|
      invariant preds == Run(predict, seed, i).preds
      invariant cur[..] == Run(predict, seed, i).buffer
    {
      var pred := predict(cur[..]);
      preds := preds + [pred];
      cur := Shifted(cur, pred);
      i := i + 1;
    }
    SelfFeedingAll(predict, seed, n);
  }

  /** The regressor fitted on the training head of the lag table. */
  function Fitted(fit: Fitter, table: seq<LagRow>): Predictor
  {
    fit(Features(Train(table)), Targets(Train(table)))
  }

  /**
   * `rf_forecast`: with at most 25 observations the training head is empty
   * and the fit fails; otherwise the loop runs from the last lag row.
   */
  method RfForecast(col: seq<real>, steps: int, fit: Fitter) returns (r: Result<seq<real>>)
    ensures r.Err? <==> |col| <= LagDepth + 1
    ensures r.Ok? ==> |r.value| == if steps < 0 then 0 else steps
    ensures r.Ok? ==> |Table(col)| > 0 && |Seed(Table(col))| == LagDepth && r.value == Run(Fitted(fit, Table(col)), Seed(Table(col)), |r.value|).preds
  {
    var table := Table(col);
    TableRows(col);
    SplitPartition(table);
    if |Train(table)| == 0 {
      return Err(EmptyTrainingSet);
    }
    var predict := Fitted(fit, table);
    SeedIsLastRowLags(col);
    var preds := IterativeForecast(predict, Seed(table), steps);
    return Ok(preds);
  }
}
