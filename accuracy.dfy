/** Accuracy bookkeeping of the training and evaluation loops: each batch's
    model output is a row of class scores per example, the predicted class is
    the index of a largest score, and `correct` counts the examples whose
    prediction equals the label. */
module Accuracy {

  /** One batch as the loops see it after the forward pass: a row of class
      scores per example (`output`) and the integer labels (`y`). */
  datatype Batch = Batch(scores: seq<seq<real>>, labels: seq<int>)

  /** The shapes `pred.eq(y.data.view_as(pred))` needs: one label per row,
      and at least one class per row. */
  predicate WellFormed(b: Batch) {
    && |b.scores| == |b.labels|
    && forall i :: 0 <= i < |b.scores| ==> |b.scores[i]| > 0
  }

  predicate AllWellFormed(bs: seq<Batch>) {
    forall j :: 0 <= j < |bs| ==> WellFormed(bs[j])
  }

  /** The target `F.nll_loss` ignores by default. */
  const IgnoreIndex: int := -100

  /** The labels `F.nll_loss(output, y)` accepts without raising: a class
      index of the row, or the ignored target. */
  predicate LossDefined(b: Batch)
    requires WellFormed(b)
  {
    forall i :: 0 <= i < |b.labels| ==> b.labels[i] == IgnoreIndex || 0 <= b.labels[i] < |b.scores[i]|
  }

  predicate AllLossDefined(bs: seq<Batch>)
    requires AllWellFormed(bs)
  {
    forall j :: 0 <= j < |bs| ==> LossDefined(bs[j])
  }

  // ---------------------------------------------------------------------
  // pred = output.data.max(1, keepdim=True)[1]
  // ---------------------------------------------------------------------

  /** The predicted class of one row: a largest entry, and, as a modelling
      choice, the first of several equal largest ones. */
  function ArgMax(row: seq<real>): (k: nat)
    requires |row| > 0
    ensures k < |row|
    ensures forall j :: 0 <= j < |row| ==> row[j] <= row[k]
    ensures forall j :: 0 <= j < k ==> row[j] < row[k]
  {
    if |row| == 1 then 0
    else
      var k := ArgMax(row[..|row| - 1]);
      if row[|row| - 1] > row[k] then |row| - 1 else k
  }

  /** Example `i` of the batch is predicted correctly; only a label that is a
      valid class index of its row can be hit. */
  predicate Hit(b: Batch, i: nat)
    requires WellFormed(b) && i < |b.labels|
    ensures Hit(b, i) ==> 0 <= b.labels[i] < |b.scores[i]|
  {
    ArgMax(b.scores[i]) == b.labels[i]
  }

  /** Correct predictions among the first `m` examples of the batch. */
  function CountHits(b: Batch, m: nat): (n: nat)
    requires WellFormed(b) && m <= |b.labels|
    ensures n <= m
  {
    if m == 0 then 0 else CountHits(b, m - 1) + (if Hit(b, m - 1) then 1 else 0)
  }

  /** `pred.eq(y.data.view_as(pred)).sum()`: correct predictions in a batch. */
  function CorrectIn(b: Batch): (n: nat)
    requires WellFormed(b)
    ensures n <= |b.labels|
  {
    CountHits(b, |b.labels|)
  }

  /** The examples of a batch that are predicted correctly. */
  function HitSet(b: Batch, m: nat): set<nat>
    requires WellFormed(b) && m <= |b.labels|
  {
    set i: nat | i < m && Hit(b, i)
  }

  /** The count is the number of correctly predicted examples, each counted
      once. */
  lemma {:induction false} CountHitsIsCard(b: Batch, m: nat)
    requires WellFormed(b) && m <= |b.labels|
    ensures CountHits(b, m) == |HitSet(b, m)|
    decreases m
  {
    if m > 0 {
      CountHitsIsCard(b, m - 1);
      var prev := HitSet(b, m - 1);
      assert m - 1 !in prev;
      if Hit(b, m - 1) {
        assert HitSet(b, m) == prev + {m - 1};
      } else {
        assert HitSet(b, m) == prev;
      }
    }
  }

  lemma CorrectInIsCard(b: Batch)
    requires WellFormed(b)
    ensures CorrectIn(b) == |HitSet(b, |b.labels|)| <= |b.labels|
    ensures CorrectIn(b) == |b.labels| <==> forall i :: 0 <= i < |b.labels| ==> Hit(b, i)
  {
    CountHitsIsCard(b, |b.labels|);
    CountHitsAll(b, |b.labels|);
  }

  /** All of the first `m` examples are correct exactly when the count is `m`. */
  lemma {:induction false} CountHitsAll(b: Batch, m: nat)
    requires WellFormed(b) && m <= |b.labels|
    ensures CountHits(b, m) == m <==> forall i :: 0 <= i < m ==> Hit(b, i)
    decreases m
  {
    if m > 0 {
      CountHitsAll(b, m - 1);
    }
  }

  // ---------------------------------------------------------------------
  // Sums over batches
  // ---------------------------------------------------------------------

  /** Number of examples in batches `lo` up to (excluding) `hi`. */
  function Examples(bs: seq<Batch>, lo: nat, hi: nat): nat
    requires lo <= hi <= |bs|
    decreases hi
  {
    if hi == lo then 0 else Examples(bs, lo, hi - 1) + |bs[hi - 1].labels|
  }

  /** Correct predictions summed over batches `lo` up to (excluding) `hi`;
      never more than the number of examples there. */
  function SumCorrect(bs: seq<Batch>, lo: nat, hi: nat): (n: nat)
    requires AllWellFormed(bs) && lo <= hi <= |bs|
    ensures n <= Examples(bs, lo, hi)
    decreases hi
  {
    if hi == lo then 0 else SumCorrect(bs, lo, hi - 1) + CorrectIn(bs[hi - 1])
  }

  /** Summing over consecutive runs adds up. */
  lemma {:induction false} SumCorrectSplit(bs: seq<Batch>, lo: nat, mid: nat, hi: nat)
    requires AllWellFormed(bs) && lo <= mid <= hi <= |bs|
    ensures SumCorrect(bs, lo, hi) == SumCorrect(bs, lo, mid) + SumCorrect(bs, mid, hi)
    decreases hi
  {
    if hi > mid {
      SumCorrectSplit(bs, lo, mid, hi - 1);
    }
  }

  /** The examples of several batches, in order, as one batch. */
  function Join(b1: Batch, b2: Batch): Batch {
    Batch(b1.scores + b2.scores, b1.labels + b2.labels)
  }

  /** The first `n` batches joined into one. */
  function Flatten(bs: seq<Batch>, n: nat): (b: Batch)
    requires n <= |bs|
    ensures AllWellFormed(bs) ==> WellFormed(b)
    ensures |b.labels| == Examples(bs, 0, n)
  {
    if n == 0 then Batch([], []) else Join(Flatten(bs, n - 1), bs[n - 1])
  }

  /** Counting the first `|b1| + m` examples of two joined batches counts all
      of `b1` and the first `m` of `b2`. */
  lemma {:induction false} CountHitsJoin(b1: Batch, b2: Batch, m: nat)
    requires WellFormed(b1) && WellFormed(b2) && m <= |b2.labels|
    ensures WellFormed(Join(b1, b2))
    ensures CountHits(Join(b1, b2), |b1.labels| + m) == CorrectIn(b1) + CountHits(b2, m)
    decreases m
  {
    var j := Join(b1, b2);
    if m == 0 {
      CountHitsPrefix(b1, b2, |b1.labels|);
    } else {
      CountHitsJoin(b1, b2, m - 1);
      assert j.scores[|b1.labels| + m - 1] == b2.scores[m - 1];
      assert j.labels[|b1.labels| + m - 1] == b2.labels[m - 1];
    }
  }

  /** Joining does not change the count over the first batch's examples. */
  lemma {:induction false} CountHitsPrefix(b1: Batch, b2: Batch, m: nat)
    requires WellFormed(b1) && WellFormed(b2) && m <= |b1.labels|
    ensures WellFormed(Join(b1, b2))
    ensures CountHits(Join(b1, b2), m) == CountHits(b1, m)
    decreases m
  {
    var j := Join(b1, b2);
    if m > 0 {
      CountHitsPrefix(b1, b2, m - 1);
      assert j.scores[m - 1] == b1.scores[m - 1];
      assert j.labels[m - 1] == b1.labels[m - 1];
    }
  }

  /** Batching does not change the count: the correct predictions summed over
      the batches are those of all examples taken together. */
  lemma {:induction false} SumCorrectFlatten(bs: seq<Batch>, n: nat)
    requires AllWellFormed(bs) && n <= |bs|
    ensures SumCorrect(bs, 0, n) == CorrectIn(Flatten(bs, n))
    decreases n
  {
    if n > 0 {
      SumCorrectFlatten(bs, n - 1);
      CountHitsJoin(Flatten(bs, n - 1), bs[n - 1], |bs[n - 1].labels|);
    }
  }

  // ---------------------------------------------------------------------
  // test_model
  // ---------------------------------------------------------------------

  /** The counting loop of `test_model`: `correct` starts at 0 and is never
      reset, so it ends as the total of correct predictions, at most the
      number of examples. */
  method TestModel(bs: seq<Batch>) returns (correct: nat)
    requires AllWellFormed(bs)
    ensures correct == SumCorrect(bs, 0, |bs|)
    ensures correct <= Examples(bs, 0, |bs|)
  {
    correct := 0;
    for idx := 0 to |bs|
      invariant correct == SumCorrect(bs, 0, idx)
    {
      correct := correct + CorrectIn(bs[idx]);
    }
  }

  // ---------------------------------------------------------------------
  // train_model
  // ---------------------------------------------------------------------

  /** The values one progress line prints: epoch, examples seen
      `(idx+1)*len(x)`, `len(train_iter)*batch_size`, the accuracy's numerator
      `correct` and its denominator `log_interval*len(x)`. */
  datatype LogLine = LogLine(epoch: int, seen: int, total: int, correct: nat, denom: int)

  /** The first batch that `correct` covers when batch `i` is about to be
      processed: one past the last index below `i` that logged (and reset),
      or 0 when there is none. */
  function WindowStart(i: nat, k: int): (w: nat)
    requires k != 0
    ensures w <= i
    ensures w == 0 || (w - 1) % k == 0
    ensures forall j :: w <= j < i ==> j % k != 0
  {
    if i == 0 then 0 else if (i - 1) % k == 0 then i else WindowStart(i - 1, k)
  }

  /** The line printed after batch `idx`: its count covers the batches from
      the window start through `idx`. */
  function Line(bs: seq<Batch>, k: int, epoch: int, batchSize: int, idx: nat): (l: LogLine)
    requires AllWellFormed(bs) && k != 0 && idx < |bs|
    ensures l.correct <= Examples(bs, WindowStart(idx, k), idx + 1)
  {
    var size := |bs[idx].labels|;
    LogLine(epoch, (idx + 1) * size, |bs| * batchSize,
            SumCorrect(bs, WindowStart(idx, k), idx + 1), k * size)
  }

  /** The reset rule: the count restarts after batch `i` exactly when
      `i % log_interval == 0`; otherwise it keeps accumulating. */
  lemma ResetRule(i: nat, k: int)
    requires k != 0
    ensures WindowStart(i + 1, k) == i + 1 <==> i % k == 0
    ensures i % k != 0 ==> WindowStart(i + 1, k) == WindowStart(i, k)
  {
  }

  /** The lines printed while processing the first `n` batches: one for each
      index `idx` with `idx % log_interval == 0`, in order. */
  function TrainLog(bs: seq<Batch>, k: int, epoch: int, batchSize: int, n: nat): (log: seq<LogLine>)
    requires AllWellFormed(bs) && k != 0 && n <= |bs|
    ensures |log| <= n
    ensures forall i :: 0 <= i < |log| ==> log[i].epoch == epoch && log[i].total == |bs| * batchSize
  {
    if n == 0 then []
    else TrainLog(bs, k, epoch, batchSize, n - 1)
         + (if (n - 1) % k == 0 then [Line(bs, k, epoch, batchSize, n - 1)] else [])
  }

  /** The counting loop of `train_model`: `correct` grows by each batch's
      count and is reset to 0 right after each progress line. Returns the
      printed lines and the count left over at the end. */
  method TrainModel(epoch: int, bs: seq<Batch>, logInterval: int, batchSize: int)
    returns (log: seq<LogLine>, correct: nat)
    requires AllWellFormed(bs) && AllLossDefined(bs) && logInterval != 0
    ensures log == TrainLog(bs, logInterval, epoch, batchSize, |bs|)
    ensures correct == SumCorrect(bs, WindowStart(|bs|, logInterval), |bs|)
  {
    log := [];
    correct := 0;
    for idx := 0 to |bs|
      invariant log == TrainLog(bs, logInterval, epoch, batchSize, idx)
      invariant correct == SumCorrect(bs, WindowStart(idx, logInterval), idx)
    {
      var b := bs[idx];
      correct := correct + CorrectIn(b);
      if idx % logInterval == 0 {
        log := log + [LogLine(epoch, (idx + 1) * |b.labels|, |bs| * batchSize,
                              correct, logInterval * |b.labels|)];
        correct := 0;
      }
    }
  }

  /** Sum of the counts printed in a sequence of lines. */
  function LoggedTotal(log: seq<LogLine>): nat {
    if log == [] then 0 else LoggedTotal(log[..|log| - 1]) + log[|log| - 1].correct
  }

  lemma LoggedTotalAppend(log: seq<LogLine>, line: LogLine)
    ensures LoggedTotal(log + [line]) == LoggedTotal(log) + line.correct
  {
    assert (log + [line])[..|log|] == log;
  }

  /** No prediction is lost or counted twice: the printed counts plus the
      count still pending add up to all correct predictions so far. */
  lemma {:induction false} TrainLogConserves(bs: seq<Batch>, k: int, epoch: int, batchSize: int, n: nat)
    requires AllWellFormed(bs) && k != 0 && n <= |bs|
    ensures LoggedTotal(TrainLog(bs, k, epoch, batchSize, n)) + SumCorrect(bs, WindowStart(n, k), n)
         == SumCorrect(bs, 0, n)
    decreases n
  {
    if n > 0 {
      TrainLogConserves(bs, k, epoch, batchSize, n - 1);
      var w := WindowStart(n - 1, k);
      var prev := TrainLog(bs, k, epoch, batchSize, n - 1);
      var pending := SumCorrect(bs, w, n - 1) + CorrectIn(bs[n - 1]);
      assert SumCorrect(bs, w, n) == pending;
      if (n - 1) % k == 0 {
        var line := Line(bs, k, epoch, batchSize, n - 1);
        assert line.correct == pending;
        assert WindowStart(n, k) == n;
        assert TrainLog(bs, k, epoch, batchSize, n) == prev + [line];
        LoggedTotalAppend(prev, line);
      } else {
        assert WindowStart(n, k) == w;
        assert TrainLog(bs, k, epoch, batchSize, n) == prev;
      }
    }
  }

  /** The batch indices that print a line among the first `n`. */
  function LoggedIndices(n: nat, k: int): set<nat>
    requires k != 0
  {
    set i: nat | i < n && i % k == 0
  }

  /** One line is printed per index `idx < n` with `idx % log_interval == 0`. */
  lemma {:induction false} TrainLogCount(bs: seq<Batch>, k: int, epoch: int, batchSize: int, n: nat)
    requires AllWellFormed(bs) && k != 0 && n <= |bs|
    ensures |TrainLog(bs, k, epoch, batchSize, n)| == |LoggedIndices(n, k)|
    decreases n
  {
    if n > 0 {
      TrainLogCount(bs, k, epoch, batchSize, n - 1);
      var prev := LoggedIndices(n - 1, k);
      assert n - 1 !in prev;
      if (n - 1) % k == 0 {
        assert LoggedIndices(n, k) == prev + {n - 1};
      } else {
        assert LoggedIndices(n, k) == prev;
      }
    }
  }

  /** With the default `log_interval=1` every batch prints a line, and each
      line counts exactly that batch's correct predictions. */
  lemma {:induction false} TrainLogEveryBatch(bs: seq<Batch>, epoch: int, batchSize: int, n: nat)
    requires AllWellFormed(bs) && n <= |bs|
    ensures |TrainLog(bs, 1, epoch, batchSize, n)| == n
    ensures forall i :: 0 <= i < n ==> TrainLog(bs, 1, epoch, batchSize, n)[i].correct == CorrectIn(bs[i])
    decreases n
  {
    if n > 0 {
      TrainLogEveryBatch(bs, epoch, batchSize, n - 1);
      assert WindowStart(n - 1, 1) == n - 1;
    }
  }
}
