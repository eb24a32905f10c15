/** The bounded session history of realtime.py: each tick's rows are appended at the tail and
    only the most recent `Cap` records are kept. Rows are generic here; the page stores delta rows. */
module History {
  import Seqs

  /** Maximum number of records the history retains. */
  const Cap: nat := 500

  /** Rows shown next to their anomaly tags: the tail of the history. */
  const RecentSize: nat := 200

  /** Append a batch, then keep the last `Cap` records. An empty batch leaves the history as is. */
  function Append<T>(history: seq<T>, batch: seq<T>): (h: seq<T>)
    ensures |batch| == 0 ==> h == history
    ensures |batch| > 0 && |history| + |batch| <= Cap ==> h == history + batch
    ensures |batch| > 0 && |history| + |batch| > Cap ==>
              |h| == Cap && forall k :: 0 <= k < Cap ==> h[k] == (history + batch)[|history| + |batch| - Cap + k]
    ensures |batch| > 0 ==> |h| <= Cap && h[|h| - 1] == batch[|batch| - 1]
  {
    if |batch| == 0 then history
    else
      var joined := history + batch;
      if |joined| > Cap then joined[|joined| - Cap..] else joined
  }

  /** The rows of `RecentSize` most recent records (`tail(200)`). */
  function Recent<T>(history: seq<T>): (r: seq<T>)
    ensures |r| == if |history| < RecentSize then |history| else RecentSize
    ensures forall k :: 0 <= k < |r| ==> r[k] == history[|history| - |r| + k]
  {
    Seqs.LastN(history, RecentSize)
  }

  /** A sequence of per-tick batches applied one after another, oldest first. */
  function AppendAll<T>(history: seq<T>, batches: seq<seq<T>>): seq<T>
    decreases |batches|
  {
    if |batches| == 0 then history else AppendAll(Append(history, batches[0]), batches[1..])
  }

  function Flatten<T>(batches: seq<seq<T>>): seq<T>
    decreases |batches|
  {
    if |batches| == 0 then [] else batches[0] + Flatten(batches[1..])
  }

  /** Within the bound, an append is "concatenate, then keep the last Cap". */
  lemma AppendIsLastN<T>(history: seq<T>, batch: seq<T>)
    requires |history| <= Cap
    ensures Append(history, batch) == Seqs.LastN(history + batch, Cap)
  {
  }

  /** The whole session: after any sequence of batches, starting from a bounded history, the
      history holds exactly the most recent `Cap` of all records ever appended, in arrival order. */
  lemma {:induction false} AppendAllKeepsMostRecent<T>(history: seq<T>, batches: seq<seq<T>>)
    requires |history| <= Cap
    ensures AppendAll(history, batches) == Seqs.LastN(history + Flatten(batches), Cap)
    decreases |batches|
  {
    if |batches| == 0 {
      assert history + Flatten(batches) == history;
    } else {
      var b := batches[0];
      var h1 := Append(history, b);
      AppendIsLastN(history, b);
      AppendAllKeepsMostRecent(h1, batches[1..]);
      ShiftBatch(history, batches);
    }
  }

  /** One step of the induction above: the first batch moves from the batch list into the window. */
  lemma ShiftBatch<T>(history: seq<T>, batches: seq<seq<T>>)
    requires |history| <= Cap && |batches| > 0
    ensures Seqs.LastN(Seqs.LastN(history + batches[0], Cap) + Flatten(batches[1..]), Cap)
            == Seqs.LastN(history + Flatten(batches), Cap)
  {
    var b := batches[0];
    var rest := Flatten(batches[1..]);
    Seqs.LastNOfLastN(history + b, rest, Cap);
    FlattenCons(history, batches);
  }

  lemma FlattenCons<T>(history: seq<T>, batches: seq<seq<T>>)
    requires |batches| > 0
    ensures history + Flatten(batches) == (history + batches[0]) + Flatten(batches[1..])
  {
  }

  /** The bound holds after any number of appends. */
  lemma {:induction false} AppendAllBounded<T>(history: seq<T>, batches: seq<seq<T>>)
    requires |history| <= Cap
    ensures |AppendAll(history, batches)| <= Cap
    decreases |batches|
  {
    if |batches| > 0 {
      AppendAllBounded(Append(history, batches[0]), batches[1..]);
    }
  }

  /** A batch no larger than the cap survives its own append whole, at the tail. */
  lemma AppendKeepsBatch<T>(history: seq<T>, batch: seq<T>)
    requires |batch| <= Cap
    ensures var h := Append(history, batch);
      |batch| <= |h| && h[|h| - |batch|..] == batch
  {
  }

  /** 510 records numbered 1..510 appended to an empty history leave 500, starting at record 11. */
  lemma OverflowScenario()
    ensures var h := Append([], seq(510, k => k + 1)); |h| == 500 && h[0] == 11 && h[499] == 510
  {
  }
}
