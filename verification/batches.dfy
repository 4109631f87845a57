/**
  The batch loop of the start-up loader, independent of what handling one id
  does: ids 1..count are walked in batches of `batchSize`, each id handled by
  a step that updates a state and reports whether the id counts as loaded,
  and the loop ends early after a batch whose pause is interrupted.
*/
module Batches {
  import opened Text

  /** The loop's running result: the state and the loaded / failed counters. */
  datatype Progress<S> = Progress(state: S, loaded: int, failed: int)

  /** The reference: the ids handled one after another, in order, each counted once. */
  function Fold<S>(step: (S, int) -> (S, bool), s: S, ids: seq<int>): (r: Progress<S>)
    ensures 0 <= r.loaded && 0 <= r.failed && r.loaded + r.failed == |ids|
    decreases |ids|
  {
    if ids == [] then Progress(s, 0, 0)
    else
      var prev := Fold(step, s, ids[..|ids| - 1]);
      var (s', ok) := step(prev.state, ids[|ids| - 1]);
      Progress(s', prev.loaded + (if ok then 1 else 0), prev.failed + (if ok then 0 else 1))
  }

  /** Handling one more id is one more step of the reference. */
  lemma FoldSnoc<S>(step: (S, int) -> (S, bool), s: S, ids: seq<int>, id: int)
    ensures var prev := Fold(step, s, ids);
      var (s', ok) := step(prev.state, id);
      Fold(step, s, ids + [id]) ==
        Progress(s', prev.loaded + (if ok then 1 else 0), prev.failed + (if ok then 0 else 1))
  {
    assert (ids + [id])[..|ids + [id]| - 1] == ids;
  }

  /** `1, 2, …, n`: the ids the loader walks. */
  predicate CountsFromOne(ids: seq<int>) {
    forall i :: 0 <= i < |ids| ==> ids[i] == i + 1
  }

  function Max0(n: int): nat {
    if n < 0 then 0 else n
  }

  /** The number of ids in `k` whole batches of `b`, counted batch by batch. */
  function Multiple(k: nat, b: int): (r: int)
    ensures b >= 0 ==> r >= 0
  {
    if k == 0 then 0 else Multiple(k - 1, b) + b
  }

  /** Counting batch by batch is multiplying. */
  lemma {:induction false} MultipleIsProduct(k: nat, b: int)
    ensures Multiple(k, b) == k * b
  {
    if k > 0 {
      MultipleIsProduct(k - 1, b);
    }
  }

  /** The ids `lo, lo + 1, …, hi`, empty when `hi < lo`. */
  function Span(lo: int, hi: int): (r: seq<int>)
    ensures |r| == if hi < lo then 0 else hi - lo + 1
    ensures forall i :: 0 <= i < |r| ==> r[i] == lo + i
  {
    if hi < lo then [] else seq(hi - lo + 1, i => lo + i)
  }

  lemma SpanAppend(lo: int, mid: int, hi: int)
    requires lo <= mid + 1 <= hi + 1
    ensures Span(lo, mid) + Span(mid + 1, hi) == Span(lo, hi)
  {
    var a, b, c := Span(lo, mid), Span(mid + 1, hi), Span(lo, hi);
    forall i | 0 <= i < |c| ensures (a + b)[i] == c[i] {
      if i >= |a| {
        assert (a + b)[i] == b[i - |a|];
      }
    }
  }

  /** The batches from `start` on: `[start, min(start + b - 1, count)]`, then the next `b` ids, until `count`. */
  function BatchesFrom(start: int, count: int, b: int): seq<(int, int)>
    requires b >= 1
    decreases count - start
  {
    if start > count then []
    else [(start, if start + b - 1 < count then start + b - 1 else count)] + BatchesFrom(start + b, count, b)
  }

  /** The loader's batches: from id 1 on. */
  function BatchPlan(count: int, b: int): seq<(int, int)>
    requires b >= 1
  {
    BatchesFrom(1, count, b)
  }

  /** The ids of a list of batches, batch after batch. */
  function Flatten(bs: seq<(int, int)>): seq<int> {
    if bs == [] then [] else Span(bs[0].0, bs[0].1) + Flatten(bs[1..])
  }

  /** The batches from `start` on hold the ids `start..count`, each once, in ascending order. */
  lemma {:induction false} BatchesFromCover(start: int, count: int, b: int)
    requires b >= 1
    ensures Flatten(BatchesFrom(start, count, b)) == Span(start, count)
    decreases count - start
  {
    if start <= count {
      var end := if start + b - 1 < count then start + b - 1 else count;
      var rest := BatchesFrom(start + b, count, b);
      BatchesFromCover(start + b, count, b);
      assert BatchesFrom(start, count, b) == [(start, end)] + rest;
      assert ([(start, end)] + rest)[1..] == rest;
      SpanAppend(start, end, count);
    }
  }

  /** The loader's batches partition `1..count`: every id once, ascending. */
  lemma BatchPlanCoversIds(count: int, b: int)
    requires b >= 1
    ensures CountsFromOne(Flatten(BatchPlan(count, b)))
    ensures |Flatten(BatchPlan(count, b))| == Max0(count)
  {
    BatchesFromCover(1, count, b);
  }

  lemma CountsFromOneIsSpan(v: seq<int>)
    requires CountsFromOne(v)
    ensures v == Span(1, |v|)
  {
  }

  /** `n` ids make up one or more whole batches of `b`. */
  ghost predicate WholeBatches(n: int, b: int) {
    exists k: nat :: 1 <= k && n == Multiple(k, b)
  }

  /** The last id of batch `j` (counting from 0) of `b` ids each. */
  function BatchEnd(j: nat, b: int): int {
    Multiple(j + 1, b)
  }

  /** The pause after batch `j` (counting from 0) is interrupted; the pause is keyed by the batch's first id. */
  ghost predicate PauseInterrupted(j: nat, b: int, interrupted: int -> bool) {
    interrupted(Multiple(j, b) + 1)
  }

  /**
    Where the loop over `1..count` may stop: after the last id, or right
    after a whole batch whose pause was interrupted (the pause is keyed by the
    batch's first id); and every batch that ended before the stop had its
    pause run to the end.
  */
  ghost predicate StopsAt(n: int, count: int, batchSize: int, interrupted: int -> bool) {
    && n <= Max0(count)
    && (|| n == Max0(count)
        || (WholeBatches(n, batchSize) && interrupted(n - batchSize + 1)))
    && forall j: nat :: BatchEnd(j, batchSize) < n ==> !PauseInterrupted(j, batchSize, interrupted)
  }

  /** Counting more batches never counts fewer ids. */
  lemma {:induction false} MultipleMonotone(i: nat, k: nat, b: int)
    requires b >= 0 && i <= k
    ensures Multiple(i, b) <= Multiple(k, b)
    decreases k
  {
    if i < k {
      MultipleMonotone(i, k - 1, b);
    }
  }

  /**
    When the pauses after the first `batches` batches all ran to the end and
    the stop comes no later than the end of the next batch, no batch ending
    before the stop had its pause interrupted.
  */
  lemma EarlierPausesKept(n: int, b: int, batches: nat, interrupted: int -> bool)
    requires b >= 1 && n <= Multiple(batches + 1, b)
    requires forall j: nat :: j < batches ==> !PauseInterrupted(j, b, interrupted)
    ensures forall j: nat :: BatchEnd(j, b) < n ==> !PauseInterrupted(j, b, interrupted)
  {
    forall j: nat | BatchEnd(j, b) < n
      ensures !PauseInterrupted(j, b, interrupted)
    {
      if j >= batches {
        MultipleMonotone(batches + 1, j + 1, b);
        assert false;
      }
    }
  }

  /** The first `k` batches from `start` hold the next `k` whole batches of ids, when they all fit below `count`. */
  lemma {:induction false} WholeBatchesPrefix(start: int, count: int, b: int, k: nat)
    requires b >= 1 && start - 1 + Multiple(k, b) <= count
    ensures k <= |BatchesFrom(start, count, b)|
    ensures Flatten(BatchesFrom(start, count, b)[..k]) == Span(start, start - 1 + Multiple(k, b))
    decreases k
  {
    if k > 0 {
      var rest := BatchesFrom(start + b, count, b);
      WholeBatchesPrefix(start + b, count, b, k - 1);
      var bs := BatchesFrom(start, count, b);
      assert bs == [(start, start + b - 1)] + rest;
      assert bs[..k] == [(start, start + b - 1)] + rest[..k - 1];
      assert bs[..k][1..] == rest[..k - 1];
      SpanAppend(start, start + b - 1, start - 1 + Multiple(k, b));
    }
  }

  /** Wherever the loop stops, the ids it walked are those of the first batches of the plan. */
  lemma PlanPrefix(n: int, count: int, b: int, interrupted: int -> bool)
    requires b >= 1 && StopsAt(n, count, b, interrupted)
    ensures exists k :: 0 <= k <= |BatchPlan(count, b)| && Flatten(BatchPlan(count, b)[..k]) == Span(1, n)
  {
    var plan := BatchPlan(count, b);
    if n == Max0(count) {
      BatchesFromCover(1, count, b);
      assert plan[..|plan|] == plan;
    } else {
      var k: nat :| 1 <= k && n == Multiple(k, b);
      WholeBatchesPrefix(1, count, b, k);
    }
  }

  /** Without an interrupted pause, the loop walks every id. */
  lemma UninterruptedLoadsAll(n: int, count: int, batchSize: int, interrupted: int -> bool)
    requires StopsAt(n, count, batchSize, interrupted)
    requires forall b :: !interrupted(b)
    ensures n == Max0(count)
  {
  }

  /** The inner loop: the ids after those already visited, up to and including `end`, one at a time. */
  method RunBatch<S>(step: (S, int) -> (S, bool), s0: S, p: Progress<S>, visited: seq<int>, end: int)
    returns (p': Progress<S>, visited': seq<int>)
    requires CountsFromOne(visited) && |visited| <= end
    requires p == Fold(step, s0, visited)
    ensures CountsFromOne(visited') && |visited'| == end
    ensures p' == Fold(step, s0, visited')
  {
    p', visited' := p, visited;
    var id := |visited| + 1;
    while id <= end
      invariant |visited'| == id - 1 <= end
      invariant CountsFromOne(visited')
      invariant p' == Fold(step, s0, visited')
    {
      FoldSnoc(step, s0, visited', id);
      var (next, ok) := step(p'.state, id);
      if ok {
        p' := Progress(next, p'.loaded + 1, p'.failed);
      } else {
        p' := Progress(next, p'.loaded, p'.failed + 1);
      }
      visited' := visited' + [id];
      id := id + 1;
    }
  }

  /**
    The outer loop: batches starting at 1, 1 + batchSize, …; after each batch
    the pause, and an interrupted pause ends the loop. The batches together
    handle the ids in order, exactly as the one-id-at-a-time reference does.
  */
  method BatchLoop<S>(step: (S, int) -> (S, bool), s0: S, count: int, batchSize: int, interrupted: int -> bool)
    returns (p: Progress<S>, visited: seq<int>)
    requires batchSize >= 1
    requires IsInt32(count) && IsInt32(count + batchSize)
    ensures CountsFromOne(visited)
    ensures p == Fold(step, s0, visited)
    ensures StopsAt(|visited|, count, batchSize, interrupted)
    ensures exists k :: 0 <= k <= |BatchPlan(count, batchSize)| && visited == Flatten(BatchPlan(count, batchSize)[..k])
  {
    p, visited := Progress(s0, 0, 0), [];
    var start := 1;
    ghost var batches: nat := 0;
    while start <= count
      invariant 1 <= start && start - 1 == Multiple(batches, batchSize)
      invariant |visited| == if start - 1 <= count then start - 1 else Max0(count)
      invariant CountsFromOne(visited)
      invariant p == Fold(step, s0, visited)
      invariant forall j: nat :: j < batches ==> !PauseInterrupted(j, batchSize, interrupted)
      decreases count - start
    {
      var end := if start + batchSize - 1 < count then start + batchSize - 1 else count;
      p, visited := RunBatch(step, s0, p, visited, end);
      if interrupted(start) {
        if end < count {
          assert |visited| == Multiple(batches + 1, batchSize);
        }
        break;
      }
      assert !PauseInterrupted(batches, batchSize, interrupted);
      start := start + batchSize;
      batches := batches + 1;
    }
    EarlierPausesKept(|visited|, batchSize, batches, interrupted);
    PlanPrefix(|visited|, count, batchSize, interrupted);
    CountsFromOneIsSpan(visited);
  }
}
