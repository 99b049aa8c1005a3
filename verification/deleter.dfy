/** Bulk deletion: one delete request per collected file, dispatched in
    batches that are awaited as a unit. */
module Deleter {
  import opened Common
  import opened Store

  /** `deleteRequestsPerSecondLimit`: the size of every batch after the first. */
  const Limit: nat := 100

  /** The loop awaits its pending requests right after submitting request `i`. */
  predicate FlushesAfter(i: nat)
  {
    i % Limit == 0
  }

  /** The batch request `i` is dispatched in: request 0 alone, then runs of `Limit`. */
  function BatchOf(i: nat): nat
  {
    if i == 0 then 0 else (i - 1) / Limit + 1
  }

  /** The first request of batch `b`. */
  function BatchStart(b: nat): nat
  {
    if b == 0 then 0 else Limit * (b - 1) + 1
  }

  /** How many batches `n` requests are dispatched in. */
  function BatchCount(n: nat): nat
  {
    if n == 0 then 0 else BatchOf(n - 1) + 1
  }

  /** The indices `lo, lo + 1, ..., hi - 1`. */
  function Range(lo: nat, hi: nat): seq<nat>
  {
    if lo >= hi then [] else seq(hi - lo, k requires 0 <= k < hi - lo => lo + k)
  }

  /** The batches `n` delete requests are dispatched in, as groups of indices
      into the file list. */
  function Partition(n: nat): seq<seq<nat>>
  {
    seq(BatchCount(n), b requires 0 <= b < BatchCount(n) => Range(BatchStart(b), Min(BatchStart(b + 1), n)))
  }

  /** All the groups one after another. */
  function Flat(batches: seq<seq<nat>>): seq<nat>
  {
    if batches == [] then [] else Flat(batches[..|batches| - 1]) + batches[|batches| - 1]
  }

  /** Request `i` is dispatched in batch `b` exactly when it lies between
      that batch's first request and the next batch's. */
  lemma BatchOfBounds(i: nat, b: nat)
    ensures BatchOf(i) == b <==> BatchStart(b) <= i < BatchStart(b + 1)
  {
    if b > 0 && BatchStart(b) <= i < BatchStart(b + 1) {
      assert Limit * (b - 1) <= i - 1 < Limit * b;
      assert (i - 1) / Limit == b - 1;
    }
    if BatchOf(i) == b && b > 0 {
      assert i > 0;
      var q := (i - 1) / Limit;
      assert q * Limit <= i - 1 < q * Limit + Limit;
    }
  }

  /** The source's flush rule `i % Limit == 0` closes a batch exactly at its
      last request: the flushes are what cut the requests into `Partition`. */
  lemma FlushEndsBatch(i: nat)
    ensures FlushesAfter(i) <==> i + 1 == BatchStart(BatchOf(i) + 1)
  {
    BatchOfBounds(i, BatchOf(i));
    if i > 0 {
      var q := (i - 1) / Limit;
      assert q * Limit <= i - 1 < q * Limit + Limit;
      assert BatchStart(BatchOf(i) + 1) == Limit * q + Limit + 1;
      if i % Limit == 0 {
        var m := i / Limit;
        assert i == m * Limit;
        assert q == m - 1;
      }
      if i + 1 == Limit * q + Limit + 1 {
        assert i == Limit * (q + 1);
      }
    }
  }

  lemma BatchStartMonotone(a: nat, b: nat)
    requires a <= b
    ensures BatchStart(a) <= BatchStart(b)
    ensures a < b ==> BatchStart(a) < BatchStart(b)
  {
  }

  lemma RangeAppend(lo: nat, mid: nat, hi: nat)
    requires lo <= mid <= hi
    ensures Range(lo, mid) + Range(mid, hi) == Range(lo, hi)
  {
  }

  /** The first `m` batches cover the requests before batch `m` begins. */
  lemma {:induction false} FlatPrefix(n: nat, m: nat)
    requires m <= BatchCount(n)
    ensures Flat(Partition(n)[..m]) == Range(0, Min(BatchStart(m), n))
    decreases m
  {
    if m > 0 {
      var p := Partition(n);
      FlatPrefix(n, m - 1);
      assert p[..m][..m - 1] == p[..m - 1];
      BatchOfBounds(n - 1, BatchOf(n - 1));
      BatchStartMonotone(m - 1, BatchOf(n - 1));
      BatchStartMonotone(m - 1, m);
      RangeAppend(0, BatchStart(m - 1), Min(BatchStart(m), n));
    } else {
      assert Partition(n)[..0] == [];
    }
  }

  /** Every request is dispatched in exactly one batch, in request order:
      the batches, one after another, are the indices `0 .. n - 1`. */
  lemma PartitionCovers(n: nat)
    ensures Flat(Partition(n)) == Range(0, n)
  {
    FlatPrefix(n, BatchCount(n));
    assert Partition(n)[..BatchCount(n)] == Partition(n);
    if n > 0 {
      BatchOfBounds(n - 1, BatchOf(n - 1));
    }
  }

  /** The first batch holds only request 0; every batch is non-empty and
      holds at most `Limit` requests; all batches but the first and the last
      hold exactly `Limit`. */
  lemma PartitionShape(n: nat)
    ensures n > 0 ==> Partition(n)[0] == [0]
    ensures forall b :: 0 <= b < |Partition(n)| ==> 1 <= |Partition(n)[b]| <= Limit
    ensures forall b :: 0 < b < |Partition(n)| - 1 ==> |Partition(n)[b]| == Limit
  {
    var p := Partition(n);
    forall b | 0 <= b < |p|
      ensures 1 <= |p[b]| <= Limit
      ensures 0 < b < |p| - 1 ==> |p[b]| == Limit
    {
      BatchBounds(n, b);
      assert |p[b]| == Min(BatchStart(b + 1), n) - BatchStart(b);
    }
  }

  /** The extent of batch `b`: it starts before the last request, and ends
      at the next batch's start unless it is the last batch. */
  lemma BatchBounds(n: nat, b: nat)
    requires b < BatchCount(n)
    ensures BatchStart(b) < n
    ensures BatchStart(b + 1) - BatchStart(b) <= Limit
    ensures b > 0 ==> BatchStart(b + 1) - BatchStart(b) == Limit
    ensures b < BatchCount(n) - 1 ==> BatchStart(b + 1) <= n
  {
    BatchOfBounds(n - 1, BatchOf(n - 1));
    BatchStartMonotone(b, BatchOf(n - 1));
    if b < BatchCount(n) - 1 {
      BatchStartMonotone(b + 1, BatchOf(n - 1));
    }
  }

  /** Batch `b` of `Partition(n)`, for a batch that exists. */
  lemma PartitionAt(n: nat, b: nat)
    requires b < BatchCount(n)
    ensures b < |Partition(n)|
    ensures Partition(n)[b] == Range(BatchStart(b), Min(BatchStart(b + 1), n))
  {
  }

  /** Request `j` is the first of the `n` requests whose delete is rejected. */
  ghost predicate FirstRejected(j: nat, n: nat, rejected: set<nat>)
  {
    j < n && j in rejected && forall k :: 0 <= k < j ==> k !in rejected
  }

  /** Some request of the batch is rejected, so awaiting the batch throws. */
  predicate BatchRejects(batch: seq<nat>, rejected: set<nat>)
  {
    exists k :: k in batch && k in rejected
  }

  /** No request before `k` is rejected. */
  ghost predicate CleanBelow(k: nat, rejected: set<nat>)
  {
    forall i :: 0 <= i < k ==> i !in rejected
  }

  /** The batches awaited so far are the first full batches, in order. */
  ghost predicate Completed(batches: seq<seq<nat>>)
  {
    forall b :: 0 <= b < |batches| ==> batches[b] == Range(BatchStart(b), BatchStart(b + 1))
  }

  /** The first `|batches|` batches of `Partition(n)`, when the last of them
      ends at `end`. */
  lemma PrefixOfPartition(n: nat, end: nat, batches: seq<seq<nat>>)
    requires |batches| > 0 && 0 < end <= n
    requires end == n || end == BatchStart(|batches|)
    requires BatchStart(|batches| - 1) < end <= BatchStart(|batches|)
    requires Completed(batches[..|batches| - 1])
    requires batches[|batches| - 1] == Range(BatchStart(|batches| - 1), end)
    ensures batches <= Partition(n)
  {
    var c := |batches| - 1;
    BatchOfBounds(end - 1, c);
    BatchOfBounds(n - 1, BatchOf(n - 1));
    assert c < BatchCount(n);
    forall b | 0 <= b < |batches|
      ensures batches[b] == Partition(n)[b]
    {
      PartitionAt(n, b);
      if b < c {
        BatchStartMonotone(b + 1, c);
        assert batches[b] == batches[..c][b];
        assert Min(BatchStart(b + 1), n) == BatchStart(b + 1);
      } else {
        assert Min(BatchStart(b + 1), n) == end;
      }
    }
  }

  /** The deletes stopped after `count` requests and the batches `batches`
      because a batch was rejected: that is the batch of the first rejected
      request, the batches so far begin `Partition(n)`, and nothing after that
      batch was sent. */
  ghost predicate StoppedAt(n: nat, count: nat, batches: seq<seq<nat>>, rejected: set<nat>)
  {
    && !CleanBelow(n, rejected)
    && forall j :: FirstRejected(j, n, rejected) ==>
         && count == Min(BatchStart(BatchOf(j) + 1), n)
         && |batches| == BatchOf(j) + 1
         && batches <= Partition(n)
  }

  /** When the last of the dispatched batches, ending before `end`, is the
      first one holding a rejected request, that batch is the batch of the
      first rejected request, and the batches so far begin `Partition(n)`. */
  lemma RejectedBatch(n: nat, end: nat, batches: seq<seq<nat>>, rejected: set<nat>)
    requires 0 < end <= n && |batches| > 0
    requires end == n || end == BatchStart(|batches|)
    requires BatchStart(|batches| - 1) < end <= BatchStart(|batches|)
    requires Completed(batches[..|batches| - 1])
    requires batches[|batches| - 1] == Range(BatchStart(|batches| - 1), end)
    requires CleanBelow(BatchStart(|batches| - 1), rejected)
    requires BatchRejects(batches[|batches| - 1], rejected)
    ensures StoppedAt(n, end, batches, rejected)
  {
    var c := |batches| - 1;
    var p :| p in batches[c] && p in rejected;
    PrefixOfPartition(n, end, batches);
    forall j | FirstRejected(j, n, rejected)
      ensures BatchOf(j) == c
    {
      BatchOfBounds(j, c);
    }
  }

  /** Once every request is dispatched, the completed batches and the
      remainder (if any) are exactly `Partition(n)`. */
  lemma FinishedBatches(n: nat, batches: seq<seq<nat>>, pending: seq<nat>)
    requires BatchStart(|batches|) <= n < BatchStart(|batches| + 1)
    requires pending == Range(BatchStart(|batches|), n)
    requires Completed(batches)
    ensures batches + (if |pending| > 0 then [pending] else []) == Partition(n)
  {
    var c := |batches|;
    var all := batches + (if |pending| > 0 then [pending] else []);
    if |pending| > 0 {
      BatchOfBounds(n - 1, c);
    } else if c > 0 {
      BatchOfBounds(n - 1, c - 1);
    }
    assert |all| == BatchCount(n);
    forall b | 0 <= b < |all|
      ensures all[b] == Partition(n)[b]
    {
      PartitionAt(n, b);
      if b < c {
        BatchStartMonotone(b + 1, c);
        assert all[b] == batches[b];
        assert Min(BatchStart(b + 1), n) == BatchStart(b + 1);
      } else {
        assert all[b] == pending;
        assert Min(BatchStart(b + 1), n) == n;
      }
    }
  }

  /** A batch that does not reject extends the clean run of requests to its end. */
  lemma Accepted(lo: nat, hi: nat, batch: seq<nat>, rejected: set<nat>)
    requires lo <= hi
    requires batch == Range(lo, hi)
    requires CleanBelow(lo, rejected)
    requires !BatchRejects(batch, rejected)
    ensures CleanBelow(hi, rejected)
  {
    forall k | lo <= k < hi
      ensures k !in rejected
    {
      assert batch[k - lo] == k;
    }
  }

  /** Submitting request `i` extends the pending run of batch `c`, and the
      source's flush test fires exactly when that completes the batch. */
  lemma Submit(c: nat, i: nat, pending: seq<nat>)
    requires BatchStart(c) <= i < BatchStart(c + 1)
    requires pending == Range(BatchStart(c), i)
    ensures pending + [i] == Range(BatchStart(c), i + 1)
    ensures FlushesAfter(i) <==> i + 1 == BatchStart(c + 1)
    ensures i + 1 < BatchStart(c + 2)
  {
    BatchOfBounds(i, c);
    FlushEndsBatch(i);
  }

  /** Appending the next full batch keeps the awaited batches complete. */
  lemma Complete(batches: seq<seq<nat>>, batch: seq<nat>)
    requires Completed(batches)
    requires batch == Range(BatchStart(|batches|), BatchStart(|batches| + 1))
    ensures Completed(batches + [batch])
    ensures (batches + [batch])[..|batches|] == batches
  {
  }

  /** Request `k` of `sent` deletes the path of file `k`. */
  ghost predicate Issued(sent: seq<Request>, files: seq<MSFile>)
  {
    |sent| <= |files| && forall k :: 0 <= k < |sent| ==> sent[k] == Delete(files[k].path)
  }

  lemma IssueNext(sent: seq<Request>, files: seq<MSFile>)
    requires Issued(sent, files) && |sent| < |files|
    ensures Issued(sent + [Delete(files[|sent|].path)], files)
  {
  }

  /** The loop of `deleteFilesByPath` over the collected files. Request `i`
      deletes `files[i].path`; the pending requests are awaited after request
      `i` whenever `i % Limit == 0`. Awaiting a batch in which some delete is
      rejected throws (`stopped`). Otherwise the loop ends with the counter
      `deleted` at the number of files and the remainder still pending. */
  method DeleteLoop(files: seq<MSFile>, rejected: set<nat>)
    returns (stopped: bool, sent: seq<Request>, batches: seq<seq<nat>>, pending: seq<nat>, deleted: nat)
    ensures |sent| <= |files|
    ensures Issued(sent, files)
    ensures stopped ==> StoppedAt(|files|, |sent|, batches, rejected)
    ensures !stopped ==>
              && deleted == |sent| == |files|
              && BatchStart(|batches|) <= |files| < BatchStart(|batches| + 1)
              && pending == Range(BatchStart(|batches|), |files|)
              && Completed(batches)
              && CleanBelow(BatchStart(|batches|), rejected)
  {
    var n := |files|;
    deleted := 0;
    pending := [];
    sent := [];
    batches := [];
    stopped := false;
    var i := 0;
    while i < n
      invariant 0 <= i <= n
      invariant deleted == i
      invariant |sent| == i
      invariant Issued(sent, files)
      invariant BatchStart(|batches|) <= i < BatchStart(|batches| + 1)
      invariant pending == Range(BatchStart(|batches|), i)
      invariant Completed(batches)
      invariant CleanBelow(BatchStart(|batches|), rejected)
    {
      ghost var c := |batches|;
      Submit(c, i, pending);
      IssueNext(sent, files);
      sent := sent + [Delete(files[i].path)];
      pending := pending + [i];
      if i % Limit == 0 {
        Complete(batches, pending);
        batches := batches + [pending];
        if BatchRejects(pending, rejected) {
          RejectedBatch(n, i + 1, batches, rejected);
          stopped := true;
          return;
        }
        Accepted(BatchStart(c), i + 1, pending, rejected);
        pending := [];
      }
      deleted := deleted + 1;
      i := i + 1;
    }
  }

  /** The await after the loop: a rejected remainder is the batch of the
      first rejected request; otherwise no request was rejected and the
      dispatched batches are exactly `Partition(n)`. */
  lemma FinalFlush(n: nat, batches: seq<seq<nat>>, pending: seq<nat>, rejected: set<nat>)
    requires BatchStart(|batches|) <= n < BatchStart(|batches| + 1)
    requires pending == Range(BatchStart(|batches|), n)
    requires Completed(batches)
    requires CleanBelow(BatchStart(|batches|), rejected)
    ensures BatchRejects(pending, rejected) ==> StoppedAt(n, n, batches + [pending], rejected)
    ensures !BatchRejects(pending, rejected) ==>
              && CleanBelow(n, rejected)
              && batches + (if |pending| > 0 then [pending] else []) == Partition(n)
  {
    FinishedBatches(n, batches, pending);
    if BatchRejects(pending, rejected) {
      var all := batches + [pending];
      assert all[..|all| - 1] == batches;
      RejectedBatch(n, n, all, rejected);
    } else {
      Accepted(BatchStart(|batches|), n, pending, rejected);
    }
  }

  /** `deleteFilesByPath` once the files are collected: the delete loop, then
      one more await for any remainder. A rejected batch ends the call with
      an error; otherwise it returns whether the deletions counted equal the
      number of files, which always holds. The first batch holds request 0
      alone, so the batches are those of `Partition`. */
  method DeleteAll(files: seq<MSFile>, rejected: set<nat>)
    returns (r: Result<bool>, sent: seq<Request>, batches: seq<seq<nat>>)
    ensures |sent| <= |files|
    ensures forall i :: 0 <= i < |sent| ==> sent[i] == Delete(files[i].path)
    ensures (forall k :: 0 <= k < |files| ==> k !in rejected) ==>
              r == Ok(true) && |sent| == |files| && batches == Partition(|files|)
    ensures forall j :: FirstRejected(j, |files|, rejected) ==>
              && r == Err(DeleteRejected)
              && |sent| == Min(BatchStart(BatchOf(j) + 1), |files|)
              && |batches| == BatchOf(j) + 1
              && batches <= Partition(|files|)
  {
    var stopped, pending, deleted;
    stopped, sent, batches, pending, deleted := DeleteLoop(files, rejected);
    if stopped {
      r := Err(DeleteRejected);
    } else {
      FinalFlush(|files|, batches, pending, rejected);
      if |pending| > 0 {
        batches := batches + [pending];
      }
      if BatchRejects(pending, rejected) {
        r := Err(DeleteRejected);
      } else {
        r := Ok(deleted == |files|);
      }
    }
  }
}
