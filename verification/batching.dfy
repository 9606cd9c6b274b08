/** The batch accumulator both connectors run over their document stream: a
    document is appended, and once the batch is large enough it is yielded and a
    new one started; one final, possibly empty, batch always follows when the
    stream ends normally. The Jira connector yields when the count reaches the
    batch size (`>=`), the Salesforce connector only when it exceeds it (`>`). */
module Batching {
  import opened Wrappers
  import opened Documents

  datatype Threshold = Reached | Exceeded

  /** The comparison each connector writes after appending a document. */
  predicate ShouldEmit(t: Threshold, count: nat, batchSize: int) {
    match t
    case Reached => count >= batchSize
    case Exceeded => count > batchSize
  }

  /** The number of documents in every batch yielded before the end. */
  function BatchLimit(t: Threshold, batchSize: int): (n: nat)
    ensures n >= 1
    ensures forall count: nat :: count >= 1 ==> (ShouldEmit(t, count, batchSize) <==> count >= n)
  {
    match t
    case Reached => if batchSize >= 1 then batchSize else 1
    case Exceeded => if batchSize >= 0 then batchSize + 1 else 1
  }

  datatype Accumulated<T> = Accumulated(full: seq<seq<T>>, rest: seq<T>)

  function Flatten<T>(bs: seq<seq<T>>): seq<T> {
    if |bs| == 0 then [] else bs[0] + Flatten(bs[1..])
  }

  /** The loop over the document stream, from a current partial batch `acc`. */
  function Accumulate<T>(items: seq<T>, t: Threshold, batchSize: int, acc: seq<T>): Accumulated<T>
    decreases |items|
  {
    if |items| == 0 then Accumulated([], acc)
    else
      var acc' := acc + [items[0]];
      if ShouldEmit(t, |acc'|, batchSize) then
        var r := Accumulate(items[1..], t, batchSize, []);
        Accumulated([acc'] + r.full, r.rest)
      else
        Accumulate(items[1..], t, batchSize, acc')
  }

  /** The accumulator loses nothing and reorders nothing. */
  lemma {:induction false} AccumulateContent<T>(items: seq<T>, t: Threshold, batchSize: int, acc: seq<T>)
    ensures var r := Accumulate(items, t, batchSize, acc);
      Flatten(r.full) + r.rest == acc + items
    decreases |items|
  {
    if |items| > 0 {
      var acc' := acc + [items[0]];
      assert acc' + items[1..] == acc + items;
      if ShouldEmit(t, |acc'|, batchSize) {
        AccumulateContent(items[1..], t, batchSize, []);
        var r := Accumulate(items[1..], t, batchSize, []);
        var full := [acc'] + r.full;
        assert full[1..] == r.full;
        assert Flatten(full) + r.rest == acc' + (Flatten(r.full) + r.rest);
      } else {
        AccumulateContent(items[1..], t, batchSize, acc');
      }
    }
  }

  /** Every yielded batch holds exactly `BatchLimit` documents, the remainder fewer. */
  lemma {:induction false} AccumulateSizes<T>(items: seq<T>, t: Threshold, batchSize: int, acc: seq<T>)
    requires |acc| < BatchLimit(t, batchSize)
    ensures var r := Accumulate(items, t, batchSize, acc);
      && (forall i :: 0 <= i < |r.full| ==> |r.full[i]| == BatchLimit(t, batchSize))
      && |r.rest| < BatchLimit(t, batchSize)
    decreases |items|
  {
    if |items| > 0 {
      var acc' := acc + [items[0]];
      if ShouldEmit(t, |acc'|, batchSize) {
        AccumulateSizes(items[1..], t, batchSize, []);
      } else {
        AccumulateSizes(items[1..], t, batchSize, acc');
      }
    }
  }

  lemma {:induction false} FlattenLength<T>(bs: seq<seq<T>>, n: nat)
    requires forall i :: 0 <= i < |bs| ==> |bs[i]| == n
    ensures |Flatten(bs)| == |bs| * n
  {
    if |bs| > 0 {
      FlattenLength(bs[1..], n);
    }
  }

  /** The accumulator in one statement: content kept, yielded batches full, the
      remainder short, and so the number of yielded batches fixed by the count. */
  lemma AccumulateShape<T>(items: seq<T>, t: Threshold, batchSize: int, acc: seq<T>)
    requires |acc| < BatchLimit(t, batchSize)
    ensures var r := Accumulate(items, t, batchSize, acc);
      && Flatten(r.full) + r.rest == acc + items
      && (forall i :: 0 <= i < |r.full| ==> |r.full[i]| == BatchLimit(t, batchSize))
      && |r.rest| < BatchLimit(t, batchSize)
      && |acc| + |items| == |r.full| * BatchLimit(t, batchSize) + |r.rest|
  {
    var r := Accumulate(items, t, batchSize, acc);
    AccumulateContent(items, t, batchSize, acc);
    AccumulateSizes(items, t, batchSize, acc);
    FlattenLength(r.full, BatchLimit(t, batchSize));
    assert |Flatten(r.full) + r.rest| == |acc + items|;
  }

  /** What the caller of a sync observes: the batches yielded, then either the
      normal end or the error that stopped the generator. */
  datatype SyncOutcome = SyncOutcome(batches: seq<seq<Document>>, error: Option<SyncError>)

  /** What a generator that batches `docs` at `limit` yields. When the stream
      ends, every document in order, in full batches followed by one short
      (possibly empty) batch. When it fails, only full batches, holding a prefix
      of the documents that leaves less than a batch behind, and the failure. */
  predicate Batches(o: SyncOutcome, docs: seq<Document>, failure: Option<SyncError>, limit: nat) {
    && o.error == failure
    && (failure.None? ==>
          && |o.batches| >= 1 && Flatten(o.batches) == docs
          && |o.batches[|o.batches| - 1]| < limit
          && forall i :: 0 <= i < |o.batches| - 1 ==> |o.batches[i]| == limit)
    && (failure.Some? ==>
          && Flatten(o.batches) <= docs && |docs| - |Flatten(o.batches)| < limit
          && forall i :: 0 <= i < |o.batches| ==> |o.batches[i]| == limit)
  }

  /** Batches the documents produced before the stream ended or failed. On a
      failure the partial batch is never yielded. */
  function Emit(docs: seq<Document>, failure: Option<SyncError>, t: Threshold, batchSize: int): (o: SyncOutcome)
    ensures Batches(o, docs, failure, BatchLimit(t, batchSize))
  {
    var a := Accumulate(docs, t, batchSize, []);
    AccumulateShape(docs, t, batchSize, []);
    if failure.None? then
      FlattenAppend(a.full, a.rest);
      SyncOutcome(a.full + [a.rest], None)
    else
      assert Flatten(a.full) + a.rest == docs;
      SyncOutcome(a.full, failure)
  }

  /** Whatever happens, the batches yielded hold a prefix of the documents. */
  lemma EmittedPrefix(docs: seq<Document>, failure: Option<SyncError>, t: Threshold, batchSize: int)
    ensures Flatten(Emit(docs, failure, t, batchSize).batches) <= docs
  {
  }

  lemma {:induction false} FlattenAppend<T>(bs: seq<seq<T>>, b: seq<T>)
    ensures Flatten(bs + [b]) == Flatten(bs) + b
  {
    if |bs| == 0 {
      assert bs + [b] == [b];
    } else {
      assert (bs + [b])[1..] == bs[1..] + [b];
      FlattenAppend(bs[1..], b);
    }
  }
}
