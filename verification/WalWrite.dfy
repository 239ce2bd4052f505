/** A batch in memory: splitting the buffer at file boundaries and building the two blocks a batch writes. */
module WalWrite {
  import opened Wrappers
  import opened Bytes
  import opened WalFile
  import opened WalBatch
  import opened WalStore
  import opened WalSteps
  import WalLog

  datatype WalError = BadId | BadHeader(fault: HeaderFault) | OverCapacity

  type Buffer = seq<(nat, Data)>

  function BufferPayloads(buffer: Buffer): (ps: seq<Data>)
    ensures |ps| == |buffer| && forall i | 0 <= i < |ps| :: ps[i] == buffer[i].1
  {
    seq(|buffer|, i requires 0 <= i < |buffer| => buffer[i].1)
  }

  function BatchRecs(batch: Buffer, completed: set<nat>): (recs: seq<Record>)
    ensures |recs| == |batch|
    ensures forall i | 0 <= i < |recs| :: recs[i] == Record(batch[i].1, batch[i].0 in completed)
  {
    seq(|batch|, i requires 0 <= i < |batch| => Record(batch[i].1, batch[i].0 in completed))
  }

  /** The buffer is a run of consecutive ids. */
  ghost predicate Consecutive(buffer: Buffer, first: nat) {
    forall i | 0 <= i < |buffer| :: buffer[i].0 == first + i
  }

  lemma BatchRecsStep(batch: Buffer, completed: set<nat>, i: nat)
    requires i < |batch|
    ensures var recs := BatchRecs(batch, completed);
            && recs[..i + 1] == recs[..i] + [Record(batch[i].1, batch[i].0 in completed)]
            && recs[..i + 1][..i] == recs[..i] && |recs[..i + 1]| == i + 1
    ensures Used(BatchRecs(batch, completed)[..i + 1]) == Used(BatchRecs(batch, completed)[..i]) + 4 + |batch[i].1|
    ensures Used(BatchRecs(batch, completed)[..i + 1]) <= Used(BatchRecs(batch, completed))
  {
    UsedUpTo(BatchRecs(batch, completed), i);
  }

  /** Phase 1 of a batch in memory: every payload is checked against the payload area before anything is written. */
  method BuildPayloads(l: Layout, batch: Buffer, startSpace: nat, ghost completed: set<nat>)
    returns (r: Result<(seq<nat>, Data, nat), WalError>)
    requires Packable(l) && startSpace <= l.area
    ensures var recs := BatchRecs(batch, completed);
            && (r.Ok? <==> startSpace + Used(recs) <= l.area) && (r.Err? ==> r.error == OverCapacity)
            && (r.Ok? ==> Fit(recs) && r.value.1 == Frames(recs) && r.value.2 == startSpace + Used(recs))
            && (r.Ok? ==> |r.value.0| == |batch|
                          && forall i | 0 <= i < |batch| :: r.value.0[i] == Block(l) + startSpace + Used(recs[..i]))
  {
    hide Framed, Used;
    ghost var recs := BatchRecs(batch, completed);
    UsedNothing(recs);
    var offsets: seq<nat>, block, used := [], [], startSpace;
    for i := 0 to |batch|
      invariant used == startSpace + Used(recs[..i]) <= l.area
      invariant Fit(recs[..i]) && block == Frames(recs[..i])
      invariant |offsets| == i && forall j | 0 <= j < i :: offsets[j] == Block(l) + startSpace + Used(recs[..j])
    {
      BatchRecsStep(batch, completed, i);
      var payload := batch[i].1;
      if 4 + |payload| > l.area || used + 4 + |payload| > l.area {
        return Err(OverCapacity);
      }
      offsets := offsets + [Block(l) + used];
      block := block + Framed(payload);
      used := used + 4 + |payload|;
    }
    assert recs[..|batch|] == recs;
    return Ok((offsets, block, used));
  }

  lemma UsedNothing(recs: seq<Record>)
    ensures recs[..0] == [] && Used(recs[..0]) == 0
  {}

  /** Phase 2 in memory: the entry headers; an id beyond 63 bits is refused. */
  method BuildEntries(l: Layout, batch: Buffer, offsets: seq<nat>, completed: set<nat>, stamps: seq<Stamp>,
                      ghost first: nat, ghost base: nat) returns (r: Result<Data, WalError>)
    requires Consecutive(batch, first) && |stamps| == |batch| == |offsets|
    requires base + Used(BatchRecs(batch, completed)) < 0x1_0000_0000_0000_0000
    requires forall i | 0 <= i < |batch| :: offsets[i] == base + Used(BatchRecs(batch, completed)[..i])
    ensures r.Ok? <==> first + |batch| <= 0x8000_0000_0000_0000 || batch == []
    ensures r.Err? ==> r.error == BadId
    ensures r.Ok? && batch != [] ==> r.value == Entries(first, BatchRecs(batch, completed), stamps, base)
  {
    hide EntryBytes, Used, Entries, BatchRecs;
    ghost var recs := BatchRecs(batch, completed);
    UsedNothing(recs);
    var block := [];
    for i := 0 to |batch|
      invariant i > 0 ==> first + i <= MAX_TX + 1 && base + Used(recs[..i]) < 0x1_0000_0000_0000_0000
      invariant block == if i == 0 then [] else Entries(first, recs[..i], stamps[..i], base)
    {
      BatchRecsStep(batch, completed, i);
      EntriesStep(first, recs, stamps, base, i);
      if batch[i].0 > MAX_TX {
        return Err(BadId);
      }
      block := block + EntryBytes(batch[i].0, stamps[i], batch[i].0 in completed, offsets[i]);
    }
    assert recs[..|batch|] == recs && stamps[..|batch|] == stamps;
    return Ok(block);
  }

  lemma EntriesStep(first: nat, recs: seq<Record>, stamps: seq<Stamp>, base: nat, i: nat)
    requires |stamps| == |recs| && i < |recs| && base + Used(recs[..i + 1]) < 0x1_0000_0000_0000_0000
    requires Used(recs[..i]) <= Used(recs[..i + 1])
    ensures first + i <= MAX_TX ==>
              Entries(first, recs[..i + 1], stamps[..i + 1], base)
              == (if i == 0 then [] else Entries(first, recs[..i], stamps[..i], base))
                 + EntryBytes(first + i, stamps[i], recs[i].done, base + Used(recs[..i]))
  {
    hide EntryBytes, Used;
    assert stamps[..i + 1][..i] == stamps[..i] && recs[..i + 1][..i] == recs[..i];
    if i == 0 && first <= MAX_TX {
      assert recs[..0] == [] && stamps[..0] == [];
      assert Entries(first, recs[..0], stamps[..0], base) == [];
    }
  }

  // ---------------------------------------------------------------------------------------
  // Splitting a buffer at file boundaries

  function Flat(batches: seq<Buffer>): Buffer {
    if batches == [] then [] else Flat(batches[..|batches| - 1]) + batches[|batches| - 1]
  }

  ghost predicate OneFile(l: Layout, batch: Buffer)
    requires l.cap > 0
  {
    batch != [] && forall i | 0 <= i < |batch| :: FileOf(l, batch[i].0) == FileOf(l, batch[0].0)
  }

  /** No two batches go to the same file. */
  ghost predicate OnePerFile(l: Layout, batches: seq<Buffer>)
    requires l.cap > 0
  {
    forall j, k | 0 <= j < k < |batches| ::
      batches[j] != [] && batches[k] != [] && FileOf(l, batches[j][0].0) != FileOf(l, batches[k][0].0)
  }

  /** `batches` hold `sofar`, one batch per file in order of first appearance; `place` finds a file's batch. */
  ghost predicate Grouped(l: Layout, batches: seq<Buffer>, place: map<nat, nat>, sofar: Buffer)
    requires l.cap > 0
  {
    && Flat(batches) == sofar
    && (forall k | 0 <= k < |batches| :: OneFile(l, batches[k]))
    && (forall f | f in place :: place[f] < |batches| && FileOf(l, batches[place[f]][0].0) == f)
    && (forall k | 0 <= k < |batches| :: FileOf(l, batches[k][0].0) in place && place[FileOf(l, batches[k][0].0)] == k)
    && (sofar != [] ==> batches != [] && FileOf(l, batches[|batches| - 1][0].0) == FileOf(l, sofar[|sofar| - 1].0))
    && (forall f | f in place :: sofar != [] && f <= FileOf(l, sofar[|sofar| - 1].0))
  }

  /** With ascending ids the batch of an entry's file, if there is one, is the last. */
  lemma GroupStep(l: Layout, batches: seq<Buffer>, place: map<nat, nat>, sofar: Buffer, e: (nat, Data))
    requires l.cap > 0 && Grouped(l, batches, place, sofar)
    requires sofar != [] ==> sofar[|sofar| - 1].0 <= e.0
    ensures var f := FileOf(l, e.0);
            if f in place
            then Grouped(l, batches[place[f] := batches[place[f]] + [e]], place, sofar + [e])
            else Grouped(l, batches + [[e]], place[f := |batches|], sofar + [e])
  {
    hide FileOf, Flat;
    var f := FileOf(l, e.0);
    if sofar != [] { FilesAscend(l, sofar[|sofar| - 1].0, e.0); }
    if f in place {
      assert f == FileOf(l, batches[|batches| - 1][0].0);
      FlatExtend(batches, e);
    } else {
      FlatPush(batches, e);
    }
  }

  lemma FlatExtend(batches: seq<Buffer>, e: (nat, Data))
    requires batches != []
    ensures var last := |batches| - 1; Flat(batches[last := batches[last] + [e]]) == Flat(batches) + [e]
  {
    var last := |batches| - 1;
    assert batches[last := batches[last] + [e]][..last] == batches[..last];
  }

  lemma FlatPush(batches: seq<Buffer>, e: (nat, Data))
    ensures Flat(batches + [[e]]) == Flat(batches) + [e]
  {
    assert (batches + [[e]])[..|batches|] == batches;
  }

  /** `file_batches`. */
  method SplitByFile(l: Layout, buffer: Buffer, ghost first: nat) returns (batches: seq<Buffer>)
    requires l.cap > 0 && Consecutive(buffer, first)
    ensures Flat(batches) == buffer
    ensures forall k | 0 <= k < |batches| :: OneFile(l, batches[k])
    ensures OnePerFile(l, batches)
  {
    hide FileOf, Flat;
    batches := [];
    var place: map<nat, nat> := map[];
    FlatNothing();
    for i := 0 to |buffer|
      invariant Grouped(l, batches, place, buffer[..i])
    {
      var f := FileOf(l, buffer[i].0);
      GroupStep(l, batches, place, buffer[..i], buffer[i]);
      assert buffer[..i + 1] == buffer[..i] + [buffer[i]];
      if f in place {
        batches := batches[place[f] := batches[place[f]] + [buffer[i]]];
      } else {
        place := place[f := |batches|];
        batches := batches + [[buffer[i]]];
      }
    }
    assert buffer[..|buffer|] == buffer;
  }

  /** A batch's place in the buffer it was split from. */
  lemma {:induction false} FlatAt(batches: seq<Buffer>, k: nat)
    requires k < |batches|
    ensures var at := |Flat(batches[..k])|;
            && |Flat(batches[..k + 1])| == at + |batches[k]| <= |Flat(batches)|
            && Flat(batches)[at..at + |batches[k]|] == batches[k]
    decreases |batches|
  {
    var n := |batches| - 1;
    if k < n {
      FlatAt(batches[..n], k);
      assert batches[..n][..k] == batches[..k] && batches[..n][..k + 1] == batches[..k + 1];
      var at := |Flat(batches[..k])|;
      assert Flat(batches)[at..at + |batches[k]|] == Flat(batches[..n])[at..at + |batches[k]|];
    } else {
      assert batches[..k + 1] == batches;
    }
  }

  lemma FlatNothing()
    ensures Flat([]) == []
  {}

  lemma FilesAscend(l: Layout, a: nat, b: nat)
    requires l.cap > 0 && a <= b
    ensures FileOf(l, a) <= FileOf(l, b)
  {
    hide FirstTx;
    Address(l, a, FileOf(l, a), SlotOf(l, a));
    Address(l, b, FileOf(l, b), SlotOf(l, b));
    if FileOf(l, b) < FileOf(l, a) {
      FirstTxMono(l, FileOf(l, b) + 1, FileOf(l, a));
      FirstTxMono(l, FileOf(l, b), FileOf(l, b));
    }
  }

  /** A batch of one file fits the slots from its first one on. */
  lemma OneFileSlots(l: Layout, batch: Buffer, first: nat)
    requires l.cap > 0 && OneFile(l, batch) && Consecutive(batch, first)
    ensures SlotOf(l, first) + |batch| <= l.cap
  {
    hide FirstTx, FileOf, SlotOf;
    var last := first + |batch| - 1;
    assert batch[|batch| - 1].0 == last && batch[0].0 == first;
    Address(l, first, FileOf(l, first), SlotOf(l, first));
    Address(l, last, FileOf(l, last), SlotOf(l, last));
  }
}
