/**
 Transaction reconstruction over `$LogFile` records (core/src/logfile/transactions.rs).

 `Reconstruct` is the meaning of the loops for one iteration order of the slot table; hash order
 is any duplicate-free enumeration of the slots.
 */
module Transactions {
  import opened Bytes
  import opened LogFile
  import opened SeqSort

  datatype TransactionState = Committed | Aborted | Incomplete

  datatype Transaction = Transaction(
    transactionId: nat, records: seq<nat>, lsns: seq<nat>, operations: seq<FileOperation>, state: TransactionState)

  /** The label `classify` gives a record; its table is not part of this model. */
  datatype FileOperation = FileOperation(kind: nat)

  type Classify = (LogOp, LogOp) -> FileOperation

  predicate IsTerminal(op: LogOp) {
    op.CommitTransaction? || op.ForgetTransaction?
  }

  // ----- Cutting a stream at its terminals -----

  datatype Segment<T> = Segment(run: seq<T>, state: TransactionState)

  function OpenState(compensated: bool): TransactionState {
    if compensated then Aborted else Incomplete
  }

  /** The runs of `stream`, the first of them already begun with `run`. */
  function Split<T>(op: T -> LogOp, stream: seq<T>, run: seq<T>, compensated: bool): seq<Segment<T>>
    decreases |stream|
  {
    if stream == [] then
      if run == [] then [] else [Segment(run, OpenState(compensated))]
    else
      var longer := run + [stream[0]];
      var o := op(stream[0]);
      if IsTerminal(o) then [Segment(longer, Committed)] + Split(op, stream[1..], [], false)
      else Split(op, stream[1..], longer, compensated || o.CompensationLogRecord?)
  }

  function RunOf<T>(): Segment<T> -> seq<T> {
    (s: Segment<T>) => s.run
  }

  // ----- The pipeline on record indices -----

  const NO_RECORD := LogRecord(0, 0, 0, 0, 0, 0, Other(0), Other(0), 0, 0, 0)

  function RecordAt(records: seq<LogRecord>, i: nat): LogRecord {
    if i < |records| then records[i] else NO_RECORD
  }

  function RecordsAt(records: seq<LogRecord>): nat -> LogRecord {
    (i: nat) => RecordAt(records, i)
  }

  function RedoOf(records: seq<LogRecord>): nat -> LogOp {
    (i: nat) => RecordAt(records, i).redoOp
  }

  function LsnOf(records: seq<LogRecord>): nat -> int {
    (i: nat) => RecordAt(records, i).thisLsn
  }

  function InSlot(records: seq<LogRecord>, slot: nat): nat -> bool {
    (i: nat) => i < |records| && records[i].transactionId == slot
  }

  function Range(n: nat): (r: seq<nat>)
    ensures |r| == n && forall i :: 0 <= i < n ==> r[i] == i
  {
    seq(n, i => i)
  }

  function SlotIndices(records: seq<LogRecord>, slot: nat, n: nat): seq<nat> {
    Filter(InSlot(records, slot), Range(n))
  }

  /** One slot's record indices in LSN order. */
  function Stream(records: seq<LogRecord>, slot: nat): seq<nat> {
    Sort(LsnOf(records), SlotIndices(records, slot, |records|))
  }

  function Build(c: Classify, records: seq<LogRecord>, slot: nat, run: seq<nat>, state: TransactionState): Transaction {
    Transaction(slot, run,
      seq(|run|, k requires 0 <= k < |run| => RecordAt(records, run[k]).thisLsn),
      seq(|run|, k requires 0 <= k < |run| =>
        c(RecordAt(records, run[k]).redoOp, RecordAt(records, run[k]).undoOp)),
      state)
  }

  function Builder(c: Classify, records: seq<LogRecord>, slot: nat): Segment<nat> -> Transaction {
    (s: Segment<nat>) => Build(c, records, slot, s.run, s.state)
  }

  function SlotTransactions(c: Classify, records: seq<LogRecord>, slot: nat): seq<Transaction> {
    Map(Builder(c, records, slot), Split(RedoOf(records), Stream(records, slot), [], false))
  }

  function AllTransactions(c: Classify, records: seq<LogRecord>, order: seq<nat>): seq<Transaction> {
    if order == [] then [] else AllTransactions(c, records, Init(order)) + SlotTransactions(c, records, Last(order))
  }

  function FirstLsn(): Transaction -> int {
    (t: Transaction) => if t.lsns == [] then U64_MAX else t.lsns[0]
  }

  function Reconstruct(c: Classify, records: seq<LogRecord>, order: seq<nat>): seq<Transaction> {
    Sort(FirstLsn(), AllTransactions(c, records, order))
  }

  ghost predicate HasSlot(records: seq<LogRecord>, slot: nat) {
    exists i :: 0 <= i < |records| && records[i].transactionId == slot
  }

  /** A possible iteration order of the slot table. */
  ghost predicate IsSlotOrder(records: seq<LogRecord>, order: seq<nat>) {
    && (forall i, j :: 0 <= i < j < |order| ==> order[i] != order[j])
    && (forall slot :: slot in order <==> HasSlot(records, slot))
  }

  ghost predicate InRange(records: seq<LogRecord>, indices: seq<nat>) {
    forall k :: 0 <= k < |indices| ==> indices[k] < |records|
  }

  // ----- The loops -----

  method BuildTransaction(c: Classify, transactionId: nat, recordsIdx: seq<nat>, all: seq<LogRecord>,
                             state: TransactionState)
    returns (t: Transaction)
    requires InRange(all, recordsIdx)
    ensures t == Build(c, all, transactionId, recordsIdx, state)
  {
    var lsns, operations := [], [];
    for k := 0 to |recordsIdx|
      invariant |lsns| == k && |operations| == k
      invariant forall j :: 0 <= j < k ==> lsns[j] == RecordAt(all, recordsIdx[j]).thisLsn
      invariant forall j :: 0 <= j < k ==>
                  operations[j] == c(RecordAt(all, recordsIdx[j]).redoOp, RecordAt(all, recordsIdx[j]).undoOp)
    {
      var i := recordsIdx[k];
      lsns := lsns + [all[i].thisLsn];
      operations := operations + [c(all[i].redoOp, all[i].undoOp)];
    }
    t := Transaction(transactionId, recordsIdx, lsns, operations, state);
    assert t.operations == Build(c, all, transactionId, recordsIdx, state).operations;
  }

  lemma MapSnoc<S(!new), T(!new)>(f: S -> T, s: seq<S>, x: S)
    ensures Map(f, s + [x]) == Map(f, s) + [f(x)]
  {
  }

  lemma {:induction false} SplitStep<T(!new)>(op: T -> LogOp, stream: seq<T>, k: nat, run: seq<T>, compensated: bool)
    requires k < |stream|
    ensures
      var o := op(stream[k]);
      var longer := run + [stream[k]];
      Split(op, stream[k..], run, compensated) ==
      if IsTerminal(o) then [Segment(longer, Committed)] + Split(op, stream[k + 1..], [], false)
      else Split(op, stream[k + 1..], longer, compensated || o.CompensationLogRecord?)
  {
    assert stream[k..][1..] == stream[k + 1..];
  }

  /** The inner loop: one slot's sorted indices cut into transactions. */
  method SplitSlot(c: Classify, records: seq<LogRecord>, slot: nat, indices: seq<nat>)
    returns (txns: seq<Transaction>)
    requires InRange(records, indices)
    ensures txns == Map(Builder(c, records, slot), Split(RedoOf(records), indices, [], false))
  {
    ghost var segments: seq<Segment<nat>> := [];
    ghost var goal := Split(RedoOf(records), indices, [], false);
    txns := [];
    var run: seq<nat> := [];
    var compensated := false;
    for k := 0 to |indices|
      invariant InRange(records, run)
      invariant goal == segments + Split(RedoOf(records), indices[k..], run, compensated)
      invariant txns == Map(Builder(c, records, slot), segments)
    {
      var i := indices[k];
      SplitStep(RedoOf(records), indices, k, run, compensated);
      run := run + [i];
      var redo := records[i].redoOp;
      if redo.CommitTransaction? || redo.ForgetTransaction? {
        var t := BuildTransaction(c, slot, run, records, Committed);
        MapSnoc(Builder(c, records, slot), segments, Segment(run, Committed));
        txns := txns + [t];
        ghost var rest := Split(RedoOf(records), indices[k + 1..], [], false);
        assert segments + ([Segment(run, Committed)] + rest) == segments + [Segment(run, Committed)] + rest;
        segments := segments + [Segment(run, Committed)];
        run := [];
        compensated := false;
      } else if redo.CompensationLogRecord? {
        compensated := true;
      }
    }
    if run != [] {
      var state := if compensated then Aborted else Incomplete;
      var t := BuildTransaction(c, slot, run, records, state);
      MapSnoc(Builder(c, records, slot), segments, Segment(run, state));
      txns := txns + [t];
      segments := segments + [Segment(run, state)];
    }
    assert goal == segments;
  }

  ghost predicate IsSlotTable(records: seq<LogRecord>, n: nat, slots: map<nat, seq<nat>>)
    requires n <= |records|
  {
    && (forall slot :: slot in slots <==> HasSlot(records[..n], slot))
    && (forall slot :: slot in slots ==> slots[slot] == SlotIndices(records, slot, n))
  }

  lemma SlotIndicesStep(records: seq<LogRecord>, slot: nat, n: nat)
    requires n < |records|
    ensures SlotIndices(records, slot, n + 1) ==
            if records[n].transactionId == slot then SlotIndices(records, slot, n) + [n]
            else SlotIndices(records, slot, n)
    ensures HasSlot(records[..n + 1], slot) <==> records[n].transactionId == slot || HasSlot(records[..n], slot)
    ensures !HasSlot(records[..n], slot) ==> SlotIndices(records, slot, n) == []
  {
    assert Init(Range(n + 1)) == Range(n);
    assert forall i :: 0 <= i < n ==> records[..n + 1][i] == records[..n][i];
    assert records[..n + 1][n] == records[n];
    if HasSlot(records[..n + 1], slot) && records[n].transactionId != slot {
      var i :| 0 <= i < n + 1 && records[..n + 1][i].transactionId == slot;
      assert records[..n][i].transactionId == slot;
    }
    if !HasSlot(records[..n], slot) {
      forall i | i in Range(n)
        ensures !InSlot(records, slot)(i)
      {
        assert records[..n][i] == records[i];
      }
      FilterNone(InSlot(records, slot), Range(n));
    }
  }

  method CollectSlots(records: seq<LogRecord>) returns (slots: map<nat, seq<nat>>)
    ensures IsSlotTable(records, |records|, slots)
  {
    slots := map[];
    for n := 0 to |records|
      invariant IsSlotTable(records, n, slots)
    {
      ghost var before := slots;
      var slot := records[n].transactionId;
      var indices := if slot in slots then slots[slot] else [];
      slots := slots[slot := indices + [n]];
      forall s: nat
        ensures s in slots <==> HasSlot(records[..n + 1], s)
        ensures s in slots ==> slots[s] == SlotIndices(records, s, n + 1)
      {
        SlotIndicesStep(records, s, n);
        assert s in before <==> HasSlot(records[..n], s);
      }
    }
  }

  lemma StreamMembers(records: seq<LogRecord>, slot: nat)
    ensures InRange(records, Stream(records, slot))
    ensures forall i: nat :: i in Stream(records, slot) <==> i < |records| && records[i].transactionId == slot
  {
    var indices := SlotIndices(records, slot, |records|);
    SortMembers(LsnOf(records), indices);
    forall i: nat
      ensures i in indices <==> i < |records| && records[i].transactionId == slot
    {
      assert i < |records| ==> Range(|records|)[i] == i;
    }
    forall k | 0 <= k < |Stream(records, slot)|
      ensures Stream(records, slot)[k] < |records|
    {
      assert Stream(records, slot)[k] in Stream(records, slot);
    }
  }

  /** Sorts one slot's indices and cuts them. */
  method CutSlot(c: Classify, records: seq<LogRecord>, slots: map<nat, seq<nat>>, slot: nat)
    returns (txns: seq<Transaction>)
    requires IsSlotTable(records, |records|, slots) && slot in slots
    ensures txns == SlotTransactions(c, records, slot)
  {
    StreamMembers(records, slot);
    var indices := Sort(LsnOf(records), slots[slot]);
    txns := SplitSlot(c, records, slot, indices);
  }

  /** The transactions, for the order in which the slot table happens to be walked. */
  method ReconstructTransactions(c: Classify, records: seq<LogRecord>) returns (txns: seq<Transaction>)
    ensures exists order :: IsSlotOrder(records, order) && txns == Reconstruct(c, records, order)
  {
    var slots := CollectSlots(records);
    assert records[..|records|] == records;
    txns := [];
    ghost var order: seq<nat> := [];
    var left := slots.Keys;
    while left != {}
      invariant left <= slots.Keys && Walked(order, slots.Keys - left)
      invariant txns == AllTransactions(c, records, order)
      decreases left
    {
      var slot :| slot in left;
      WalkedStep(order, slots.Keys, left, slot);
      left := left - {slot};
      var cut := CutSlot(c, records, slots, slot);
      AllTransactionsSnoc(c, records, order, slot);
      order := order + [slot];
      txns := txns + cut;
    }
    txns := Sort(FirstLsn(), txns);
    assert slots.Keys - {} == slots.Keys;
    assert IsSlotOrder(records, order);
  }

  /** Each slot of the set, once. */
  ghost predicate Walked(order: seq<nat>, slots: set<nat>) {
    && (forall i, j :: 0 <= i < j < |order| ==> order[i] != order[j])
    && forall slot :: slot in order <==> slot in slots
  }

  lemma WalkedStep(order: seq<nat>, slots: set<nat>, left: set<nat>, slot: nat)
    requires slot in left && left <= slots && Walked(order, slots - left)
    ensures Walked(order + [slot], slots - (left - {slot}))
  {
  }

  lemma {:induction false} AllTransactionsSnoc(c: Classify, records: seq<LogRecord>, order: seq<nat>, slot: nat)
    ensures AllTransactions(c, records, order + [slot]) ==
            AllTransactions(c, records, order) + SlotTransactions(c, records, slot)
  {
    assert Init(order + [slot]) == order;
  }
}
