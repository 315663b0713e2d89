/** Reconstruction does not depend on record order or hash order, and is stable as the log grows. */
module TransactionOrder {
  import opened LogFile
  import opened SeqSort
  import opened Transactions
  import opened TransactionFacts

  ghost predicate DistinctLsns(records: seq<LogRecord>) {
    forall i, j :: 0 <= i < j < |records| ==> records[i].thisLsn != records[j].thisLsn
  }

  /** A transaction without the record indices: slot, LSNs, operations and state. */
  function View(): Transaction -> Transaction {
    (t: Transaction) => t.(records := [])
  }

  // ----- The pipeline on the records themselves -----

  function Redo(): LogRecord -> LogOp {
    (r: LogRecord) => r.redoOp
  }

  function Lsn(): LogRecord -> int {
    (r: LogRecord) => r.thisLsn
  }

  function OfSlot(slot: nat): LogRecord -> bool {
    (r: LogRecord) => r.transactionId == slot
  }

  function RecordStream(records: seq<LogRecord>, slot: nat): seq<LogRecord> {
    Sort(Lsn(), Filter(OfSlot(slot), records))
  }

  function ViewRun(c: Classify, slot: nat, run: seq<LogRecord>, state: TransactionState): Transaction {
    Transaction(slot, [],
      seq(|run|, k requires 0 <= k < |run| => run[k].thisLsn),
      seq(|run|, k requires 0 <= k < |run| => c(run[k].redoOp, run[k].undoOp)),
      state)
  }

  function ViewBuilder(c: Classify, slot: nat): Segment<LogRecord> -> Transaction {
    (s: Segment<LogRecord>) => ViewRun(c, slot, s.run, s.state)
  }

  function SlotViews(c: Classify, records: seq<LogRecord>, slot: nat): seq<Transaction> {
    Map(ViewBuilder(c, slot), Split(Redo(), RecordStream(records, slot), [], false))
  }

  function MapSegment<S, T>(f: S -> T): Segment<S> -> Segment<T> {
    (s: Segment<S>) => Segment(Map(f, s.run), s.state)
  }

  lemma {:induction false} MapSplit<S(!new), T(!new)>(f: S -> T, op: T -> LogOp, opS: S -> LogOp, stream: seq<S>,
                                                      run: seq<S>, compensated: bool)
    requires forall x :: opS(x) == op(f(x))
    ensures Split(op, Map(f, stream), Map(f, run), compensated) ==
            Map(MapSegment(f), Split(opS, stream, run, compensated))
    decreases |stream|
  {
    if stream != [] {
      var x, rest := stream[0], stream[1..];
      assert Map(f, stream)[1..] == Map(f, rest);
      MapSnoc(f, run, x);
      if IsTerminal(opS(x)) {
        MapSplit(f, op, opS, rest, [], false);
        assert Map(f, []) == [];
      } else {
        MapSplit(f, op, opS, rest, run + [x], compensated || opS(x).CompensationLogRecord?);
      }
    }
  }

  lemma SlotRecords(records: seq<LogRecord>, slot: nat, n: nat)
    requires n <= |records|
    ensures Map(RecordsAt(records), SlotIndices(records, slot, n)) == Filter(OfSlot(slot), records[..n])
  {
    if n > 0 {
      var m: nat := n - 1;
      SlotRecords(records, slot, m);
      SlotIndicesStep(records, slot, m);
      assert Init(records[..n]) == records[..m] && Last(records[..n]) == records[m];
      MapSnoc(RecordsAt(records), SlotIndices(records, slot, m), m);
    }
  }

  /** Without indices, a slot's transactions are a function of its records alone. */
  lemma ViewsOfSlot(c: Classify, records: seq<LogRecord>, slot: nat)
    ensures Map(View(), SlotTransactions(c, records, slot)) == SlotViews(c, records, slot)
  {
    var f := RecordsAt(records);
    var indices := SlotIndices(records, slot, |records|);
    SlotRecords(records, slot, |records|);
    assert records[..|records|] == records;
    MapSort(f, Lsn(), LsnOf(records), indices);
    var stream := Stream(records, slot);
    assert Map(f, stream) == RecordStream(records, slot);
    MapSplit(f, Redo(), RedoOf(records), stream, [], false);
    assert Map(f, []) == [];
    var segments := Split(RedoOf(records), stream, [], false);
    forall k | 0 <= k < |segments|
      ensures View()(Builder(c, records, slot)(segments[k])) == ViewBuilder(c, slot)(MapSegment(f)(segments[k]))
    {
      var a := View()(Builder(c, records, slot)(segments[k]));
      var b := ViewBuilder(c, slot)(MapSegment(f)(segments[k]));
      assert a.lsns == b.lsns && a.operations == b.operations;
    }
  }

  // ----- Independence of record order and hash order -----

  lemma DistinctIdentifies(records: seq<LogRecord>)
    requires DistinctLsns(records)
    ensures KeyIdentifies(Lsn(), records)
  {
  }

  lemma SlotViewsOfMultiset(c: Classify, a: seq<LogRecord>, b: seq<LogRecord>, slot: nat)
    requires multiset(a) == multiset(b) && DistinctLsns(a)
    ensures SlotViews(c, a, slot) == SlotViews(c, b, slot)
  {
    var fa, fb := Filter(OfSlot(slot), a), Filter(OfSlot(slot), b);
    forall r: LogRecord
      ensures multiset(fa)[r] == multiset(fb)[r]
    {
      FilterMultiset(OfSlot(slot), a, r);
      FilterMultiset(OfSlot(slot), b, r);
    }
    assert multiset(fa) == multiset(fb);
    DistinctIdentifies(a);
    assert KeyIdentifies(Lsn(), fa);
    SortUnique(Lsn(), fa, fb);
  }

  lemma OccursTwice(ts: seq<Transaction>, a: nat, b: nat, i: nat)
    requires a < b < |ts| && i in ts[a].records && i in ts[b].records
    ensures Occurrences(ts, i) >= 2
  {
    assert ts == ts[..b] + ts[b..];
    OccurrencesConcat(ts[..b], ts[b..], i);
    OccursOnce(ts[..b], a, i);
    OccursOnce(ts[b..], 0, i);
  }

  lemma OccursOnce(ts: seq<Transaction>, a: nat, i: nat)
    requires a < |ts| && i in ts[a].records
    ensures Occurrences(ts, i) >= 1
  {
    FlattenMembers(Map(RecordsOf(), ts), i);
    assert i in Map(RecordsOf(), ts)[a];
  }

  predicate StartsBefore(t: Transaction, u: Transaction) {
    t.lsns != [] && u.lsns != [] && t.lsns[0] < u.lsns[0]
  }

  ghost predicate FirstLsnsIncrease(ts: seq<Transaction>) {
    forall a, b :: 0 <= a < b < |ts| ==> StartsBefore(ts[a], ts[b])
  }

  /** The output is strictly ordered by the first LSN of each transaction. */
  lemma OutputStrict(c: Classify, records: seq<LogRecord>, order: seq<nat>)
    requires IsSlotOrder(records, order) && DistinctLsns(records)
    ensures Strict(FirstLsn(), Reconstruct(c, records, order))
    ensures Strict(FirstLsn(), Map(View(), Reconstruct(c, records, order)))
    ensures FirstLsnsIncrease(Reconstruct(c, records, order))
  {
    var out := Reconstruct(c, records, order);
    SortSorts(FirstLsn(), AllTransactions(c, records, order));
    forall a, b | 0 <= a < b < |out|
      ensures FirstLsn()(out[a]) < FirstLsn()(out[b])
      ensures StartsBefore(out[a], out[b])
    {
      EveryTransactionWellCut(c, records, order, out[a]);
      EveryTransactionWellCut(c, records, order, out[b]);
      var i, j := out[a].records[0], out[b].records[0];
      if records[i].thisLsn == records[j].thisLsn {
        assert i == j;
        OccursTwice(out, a, b, i);
        EveryRecordOnce(c, records, order, i);
        assert false;
      }
    }
  }

  lemma ViewMembership(c: Classify, records: seq<LogRecord>, order: seq<nat>, v: Transaction)
    ensures v in Map(View(), Reconstruct(c, records, order)) <==>
            v.transactionId in order && v in SlotViews(c, records, v.transactionId)
  {
    var slot := v.transactionId;
    ViewsOfSlot(c, records, slot);
    forall t: Transaction | t.transactionId == slot
      ensures t in Reconstruct(c, records, order) <==> slot in order && t in SlotTransactions(c, records, slot)
    {
      Membership(c, records, order, t);
    }
    SameSlotSameViews(Reconstruct(c, records, order), SlotTransactions(c, records, slot), slot in order, v);
  }

  lemma SameSlotSameViews(out: seq<Transaction>, ts: seq<Transaction>, known: bool, v: Transaction)
    requires forall t: Transaction :: t.transactionId == v.transactionId ==> (t in out <==> known && t in ts)
    ensures v in Map(View(), out) <==> known && v in Map(View(), ts)
  {
    MapMembers(View(), out, v);
    MapMembers(View(), ts, v);
  }

  lemma DistinctUnderPermutation(a: seq<LogRecord>, b: seq<LogRecord>)
    requires multiset(a) == multiset(b) && DistinctLsns(a)
    ensures DistinctLsns(b)
  {
    forall i, j | 0 <= i < j < |b|
      ensures b[i].thisLsn != b[j].thisLsn
    {
      if b[i].thisLsn == b[j].thisLsn {
        SameMembers(a, b, b[i]);
        SameMembers(a, b, b[j]);
        DistinctIdentifies(a);
        assert b[i] == b[j];
        CountTwo(b, b[i]);
        CountTwo(a, b[i]);
        assert false;
      }
    }
  }

  lemma SlotsOfMultiset(a: seq<LogRecord>, b: seq<LogRecord>, slot: nat)
    requires multiset(a) == multiset(b) && HasSlot(a, slot)
    ensures HasSlot(b, slot)
  {
    var i :| 0 <= i < |a| && a[i].transactionId == slot;
    SameMembers(a, b, a[i]);
    assert a[i] in b;
  }

  /**
   With pairwise distinct LSNs, permuting the records and walking the slot table in any other
   order gives the same transactions in the same order.
   */
  lemma OrderIndependent(c: Classify, a: seq<LogRecord>, b: seq<LogRecord>, orderA: seq<nat>, orderB: seq<nat>)
    requires multiset(a) == multiset(b) && DistinctLsns(a)
    requires IsSlotOrder(a, orderA) && IsSlotOrder(b, orderB)
    ensures Map(View(), Reconstruct(c, a, orderA)) == Map(View(), Reconstruct(c, b, orderB))
  {
    DistinctUnderPermutation(a, b);
    OutputStrict(c, a, orderA);
    OutputStrict(c, b, orderB);
    var va, vb := Map(View(), Reconstruct(c, a, orderA)), Map(View(), Reconstruct(c, b, orderB));
    forall v: Transaction
      ensures v in va <==> v in vb
    {
      ViewMembership(c, a, orderA, v);
      ViewMembership(c, b, orderB, v);
      SlotViewsOfMultiset(c, a, b, v.transactionId);
      if HasSlot(a, v.transactionId) {
        SlotsOfMultiset(a, b, v.transactionId);
      }
      if HasSlot(b, v.transactionId) {
        SlotsOfMultiset(b, a, v.transactionId);
      }
    }
    StrictUnique(FirstLsn(), va, vb);
  }

  // ----- Stability as the log grows -----

  lemma {:induction false} CommittedPrefix<T(!new)>(op: T -> LogOp, longOp: T -> LogOp, a: seq<T>, b: seq<T>,
                                                    run: seq<T>, compensated: bool, s: Segment<T>)
    requires forall x :: x in a ==> op(x) == longOp(x)
    requires s in Split(op, a, run, compensated) && s.state == Committed
    ensures s in Split(longOp, a + b, run, compensated)
    decreases |a|
  {
    if a != [] {
      var x := a[0];
      assert (a + b)[0] == x && (a + b)[1..] == a[1..] + b;
      if IsTerminal(op(x)) {
        if s != Segment(run + [x], Committed) {
          CommittedPrefix(op, longOp, a[1..], b, [], false, s);
        }
      } else {
        CommittedPrefix(op, longOp, a[1..], b, run + [x], compensated || op(x).CompensationLogRecord?, s);
      }
    }
  }

  ghost predicate LaterThan(records: seq<LogRecord>, extra: seq<LogRecord>) {
    forall i, j :: 0 <= i < |records| && 0 <= j < |extra| ==> records[i].thisLsn <= extra[j].thisLsn
  }

  /** A slot's stream only grows at its end. */
  lemma StreamGrows(records: seq<LogRecord>, extra: seq<LogRecord>, slot: nat)
    returns (later: seq<nat>)
    requires LaterThan(records, extra)
    ensures Stream(records + extra, slot) == Stream(records, slot) + later
  {
    var all, n := records + extra, |records|;
    var front, back := Range(n), Range(|all|)[n..];
    assert Range(|all|) == front + back;
    FilterConcat(InSlot(all, slot), front, back);
    FilterAgrees(InSlot(records, slot), InSlot(all, slot), front);
    var a, b := SlotIndices(records, slot, n), Filter(InSlot(all, slot), back);
    LaterSorted(records, extra, a, b);
    SortAppend(LsnOf(all), a, b);
    SortAgrees(LsnOf(records), LsnOf(all), a);
    later := Sort(LsnOf(all), b);
  }

  lemma LaterSorted(records: seq<LogRecord>, extra: seq<LogRecord>, a: seq<nat>, b: seq<nat>)
    requires LaterThan(records, extra)
    requires forall x :: x in a ==> x < |records|
    requires forall y :: y in b ==> |records| <= y < |records + extra|
    ensures forall x, y :: x in a && y in b ==> LsnOf(records + extra)(x) <= LsnOf(records + extra)(y)
    ensures forall x :: x in a ==> LsnOf(records)(x) == LsnOf(records + extra)(x)
  {
    var all, n := records + extra, |records|;
    forall x, y | x in a && y in b
      ensures LsnOf(all)(x) <= LsnOf(all)(y)
    {
      assert all[x] == records[x] && all[y] == extra[y - n];
    }
    forall x | x in a
      ensures LsnOf(records)(x) == LsnOf(all)(x)
    {
      assert all[x] == records[x];
    }
  }

  lemma SameBuild(c: Classify, records: seq<LogRecord>, extra: seq<LogRecord>, slot: nat, s: Segment<nat>)
    requires InRange(records, s.run)
    ensures Builder(c, records, slot)(s) == Builder(c, records + extra, slot)(s)
  {
    var t, u := Builder(c, records, slot)(s), Builder(c, records + extra, slot)(s);
    assert forall k :: 0 <= k < |s.run| ==> RecordAt(records, s.run[k]) == RecordAt(records + extra, s.run[k]);
    assert u.lsns == t.lsns && u.operations == t.operations;
  }

  lemma SlotPersists(records: seq<LogRecord>, extra: seq<LogRecord>, slot: nat)
    requires HasSlot(records, slot)
    ensures HasSlot(records + extra, slot)
  {
    var i :| 0 <= i < |records| && records[i].transactionId == slot;
    assert (records + extra)[i] == records[i];
  }

  lemma CommittedInSlot(c: Classify, records: seq<LogRecord>, extra: seq<LogRecord>, slot: nat, t: Transaction)
    requires LaterThan(records, extra)
    requires t in SlotTransactions(c, records, slot) && t.state == Committed
    ensures t in SlotTransactions(c, records + extra, slot)
  {
    var all, stream := records + extra, Stream(records, slot);
    var segments := Split(RedoOf(records), stream, [], false);
    var m :| 0 <= m < |segments| && Builder(c, records, slot)(segments[m]) == t;
    var later := StreamGrows(records, extra, slot);
    StreamMembers(records, slot);
    CommittedPrefix(RedoOf(records), RedoOf(all), stream, later, [], false, segments[m]);
    var longer := Split(RedoOf(all), Stream(all, slot), [], false);
    var k :| 0 <= k < |longer| && longer[k] == segments[m];
    SlotTransactionsFacts(c, records, slot);
    assert InRange(records, t.records);
    SameBuild(c, records, extra, slot, segments[m]);
    assert SlotTransactions(c, all, slot)[k] == t;
  }

  /** Records that come later in LSN order leave every committed transaction as it was. */
  lemma CommittedIsStable(c: Classify, records: seq<LogRecord>, extra: seq<LogRecord>, order: seq<nat>,
                          newOrder: seq<nat>, t: Transaction)
    requires LaterThan(records, extra)
    requires IsSlotOrder(records, order) && IsSlotOrder(records + extra, newOrder)
    requires t in Reconstruct(c, records, order) && t.state == Committed
    ensures t in Reconstruct(c, records + extra, newOrder)
  {
    Membership(c, records, order, t);
    Membership(c, records + extra, newOrder, t);
    SlotPersists(records, extra, t.transactionId);
    CommittedInSlot(c, records, extra, t.transactionId, t);
  }
}
