/** What transaction reconstruction guarantees, for every input and every hash order. */
module TransactionFacts {
  import opened LogFile
  import opened Sequences
  import opened SeqSort
  import opened Transactions

  // ----- Flattening -----

  lemma {:induction false} FlattenCons<T(!new)>(x: seq<T>, xs: seq<seq<T>>)
    ensures Flatten([x] + xs) == x + Flatten(xs)
  {
    if xs == [] {
      assert Init([x]) == [] && [x] + xs == [x];
    } else {
      FlattenCons(x, Init(xs));
      assert Init([x] + xs) == [x] + Init(xs);
    }
  }

  lemma {:induction false} FlattenConcat<T(!new)>(a: seq<seq<T>>, b: seq<seq<T>>)
    ensures Flatten(a + b) == Flatten(a) + Flatten(b)
  {
    if b == [] {
      assert a + b == a;
    } else {
      FlattenConcat(a, Init(b));
      assert Init(a + b) == a + Init(b) && Last(a + b) == Last(b);
      Reassociate(Flatten(a), Flatten(Init(b)), Last(b));
    }
  }

  /** Sorted within the whole means sorted across the parts. */
  lemma {:induction false} FirstsSorted<T(!new)>(key: T -> int, runs: seq<seq<T>>, a: nat, b: nat)
    requires Sorted(key, Flatten(runs)) && a < b < |runs|
    requires forall k :: 0 <= k < |runs| ==> runs[k] != []
    ensures key(runs[a][0]) <= key(runs[b][0])
  {
    var left := Flatten(Init(runs));
    SortedParts(key, left, Last(runs));
    if b == |runs| - 1 {
      FlattenMembers(Init(runs), runs[a][0]);
      assert Init(runs)[a] == runs[a];
      assert runs[a][0] in left && runs[b][0] in Last(runs);
    } else {
      FirstsSorted(key, Init(runs), a, b);
    }
  }

  lemma SortedParts<T(!new)>(key: T -> int, a: seq<T>, b: seq<T>)
    requires Sorted(key, a + b)
    ensures Sorted(key, a) && Sorted(key, b)
    ensures forall x, y :: x in a && y in b ==> key(x) <= key(y)
  {
    forall i, j | 0 <= i < |a| && 0 <= j < |b|
      ensures key(a[i]) <= key(b[j])
    {
      assert (a + b)[i] == a[i] && (a + b)[|a| + j] == b[j];
    }
    assert forall i :: 0 <= i < |a| ==> (a + b)[i] == a[i];
    forall i, j | 0 <= i < j < |b|
      ensures key(b[i]) <= key(b[j])
    {
      assert (a + b)[|a| + i] == b[i] && (a + b)[|a| + j] == b[j];
    }
  }

  lemma {:induction false} RunSorted<T(!new)>(key: T -> int, runs: seq<seq<T>>, a: nat)
    requires Sorted(key, Flatten(runs)) && a < |runs|
    ensures Sorted(key, runs[a])
  {
    SortedParts(key, Flatten(Init(runs)), Last(runs));
    if a < |runs| - 1 {
      RunSorted(key, Init(runs), a);
    }
  }

  // ----- One slot -----

  ghost predicate Compensated<T(!new)>(op: T -> LogOp, run: seq<T>) {
    exists k :: 0 <= k < |run| && op(run[k]) == CompensationLogRecord
  }

  ghost predicate NoTerminal<T(!new)>(op: T -> LogOp, run: seq<T>) {
    forall k :: 0 <= k < |run| ==> op(run[k]) != CommitTransaction && op(run[k]) != ForgetTransaction
  }

  /** Non-empty, terminated at its end or not at all, with the state its records dictate. */
  ghost predicate Proper<T(!new)>(op: T -> LogOp, s: Segment<T>) {
    && s.run != []
    && NoTerminal(op, Init(s.run))
    && (s.state == Committed <==> op(Last(s.run)) == CommitTransaction || op(Last(s.run)) == ForgetTransaction)
    && (s.state == Aborted <==> s.state != Committed && Compensated(op, s.run))
  }

  ghost predicate WellSplit<T(!new)>(op: T -> LogOp, segments: seq<Segment<T>>) {
    && (forall k :: 0 <= k < |segments| ==> Proper(op, segments[k]))
    && (forall k :: 0 <= k < |segments| - 1 ==> segments[k].state == Committed)
  }

  lemma RunGrows<T(!new)>(op: T -> LogOp, run: seq<T>, x: T)
    requires NoTerminal(op, run)
    ensures Compensated(op, run + [x]) <==> Compensated(op, run) || op(x).CompensationLogRecord?
    ensures !IsTerminal(op(x)) ==> NoTerminal(op, run + [x])
    ensures IsTerminal(op(x)) ==> Proper(op, Segment(run + [x], Committed))
  {
    assert Init(run + [x]) == run && Last(run + [x]) == x;
    if Compensated(op, run) {
      var k :| 0 <= k < |run| && op(run[k]).CompensationLogRecord?;
      assert (run + [x])[k] == run[k];
    }
    if op(x).CompensationLogRecord? {
      assert (run + [x])[|run|] == x;
    }
  }

  lemma OpenRunProper<T(!new)>(op: T -> LogOp, run: seq<T>)
    requires NoTerminal(op, run) && run != []
    ensures Proper(op, Segment(run, OpenState(Compensated(op, run))))
  {
  }

  lemma WellSplitCons<T(!new)>(op: T -> LogOp, s: Segment<T>, segments: seq<Segment<T>>)
    requires Proper(op, s) && s.state == Committed && WellSplit(op, segments)
    ensures WellSplit(op, [s] + segments)
    ensures Flatten(Map(RunOf(), [s] + segments)) == s.run + Flatten(Map(RunOf(), segments))
  {
    MapFirst(RunOf(), s, segments);
    FlattenCons(s.run, Map(RunOf(), segments));
  }

  lemma MapFirst<S(!new), T(!new)>(f: S -> T, x: S, s: seq<S>)
    ensures Map(f, [x] + s) == [f(x)] + Map(f, s)
  {
  }

  lemma {:induction false} OpenEndIsExact<T(!new)>(op: T -> LogOp, run: seq<T>)
    requires NoTerminal(op, run)
    ensures WellSplit(op, Split(op, [], run, Compensated(op, run)))
    ensures Flatten(Map(RunOf(), Split(op, [], run, Compensated(op, run)))) == run
  {
    if run != [] {
      OpenRunProper(op, run);
      var s := Segment(run, OpenState(Compensated(op, run)));
      assert Map(RunOf(), [s]) == [run] && Init([run]) == [];
    }
  }

  /** Cutting loses nothing, ends each run at its terminal and leaves at most the last one open. */
  lemma {:induction false} SplitIsExact<T(!new)>(op: T -> LogOp, stream: seq<T>, run: seq<T>)
    requires NoTerminal(op, run)
    ensures WellSplit(op, Split(op, stream, run, Compensated(op, run)))
    ensures Flatten(Map(RunOf(), Split(op, stream, run, Compensated(op, run)))) == run + stream
    decreases |stream|
  {
    if stream == [] {
      OpenEndIsExact(op, run);
      assert run + stream == run;
    } else {
      var x, rest := stream[0], stream[1..];
      RunGrows(op, run, x);
      assert run + stream == run + [x] + rest;
      if IsTerminal(op(x)) {
        assert !Compensated(op, []);
        SplitIsExact(op, rest, []);
        assert [] + rest == rest;
        WellSplitCons(op, Segment(run + [x], Committed), Split(op, rest, [], false));
      } else {
        SplitIsExact(op, rest, run + [x]);
      }
    }
  }

  lemma {:induction false} SplitWhole<T(!new)>(op: T -> LogOp, stream: seq<T>)
    ensures WellSplit(op, Split(op, stream, [], false))
    ensures Flatten(Map(RunOf(), Split(op, stream, [], false))) == stream
  {
    SplitIsExact(op, stream, []);
    assert [] + stream == stream;
  }

  // ----- All slots -----

  ghost predicate WellCut(c: Classify, records: seq<LogRecord>, t: Transaction) {
    && InRange(records, t.records)
    && (forall k :: 0 <= k < |t.records| ==> records[t.records[k]].transactionId == t.transactionId)
    && t == Build(c, records, t.transactionId, t.records, t.state)
    && Sorted(LsnOf(records), t.records)
    && Proper(RedoOf(records), Segment(t.records, t.state))
  }

  function RecordsOf(): Transaction -> seq<nat> {
    (t: Transaction) => t.records
  }

  function HasId(slot: nat): Transaction -> bool {
    (t: Transaction) => t.transactionId == slot
  }

  lemma SlotTransactionsOrdered(c: Classify, records: seq<LogRecord>, slot: nat)
    ensures Sorted(FirstLsn(), SlotTransactions(c, records, slot))
  {
    var ts := SlotTransactions(c, records, slot);
    var stream := Stream(records, slot);
    var runs := Map(RunOf(), Split(RedoOf(records), stream, [], false));
    SplitWhole(RedoOf(records), stream);
    SortSorts(LsnOf(records), SlotIndices(records, slot, |records|));
    StreamMembers(records, slot);
    forall a, b | 0 <= a < b < |ts|
      ensures FirstLsn()(ts[a]) <= FirstLsn()(ts[b])
    {
      assert runs[a] != [] && runs[b] != [];
      RunInStream(runs, a);
      RunInStream(runs, b);
      FirstsSorted(LsnOf(records), runs, a, b);
    }
  }

  lemma SlotTransactionsFacts(c: Classify, records: seq<LogRecord>, slot: nat)
    ensures
      var ts := SlotTransactions(c, records, slot);
      && (forall k :: 0 <= k < |ts| ==> ts[k].transactionId == slot && WellCut(c, records, ts[k]))
      && (forall k :: 0 <= k < |ts| - 1 ==> ts[k].state == Committed)
      && Flatten(Map(RecordsOf(), ts)) == Stream(records, slot)
      && Sorted(FirstLsn(), ts)
  {
    var ts := SlotTransactions(c, records, slot);
    var stream := Stream(records, slot);
    var segments := Split(RedoOf(records), stream, [], false);
    var runs := Map(RunOf(), segments);
    SplitWhole(RedoOf(records), stream);
    SortSorts(LsnOf(records), SlotIndices(records, slot, |records|));
    StreamMembers(records, slot);
    assert Map(RecordsOf(), ts) == runs;
    forall k | 0 <= k < |ts|
      ensures ts[k].transactionId == slot && WellCut(c, records, ts[k])
    {
      RunSorted(LsnOf(records), runs, k);
      RunInStream(runs, k);
    }
    SlotTransactionsOrdered(c, records, slot);
  }

  lemma {:induction false} RunInStream(runs: seq<seq<nat>>, k: nat)
    requires k < |runs|
    ensures forall j :: 0 <= j < |runs[k]| ==> runs[k][j] in Flatten(runs)
  {
    forall j | 0 <= j < |runs[k]|
      ensures runs[k][j] in Flatten(runs)
    {
      FlattenMembers(runs, runs[k][j]);
    }
  }

  ghost predicate NoRepeats(order: seq<nat>) {
    forall i, j :: 0 <= i < j < |order| ==> order[i] != order[j]
  }

  lemma OrderEnd(order: seq<nat>, slot: nat)
    requires order != []
    ensures slot in order <==> slot in Init(order) || slot == Last(order)
    ensures NoRepeats(order) ==> NoRepeats(Init(order)) && Last(order) !in Init(order)
  {
    assert order == Init(order) + [Last(order)];
  }

  lemma {:induction false} AllMembers(c: Classify, records: seq<LogRecord>, order: seq<nat>, t: Transaction)
    ensures t in AllTransactions(c, records, order) <==>
            t.transactionId in order && t in SlotTransactions(c, records, t.transactionId)
  {
    if order != [] {
      AllMembers(c, records, Init(order), t);
      OwnSlotOnly(c, records, Last(order), t);
      assert order == Init(order) + [Last(order)];
    }
  }

  lemma OwnSlotOnly(c: Classify, records: seq<LogRecord>, slot: nat, t: Transaction)
    ensures t in SlotTransactions(c, records, slot) ==> t.transactionId == slot
  {
    SlotTransactionsFacts(c, records, slot);
  }

  /** Within the whole output of the table walk, one slot's transactions are its own. */
  lemma {:induction false} SlotPart(c: Classify, records: seq<LogRecord>, order: seq<nat>, slot: nat)
    requires NoRepeats(order)
    ensures Filter(HasId(slot), AllTransactions(c, records, order)) ==
            if slot in order then SlotTransactions(c, records, slot) else []
  {
    if order != [] {
      var last := SlotTransactions(c, records, Last(order));
      OrderEnd(order, slot);
      SlotPart(c, records, Init(order), slot);
      SlotTransactionsFacts(c, records, Last(order));
      FilterConcat(HasId(slot), AllTransactions(c, records, Init(order)), last);
      if Last(order) == slot {
        FilterAll(HasId(slot), last);
      } else {
        FilterNone(HasId(slot), last);
      }
    }
  }

  lemma RangeCount(n: nat, i: nat)
    ensures Count(Range(n), i) == if i < n then 1 else 0
  {
    if n > 0 {
      RangeCount(n - 1, i);
      assert Range(n) == Range(n - 1) + [n - 1];
    }
  }

  lemma StreamCount(records: seq<LogRecord>, slot: nat, i: nat)
    ensures Count(Stream(records, slot), i) ==
            if i < |records| && records[i].transactionId == slot then 1 else 0
  {
    SortSorts(LsnOf(records), SlotIndices(records, slot, |records|));
    FilterMultiset(InSlot(records, slot), Range(|records|), i);
    RangeCount(|records|, i);
  }

  /** How often record `i` occurs in a list of transactions. */
  ghost function Occurrences(ts: seq<Transaction>, i: nat): nat {
    Count(Flatten(Map(RecordsOf(), ts)), i)
  }

  lemma OccurrencesConcat(a: seq<Transaction>, b: seq<Transaction>, i: nat)
    ensures Occurrences(a + b, i) == Occurrences(a, i) + Occurrences(b, i)
  {
    assert Map(RecordsOf(), a + b) == Map(RecordsOf(), a) + Map(RecordsOf(), b);
    FlattenConcat(Map(RecordsOf(), a), Map(RecordsOf(), b));
    var x, y := Flatten(Map(RecordsOf(), a)), Flatten(Map(RecordsOf(), b));
    assert multiset(x + y) == multiset(x) + multiset(y);
  }

  lemma SlotCount(c: Classify, records: seq<LogRecord>, slot: nat, i: nat)
    ensures Occurrences(SlotTransactions(c, records, slot), i) ==
            if i < |records| && records[i].transactionId == slot then 1 else 0
  {
    SlotTransactionsFacts(c, records, slot);
    StreamCount(records, slot, i);
  }

  lemma {:induction false} AllCount(c: Classify, records: seq<LogRecord>, order: seq<nat>, i: nat)
    requires NoRepeats(order)
    ensures Occurrences(AllTransactions(c, records, order), i) ==
            if i < |records| && records[i].transactionId in order then 1 else 0
  {
    if order != [] {
      OrderEnd(order, RecordAt(records, i).transactionId);
      AllCount(c, records, Init(order), i);
      OccurrencesConcat(AllTransactions(c, records, Init(order)), SlotTransactions(c, records, Last(order)), i);
      SlotCount(c, records, Last(order), i);
    }
  }

  lemma {:induction false} OccurrencesSort(ts: seq<Transaction>, i: nat)
    ensures Occurrences(Sort(FirstLsn(), ts), i) == Occurrences(ts, i)
  {
    var count := (s: seq<Transaction>) => Occurrences(s, i);
    forall a, b
      ensures count(a + b) == count(a) + count(b)
    {
      OccurrencesConcat(a, b, i);
    }
    SortKeepsMeasure(FirstLsn(), count, ts);
  }

  /** Every record index is in exactly one transaction, exactly once, and no other index is. */
  lemma EveryRecordOnce(c: Classify, records: seq<LogRecord>, order: seq<nat>, i: nat)
    requires IsSlotOrder(records, order)
    ensures Occurrences(Reconstruct(c, records, order), i) == if i < |records| then 1 else 0
  {
    OccurrencesSort(AllTransactions(c, records, order), i);
    AllCount(c, records, order, i);
    if i < |records| {
      assert HasSlot(records, records[i].transactionId);
    }
  }

  lemma Membership(c: Classify, records: seq<LogRecord>, order: seq<nat>, t: Transaction)
    ensures t in Reconstruct(c, records, order) <==>
            t.transactionId in order && t in SlotTransactions(c, records, t.transactionId)
  {
    SortMembers(FirstLsn(), AllTransactions(c, records, order));
    AllMembers(c, records, order, t);
  }

  /** LSNs and operations are those of the records, in LSN order, and all records are of one slot. */
  ghost predicate ListsItsRecords(c: Classify, records: seq<LogRecord>, t: Transaction) {
    && |t.lsns| == |t.operations| == |t.records|
    && (forall k :: 0 <= k < |t.records| ==>
          && t.records[k] < |records|
          && records[t.records[k]].transactionId == t.transactionId
          && t.lsns[k] == records[t.records[k]].thisLsn
          && t.operations[k] == c(records[t.records[k]].redoOp, records[t.records[k]].undoOp))
    && (forall a, b :: 0 <= a < b < |t.lsns| ==> t.lsns[a] <= t.lsns[b])
  }

  /** A commit or forget ends a transaction; without one a compensation makes it aborted. */
  ghost predicate EndsAsLogged(records: seq<LogRecord>, t: Transaction)
    requires InRange(records, t.records)
  {
    var redo := seq(|t.records|, k requires 0 <= k < |t.records| => records[t.records[k]].redoOp);
    && redo != []
    && (forall k :: 0 <= k < |redo| - 1 ==> redo[k] != CommitTransaction && redo[k] != ForgetTransaction)
    && (t.state == Committed <==> redo[|redo| - 1] == CommitTransaction || redo[|redo| - 1] == ForgetTransaction)
    && (t.state == Aborted <==> t.state != Committed && CompensationLogRecord in redo)
  }

  /** Each transaction is one slot's run, in LSN order, cut where the log commits or forgets. */
  lemma EveryTransactionWellCut(c: Classify, records: seq<LogRecord>, order: seq<nat>, t: Transaction)
    requires t in Reconstruct(c, records, order)
    ensures WellCut(c, records, t) && ListsItsRecords(c, records, t) && EndsAsLogged(records, t)
  {
    Membership(c, records, order, t);
    SlotTransactionsFacts(c, records, t.transactionId);
    WellCutIsLogged(c, records, t);
  }

  lemma WellCutIsLogged(c: Classify, records: seq<LogRecord>, t: Transaction)
    requires WellCut(c, records, t)
    ensures ListsItsRecords(c, records, t) && EndsAsLogged(records, t)
  {
    var redo := seq(|t.records|, k requires 0 <= k < |t.records| => records[t.records[k]].redoOp);
    var run, op := t.records, RedoOf(records);
    assert forall k :: 0 <= k < |run| ==> redo[k] == op(run[k]);
    assert forall k :: 0 <= k < |run| - 1 ==> Init(run)[k] == run[k];
    assert CompensationLogRecord in redo <==> Compensated(op, run);
  }

  /** The indices of a slot's records by LSN, those of equal LSN as they were found. */
  ghost predicate IsLogOrder(records: seq<LogRecord>, slot: nat, indices: seq<nat>) {
    && (forall i: nat :: i in indices <==> i < |records| && records[i].transactionId == slot)
    && (forall a, b :: 0 <= a < b < |indices| ==>
          && indices[a] < |records| && indices[b] < |records|
          && (records[indices[a]].thisLsn < records[indices[b]].thisLsn
              || (records[indices[a]].thisLsn == records[indices[b]].thisLsn && indices[a] < indices[b])))
  }

  lemma StreamIsLogOrder(records: seq<LogRecord>, slot: nat)
    ensures IsLogOrder(records, slot, Stream(records, slot))
  {
    StreamMembers(records, slot);
    var indices := SlotIndices(records, slot, |records|);
    FilterRangeIncreases(InSlot(records, slot), |records|);
    SortIsStable(LsnOf(records), indices);
  }

  lemma FilterRangeIncreases(p: nat -> bool, n: nat)
    ensures Increasing(Filter(p, Range(n)))
    ensures forall x: nat :: x in Filter(p, Range(n)) ==> x < n
  {
    if n > 0 {
      FilterRangeIncreases(p, n - 1);
      assert Init(Range(n)) == Range(n - 1) && Last(Range(n)) == n - 1;
      var before := Filter(p, Range(n - 1));
      forall i | 0 <= i < |before|
        ensures before[i] < n - 1
      {
        assert before[i] in before;
      }
    } else {
      assert Range(n) == [];
    }
  }

  /** Read back in output order, a slot's transactions are its LSN-sorted record stream. */
  lemma SlotStreamRestored(c: Classify, records: seq<LogRecord>, order: seq<nat>, slot: nat)
    requires IsSlotOrder(records, order)
    ensures Filter(HasId(slot), Reconstruct(c, records, order)) == SlotTransactions(c, records, slot)
    ensures Flatten(Map(RecordsOf(), Filter(HasId(slot), Reconstruct(c, records, order)))) == Stream(records, slot)
    ensures IsLogOrder(records, slot, Stream(records, slot))
  {
    FilterSort(HasId(slot), FirstLsn(), AllTransactions(c, records, order));
    SlotPart(c, records, order, slot);
    SlotTransactionsFacts(c, records, slot);
    StreamIsLogOrder(records, slot);
    SortOfSorted(FirstLsn(), SlotTransactions(c, records, slot));
    if slot !in order {
      EmptySlot(c, records, slot);
    }
  }

  lemma EmptySlot(c: Classify, records: seq<LogRecord>, slot: nat)
    requires !HasSlot(records, slot)
    ensures SlotTransactions(c, records, slot) == []
  {
    StreamMembers(records, slot);
    assert forall i: nat :: i !in Stream(records, slot);
  }

  /** A transaction left open is the last of its slot. */
  lemma OpenTransactionIsLast(c: Classify, records: seq<LogRecord>, order: seq<nat>, a: nat, b: nat)
    requires IsSlotOrder(records, order)
    requires a < b < |Reconstruct(c, records, order)|
    requires Reconstruct(c, records, order)[a].transactionId == Reconstruct(c, records, order)[b].transactionId
    ensures Reconstruct(c, records, order)[a].state == Committed
  {
    var out := Reconstruct(c, records, order);
    var slot := out[a].transactionId;
    SlotStreamRestored(c, records, order, slot);
    SlotTransactionsFacts(c, records, slot);
    FilterKeepsOrder(HasId(slot), out, a, b);
  }

  /** Two kept elements show up in the same order, so the earlier one is not the last. */
  lemma {:induction false} FilterKeepsOrder<T(!new)>(p: T -> bool, s: seq<T>, a: nat, b: nat)
    requires a < b < |s| && p(s[a]) && p(s[b])
    ensures exists k :: 0 <= k < |Filter(p, s)| - 1 && Filter(p, s)[k] == s[a]
  {
    var r := Filter(p, Init(s));
    if b < |s| - 1 {
      FilterKeepsOrder(p, Init(s), a, b);
      var k :| 0 <= k < |r| - 1 && r[k] == s[a];
      assert Filter(p, s)[k] == s[a];
    } else {
      assert s[a] == Init(s)[a] && s[a] in Init(s);
      assert s[a] in r;
      var k :| 0 <= k < |r| && r[k] == s[a];
      assert Filter(p, s)[k] == s[a];
    }
  }
}
