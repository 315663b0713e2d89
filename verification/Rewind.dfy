/**
 The journal Rewind engine (core/src/rewind.rs).

 `RewindEngine` is the object with its mutable lookup table; `ReversePass` and
 `ForwardTable` are the meaning of its two loops.  A `Volume` history is the
 independent notion of truth the engine is compared with.
 */
module Rewind {

  datatype EntryKey = EntryKey(entry: nat, sequence: nat) {
    // The source looks at the entry number only.
    predicate IsRoot() {
      entry == 5
    }
  }

  datatype EntryInfo = EntryInfo(name: string, parent: EntryKey)

  type Table = map<EntryKey, EntryInfo>

  datatype Reason = Reason(renameOldName: bool, renameNewName: bool, fileCreate: bool)

  datatype UsnRecord = UsnRecord(
    mftEntry: nat, mftSequence: nat,
    parentMftEntry: nat, parentMftSequence: nat,
    filename: string, reason: Reason)
  {
    function Key(): EntryKey {
      EntryKey(mftEntry, mftSequence)
    }

    function Info(): EntryInfo {
      EntryInfo(filename, EntryKey(parentMftEntry, parentMftSequence))
    }
  }

  datatype RecordSource = Allocated | Carved | Ghost

  datatype ResolvedRecord = ResolvedRecord(
    record: UsnRecord, fullPath: string, parentPath: string, source: RecordSource)

  // ----- Path resolution -----

  const MAX_DEPTH := 256

  function Decimal(n: nat): string {
    if n < 10 then [('0' as int + n) as char] else Decimal(n / 10) + [('0' as int + n % 10) as char]
  }

  function KeyText(k: EntryKey): string {
    "(" + Decimal(k.entry) + ":" + Decimal(k.sequence) + ")"
  }

  /** `resolve_path_inner` and `resolve_path_from_inner`: the same recursion over a table. */
  function ResolveFrom(t: Table, k: EntryKey, depth: nat): (path: string)
    ensures |path| > 0
    decreases MAX_DEPTH + 1 - depth, |t|
  {
    if depth > MAX_DEPTH then "UNRESOLVED" + KeyText(k)
    else if k.IsRoot() then "."
    else if k in t then ResolveFrom(t, t[k].parent, depth + 1) + "\\" + t[k].name
    else "UNKNOWN" + KeyText(k)
  }

  /** The keys from `chain[0]` up to the volume root, following parents in `t`. */
  ghost predicate IsChain(t: Table, chain: seq<EntryKey>) {
    && |chain| > 0
    && chain[|chain| - 1].IsRoot()
    && forall j :: 0 <= j < |chain| - 1 ==>
         !chain[j].IsRoot() && chain[j] in t && t[chain[j]].parent == chain[j + 1]
  }

  /** The path an ancestor chain spells, with no depth bound. */
  ghost function PathOf(t: Table, chain: seq<EntryKey>): (path: string)
    requires IsChain(t, chain)
    ensures |path| > 0 && path[0] == '.'
  {
    if |chain| == 1 then "." else PathOf(t, chain[1..]) + "\\" + t[chain[0]].name
  }

  lemma {:induction false} ResolveChain(t: Table, chain: seq<EntryKey>, depth: nat)
    requires IsChain(t, chain)
    requires depth + |chain| <= MAX_DEPTH + 1
    ensures ResolveFrom(t, chain[0], depth) == PathOf(t, chain)
    decreases |chain|
  {
    if |chain| > 1 {
      ResolveChain(t, chain[1..], depth + 1);
    }
  }

  lemma RootedResolveHasChain(t: Table, k: EntryKey, depth: nat) returns (chain: seq<EntryKey>)
    requires depth <= MAX_DEPTH + 1
    requires ResolveFrom(t, k, depth)[0] == '.'
    ensures IsChain(t, chain) && chain[0] == k && depth + |chain| <= MAX_DEPTH + 1
    decreases MAX_DEPTH + 1 - depth, |t|
  {
    if k.IsRoot() {
      chain := [k];
    } else {
      var above := RootedResolveHasChain(t, t[k].parent, depth + 1);
      chain := [k] + above;
    }
  }

  /**
   Resolution yields a path from the volume root exactly when the parent references of `k`
   reach entry 5 within the depth cap; cycles, dangling parents and deeper chains never do.
   */
  lemma {:induction false} ResolvesToRootIff(t: Table, k: EntryKey)
    ensures ResolveFrom(t, k, 0)[0] == '.' <==>
            exists chain :: IsChain(t, chain) && chain[0] == k && |chain| <= 257
  {
    if ResolveFrom(t, k, 0)[0] == '.' {
      var chain := RootedResolveHasChain(t, k, 0);
    }
    if chain :| IsChain(t, chain) && chain[0] == k && |chain| <= MAX_DEPTH + 1 {
      ResolveChain(t, chain, 0);
    }
  }

  /** Keys that lead on from one to the next by their parents, none of them the root. */
  ghost predicate IsLine(t: Table, line: seq<EntryKey>) {
    && line != []
    && (forall j :: 0 <= j < |line| ==> !line[j].IsRoot())
    && forall j :: 0 <= j < |line| - 1 ==> line[j] in t && t[line[j]].parent == line[j + 1]
  }

  /** `top`, then the names of the line from its last but one key down to its first. */
  ghost function Below(t: Table, line: seq<EntryKey>, top: string): string
    requires IsLine(t, line)
  {
    if |line| == 1 then top else Below(t, line[1..], top) + "\\" + t[line[0]].name
  }

  /** A line that ends at a key nothing is known about. */
  lemma {:induction false} ResolveDangling(t: Table, line: seq<EntryKey>, depth: nat)
    requires IsLine(t, line) && line[|line| - 1] !in t && depth + |line| <= 257
    ensures ResolveFrom(t, line[0], depth) == Below(t, line, "UNKNOWN" + KeyText(line[|line| - 1]))
    decreases |line|
  {
    if |line| > 1 {
      ResolveDangling(t, line[1..], depth + 1);
    }
  }

  /** A line longer than the cap allows, a cycle among them. */
  lemma {:induction false} ResolveTooDeep(t: Table, line: seq<EntryKey>, depth: nat)
    requires IsLine(t, line) && depth + |line| == 258
    ensures ResolveFrom(t, line[0], depth) == Below(t, line, "UNRESOLVED" + KeyText(line[|line| - 1]))
    decreases |line|
  {
    if |line| > 1 {
      ResolveTooDeep(t, line[1..], depth + 1);
    }
  }

  // ----- The two passes -----

  function OrInsert(t: Table, k: EntryKey, v: EntryInfo): Table {
    if k in t then t else t[k := v]
  }

  function ReverseStep(t: Table, r: UsnRecord): Table {
    if r.reason.renameOldName then t[r.Key() := r.Info()] else OrInsert(t, r.Key(), r.Info())
  }

  /** Newest to oldest: the head of the journal is applied last. */
  function ReversePass(t: Table, records: seq<UsnRecord>): Table {
    if records == [] then t else ReverseStep(ReversePass(t, records[1..]), records[0])
  }

  function ForwardStep(t: Table, r: UsnRecord): Table {
    if r.reason.renameNewName || r.reason.fileCreate then t[r.Key() := r.Info()]
    else OrInsert(t, r.Key(), r.Info())
  }

  /** The forward table once the first `n` records have been applied. */
  function ForwardTable(t: Table, records: seq<UsnRecord>, n: nat): Table
    requires n <= |records|
  {
    if n == 0 then t else ForwardStep(ForwardTable(t, records, n - 1), records[n - 1])
  }

  function ResolveRecord(t: Table, r: UsnRecord): ResolvedRecord {
    var parentPath := ResolveFrom(t, r.Info().parent, 0);
    ResolvedRecord(r, parentPath + "\\" + r.filename, parentPath, Allocated)
  }

  function SeedRow(row: (nat, nat, string, nat, nat)): (EntryKey, EntryInfo) {
    (EntryKey(row.0, row.1), EntryInfo(row.2, EntryKey(row.3, row.4)))
  }

  /** What seeding with `rows` leaves at a key: the last row for it. */
  function SeedTable(rows: seq<(nat, nat, string, nat, nat)>): Table {
    if rows == [] then map[]
    else
      var (k, v) := SeedRow(rows[|rows| - 1]);
      SeedTable(rows[..|rows| - 1])[k := v]
  }

  /** Carved rows only fill keys that are still free, the first row for a key winning. */
  function CarvedTable(t: Table, rows: seq<(nat, nat, string, nat, nat)>): Table {
    if rows == [] then t
    else
      var (k, v) := SeedRow(rows[|rows| - 1]);
      OrInsert(CarvedTable(t, rows[..|rows| - 1]), k, v)
  }

  ghost predicate IsLastRow(rows: seq<(nat, nat, string, nat, nat)>, i: nat) {
    i < |rows| && forall j :: i < j < |rows| ==> SeedRow(rows[j]).0 != SeedRow(rows[i]).0
  }

  ghost predicate IsFirstRow(rows: seq<(nat, nat, string, nat, nat)>, i: nat) {
    i < |rows| && forall j :: 0 <= j < i ==> SeedRow(rows[j]).0 != SeedRow(rows[i]).0
  }

  ghost predicate HasRow(rows: seq<(nat, nat, string, nat, nat)>, k: EntryKey) {
    exists i :: 0 <= i < |rows| && SeedRow(rows[i]).0 == k
  }

  /** The table holds the row under the row's key. */
  ghost predicate HoldsRow(t: Table, row: (nat, nat, string, nat, nat)) {
    SeedRow(row).0 in t && t[SeedRow(row).0] == SeedRow(row).1
  }

  lemma HasRowEnd(rows: seq<(nat, nat, string, nat, nat)>, k: EntryKey)
    requires rows != []
    ensures HasRow(rows, k) <==> HasRow(rows[..|rows| - 1], k) || SeedRow(rows[|rows| - 1]).0 == k
  {
    var init := rows[..|rows| - 1];
    if i :| 0 <= i < |init| && SeedRow(init[i]).0 == k {
      assert rows[i] == init[i];
    }
    if i :| 0 <= i < |rows| && SeedRow(rows[i]).0 == k {
      assert i < |init| ==> rows[i] == init[i];
    }
  }

  /** Seeding knows exactly the keys that have a row. */
  lemma {:induction false} SeedTableKeys(rows: seq<(nat, nat, string, nat, nat)>, k: EntryKey)
    ensures k in SeedTable(rows) <==> HasRow(rows, k)
  {
    if rows != [] {
      HasRowEnd(rows, k);
      SeedTableKeys(rows[..|rows| - 1], k);
    }
  }

  /** A key is seeded with its last row. */
  lemma {:induction false} SeedTableLast(rows: seq<(nat, nat, string, nat, nat)>, i: nat)
    requires IsLastRow(rows, i)
    ensures HoldsRow(SeedTable(rows), rows[i])
  {
    var init := rows[..|rows| - 1];
    if i < |init| {
      assert init[i] == rows[i];
      SeedTableLast(init, i);
    }
  }

  /** Carved rows leave what is known alone and add no key without a row. */
  lemma {:induction false} CarvedTableKeys(t: Table, rows: seq<(nat, nat, string, nat, nat)>, k: EntryKey)
    ensures k in CarvedTable(t, rows) <==> k in t || HasRow(rows, k)
    ensures k in t ==> CarvedTable(t, rows)[k] == t[k]
  {
    if rows != [] {
      HasRowEnd(rows, k);
      CarvedTableKeys(t, rows[..|rows| - 1], k);
    }
  }

  /** A new key is carved from its first row. */
  lemma {:induction false} CarvedTableFirst(t: Table, rows: seq<(nat, nat, string, nat, nat)>, i: nat)
    requires IsFirstRow(rows, i) && SeedRow(rows[i]).0 !in t
    ensures HoldsRow(CarvedTable(t, rows), rows[i])
  {
    var init := rows[..|rows| - 1];
    if i < |init| {
      assert init[i] == rows[i];
      CarvedTableFirst(t, init, i);
    } else {
      CarvedTableKeys(t, init, SeedRow(rows[i]).0);
    }
  }

  /** The first `n` records, each resolved against the table as of that record. */
  /** The result is of this record, with its parent's path in `t` and its own. */
  ghost predicate Reports(result: ResolvedRecord, r: UsnRecord, t: Table) {
    && result.record == r && result.source == Allocated
    && result.parentPath == ResolveFrom(t, EntryKey(r.parentMftEntry, r.parentMftSequence), 0)
    && result.fullPath == result.parentPath + "\\" + r.filename
  }

  ghost predicate ResolvedUpTo(t: Table, records: seq<UsnRecord>, results: seq<ResolvedRecord>, n: nat)
    requires n <= |records|
  {
    && |results| == n
    && forall i :: 0 <= i < n ==> results[i] == ResolveRecord(ForwardTable(t, records, i + 1), records[i])
  }

  lemma {:induction false} ResolvedSnoc(t: Table, records: seq<UsnRecord>, results: seq<ResolvedRecord>,
                                        last: ResolvedRecord, n: nat)
    requires n < |records| && ResolvedUpTo(t, records, results, n)
    requires last == ResolveRecord(ForwardTable(t, records, n + 1), records[n])
    ensures ResolvedUpTo(t, records, results + [last], n + 1)
  {
    forall i | 0 <= i < n + 1
      ensures (results + [last])[i] == ResolveRecord(ForwardTable(t, records, i + 1), records[i])
    {
      if i < n {
        assert (results + [last])[i] == results[i];
      }
    }
  }

  /** The forward pass on a copy of the table: resolves each record against it as of that record. */
  method RunForwards(lookup: Table, records: seq<UsnRecord>) returns (results: seq<ResolvedRecord>)
    ensures ResolvedUpTo(lookup, records, results, |records|)
    ensures forall i :: 0 <= i < |records| ==> Reports(results[i], records[i], ForwardTable(lookup, records, i + 1))
  {
    var forwardLookup := lookup;
    results := [];
    for i := 0 to |records|
      invariant forwardLookup == ForwardTable(lookup, records, i)
      invariant ResolvedUpTo(lookup, records, results, i)
    {
      forwardLookup := ApplyForward(forwardLookup, records[i]);
      var resolved := ResolveRecord(forwardLookup, records[i]);
      ResolvedSnoc(lookup, records, results, resolved, i);
      results := results + [resolved];
    }
  }

  method ApplyForward(table: Table, r: UsnRecord) returns (after: Table)
    ensures after == ForwardStep(table, r)
  {
    after := table;
    if r.reason.renameNewName {
      after := after[r.Key() := r.Info()];
    } else if r.reason.fileCreate {
      after := after[r.Key() := r.Info()];
    } else if r.Key() !in after {
      after := after[r.Key() := r.Info()];
    }
  }

  class RewindEngine {
    var lookup: Table

    constructor ()
      ensures lookup == map[]
    {
      lookup := map[];
    }

    constructor FromMft(rows: seq<(nat, nat, string, nat, nat)>)
      ensures lookup == SeedTable(rows)
      ensures forall k :: k in lookup <==> HasRow(rows, k)
      ensures forall i: nat :: IsLastRow(rows, i) ==> HoldsRow(lookup, rows[i])
    {
      lookup := map[];
      new;
      for i := 0 to |rows|
        invariant lookup == SeedTable(rows[..i])
      {
        assert rows[..i + 1][..i] == rows[..i];
        var (k, v) := SeedRow(rows[i]);
        lookup := lookup[k := v];
      }
      assert rows[..|rows|] == rows;
      forall k
        ensures k in SeedTable(rows) <==> HasRow(rows, k)
      {
        SeedTableKeys(rows, k);
      }
      forall i: nat | IsLastRow(rows, i)
        ensures HoldsRow(SeedTable(rows), rows[i])
      {
        SeedTableLast(rows, i);
      }
    }

    method SeedFromCarved(rows: seq<(nat, nat, string, nat, nat)>)
      modifies this
      ensures lookup == CarvedTable(old(lookup), rows)
      ensures forall k :: k in lookup <==> k in old(lookup) || HasRow(rows, k)
      ensures forall k :: k in old(lookup) ==> lookup[k] == old(lookup)[k]
      ensures forall i: nat :: IsFirstRow(rows, i) && SeedRow(rows[i]).0 !in old(lookup) ==> HoldsRow(lookup, rows[i])
    {
      forall k
        ensures k in CarvedTable(lookup, rows) <==> k in lookup || HasRow(rows, k)
        ensures k in lookup ==> CarvedTable(lookup, rows)[k] == lookup[k]
      {
        CarvedTableKeys(lookup, rows, k);
      }
      forall i: nat | IsFirstRow(rows, i) && SeedRow(rows[i]).0 !in lookup
        ensures HoldsRow(CarvedTable(lookup, rows), rows[i])
      {
        CarvedTableFirst(lookup, rows, i);
      }
      for i := 0 to |rows|
        invariant lookup == CarvedTable(old(lookup), rows[..i])
      {
        assert rows[..i + 1][..i] == rows[..i];
        var (k, v) := SeedRow(rows[i]);
        if k !in lookup {
          lookup := lookup[k := v];
        }
      }
      assert rows[..|rows|] == rows;
    }

    method Insert(k: EntryKey, v: EntryInfo)
      modifies this
      ensures lookup == old(lookup)[k := v]
    {
      lookup := lookup[k := v];
    }

    function ResolvePath(k: EntryKey): string
      reads this
    {
      ResolveFrom(lookup, k, 0)
    }

    /** The reverse pass: back to the names in force before the first record. */
    method RunBackwards(records: seq<UsnRecord>)
      modifies this
      ensures lookup == ReversePass(old(lookup), records)
    {
      for i := |records| downto 0
        invariant lookup == ReversePass(old(lookup), records[i..])
      {
        var r := records[i];
        assert records[i..][1..] == records[i + 1..];
        if r.reason.renameOldName {
          lookup := lookup[r.Key() := r.Info()];
        } else if r.Key() !in lookup {
          lookup := lookup[r.Key() := r.Info()];
        }
      }
      assert records[0..] == records;
    }

    /** Both passes; the table kept afterwards is the one the reverse pass built. */
    method Rewind(records: seq<UsnRecord>) returns (results: seq<ResolvedRecord>)
      modifies this
      ensures lookup == ReversePass(old(lookup), records)
      ensures |results| == |records|
      ensures forall i :: 0 <= i < |records| ==>
                results[i] == ResolveRecord(ForwardTable(lookup, records, i + 1), records[i])
      ensures forall i :: 0 <= i < |records| ==> Reports(results[i], records[i], ForwardTable(lookup, records, i + 1))
    {
      RunBackwards(records);
      results := RunForwards(lookup, records);
    }
  }
}
