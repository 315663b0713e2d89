/** The `$MFT` aggregator's path resolution (core/src/mft.rs) beside the Rewind engine's. */
module Mft {
  import opened Wrappers
  import opened Sequences
  import opened Rewind
  import opened Paths

  datatype MftEntry = MftEntry(
    entryNumber: nat, sequenceNumber: nat, filename: string, parentEntry: nat, parentSequence: nat)
  {
    function Key(): EntryKey {
      EntryKey(entryNumber, sequenceNumber)
    }

    function Info(): EntryInfo {
      EntryInfo(filename, EntryKey(parentEntry, parentSequence))
    }
  }

  const MAX_NAMES := 256

  /** The `by_entry` map over the first `n` entries; a later entry replaces an earlier one. */
  function ByEntry(entries: seq<MftEntry>, n: nat): map<nat, nat>
    requires n <= |entries|
  {
    if n == 0 then map[] else ByEntry(entries, n - 1)[entries[n - 1].entryNumber := n - 1]
  }

  /** No later entry of the first `n` carries the number of entry `i`. */
  ghost predicate IsLastOfNumber(entries: seq<MftEntry>, n: nat, i: nat)
    requires n <= |entries|
  {
    i < n && forall j :: i < j < n ==> entries[j].entryNumber != entries[i].entryNumber
  }

  /** The index leads from a number to the last entry that carries it. */
  ghost predicate IndexesLast(entries: seq<MftEntry>, n: nat, byEntry: map<nat, nat>)
    requires n <= |entries|
  {
    && (forall e :: e in byEntry ==> byEntry[e] < n && entries[byEntry[e]].entryNumber == e)
    && forall i: nat :: IsLastOfNumber(entries, n, i) ==>
         entries[i].entryNumber in byEntry && byEntry[entries[i].entryNumber] == i
  }

  lemma {:induction false} ByEntryIndexesLast(entries: seq<MftEntry>, n: nat)
    requires n <= |entries|
    ensures IndexesLast(entries, n, ByEntry(entries, n))
  {
    if n > 0 {
      ByEntryIndexesLast(entries, n - 1);
      forall i: nat | IsLastOfNumber(entries, n, i)
        ensures entries[i].entryNumber in ByEntry(entries, n) && ByEntry(entries, n)[entries[i].entryNumber] == i
      {
        if i < n - 1 {
          assert entries[n - 1].entryNumber != entries[i].entryNumber;
          assert IsLastOfNumber(entries, n - 1, i);
        }
      }
    }
  }

  method IndexEntries(entries: seq<MftEntry>) returns (byEntry: map<nat, nat>)
    ensures byEntry == ByEntry(entries, |entries|)
    ensures IndexesLast(entries, |entries|, byEntry)
  {
    ByEntryIndexesLast(entries, |entries|);
    byEntry := map[];
    for i := 0 to |entries|
      invariant byEntry == ByEntry(entries, i)
    {
      byEntry := byEntry[entries[i].entryNumber := i];
    }
  }

  /** Where the walk goes next from entry `cur`, if anywhere. */
  function ParentOf(entries: seq<MftEntry>, byEntry: map<nat, nat>, cur: nat): Option<nat>
    requires cur < |entries|
  {
    var e := entries[cur];
    if e.parentEntry == 5 || e.parentEntry == e.entryNumber then None
    else if e.parentEntry in byEntry && byEntry[e.parentEntry] != cur then Some(byEntry[e.parentEntry])
    else None
  }

  /** The names the walk collects, leaf first. */
  function Parts(entries: seq<MftEntry>, byEntry: map<nat, nat>, cur: nat, budget: nat): seq<string>
    decreases budget, |entries|
  {
    if budget == 0 || cur >= |entries| then []
    else
      var up := ParentOf(entries, byEntry, cur);
      [entries[cur].filename] + (if up.None? then [] else Parts(entries, byEntry, up.value, budget - 1))
  }

  function FullPath(entries: seq<MftEntry>, byEntry: map<nat, nat>, idx: nat): string {
    ".\\" + Join(Reversed(Parts(entries, byEntry, idx, MAX_NAMES)))
  }

  /** The walk up the parent chain, bounded so that a cyclic chain cannot loop forever. */
  method CollectParts(entries: seq<MftEntry>, byEntry: map<nat, nat>, idx: nat, limit: nat) returns (parts: seq<string>)
    ensures parts == Parts(entries, byEntry, idx, limit)
  {
    parts := [];
    var cur := idx;
    PartsBehindAppends(entries, byEntry, idx, limit, []);
    for i := 0 to limit
      invariant 0 <= cur
      invariant PartsBehind(entries, byEntry, idx, limit, []) == PartsBehind(entries, byEntry, cur, limit - i, parts)
    {
      if cur >= |entries| {
        return;
      }
      parts := parts + [entries[cur].filename];
      var up := StepUp(entries, byEntry, cur);
      if up.None? {
        return;
      }
      cur := up.value;
    }
  }

  /** The walk with `parts` already collected. */
  ghost function PartsBehind(entries: seq<MftEntry>, byEntry: map<nat, nat>, cur: nat, budget: nat, parts: seq<string>):
    seq<string>
    decreases budget, |entries|
  {
    if budget == 0 || cur >= |entries| then parts
    else
      var up, grown := ParentOf(entries, byEntry, cur), parts + [entries[cur].filename];
      if up.None? then grown else PartsBehind(entries, byEntry, up.value, budget - 1, grown)
  }

  /** The entry to go on with, unless the walk ends at `cur`. */
  method StepUp(entries: seq<MftEntry>, byEntry: map<nat, nat>, cur: nat) returns (up: Option<nat>)
    requires cur < |entries|
    ensures up == ParentOf(entries, byEntry, cur)
  {
    var e := entries[cur];
    if e.parentEntry == 5 || e.parentEntry == e.entryNumber {
      return None;
    }
    if e.parentEntry in byEntry && byEntry[e.parentEntry] != cur {
      return Some(byEntry[e.parentEntry]);
    }
    up := None;
  }

  /** `resolve_full_path`. */
  method ResolveFullPath(entries: seq<MftEntry>, byEntry: map<nat, nat>, idx: nat) returns (path: string)
    ensures path == FullPath(entries, byEntry, idx)
  {
    var parts := CollectParts(entries, byEntry, idx, MAX_NAMES);
    path := ".\\" + Join(Reversed(parts));
  }

  lemma {:induction false} PartsBehindAppends(entries: seq<MftEntry>, byEntry: map<nat, nat>, cur: nat, budget: nat,
                                              parts: seq<string>)
    ensures PartsBehind(entries, byEntry, cur, budget, parts) == parts + Parts(entries, byEntry, cur, budget)
    decreases budget
  {
    if budget > 0 && cur < |entries| {
      var up, grown := ParentOf(entries, byEntry, cur), parts + [entries[cur].filename];
      if up.Some? {
        PartsBehindAppends(entries, byEntry, up.value, budget - 1, grown);
        Reassociate(parts, [entries[cur].filename], Parts(entries, byEntry, up.value, budget - 1));
      }
    }
  }

  // ----- The path of every entry -----

  /** Entry `p` is the last one that carries the number entry `i` names as its parent. */
  ghost predicate IsAbove(entries: seq<MftEntry>, i: nat, p: nat)
    requires i < |entries|
  {
    && entries[i].parentEntry != 5 && entries[i].parentEntry != entries[i].entryNumber
    && IsLastOfNumber(entries, |entries|, p) && entries[p].entryNumber == entries[i].parentEntry
  }

  /** The parent of entry `i` is the root, the entry itself, or missing. */
  ghost predicate IsTopmost(entries: seq<MftEntry>, i: nat)
    requires i < |entries|
  {
    || entries[i].parentEntry == 5
    || entries[i].parentEntry == entries[i].entryNumber
    || forall j :: 0 <= j < |entries| ==> entries[j].entryNumber != entries[i].parentEntry
  }

  /** Entries from one to its parent and on, to a topmost one or to `limit` of them. */
  ghost predicate IsLineage(entries: seq<MftEntry>, line: seq<nat>, limit: nat) {
    && 0 < |line| <= limit && line[0] < |entries|
    && if |line| == 1 then limit == 1 || IsTopmost(entries, line[0])
       else IsAbove(entries, line[0], line[1]) && IsLineage(entries, line[1..], limit - 1)
  }

  predicate Inside(entries: seq<MftEntry>, line: seq<nat>) {
    forall k :: 0 <= k < |line| ==> line[k] < |entries|
  }

  /** The names of a lineage, topmost first, behind the root. */
  function PathDown(entries: seq<MftEntry>, line: seq<nat>): string
    requires line != [] && Inside(entries, line)
  {
    (if |line| == 1 then "." else PathDown(entries, line[1..])) + "\\" + entries[line[0]].filename
  }

  lemma {:induction false} AboveIsNext(entries: seq<MftEntry>, i: nat)
    requires i < |entries|
    ensures
      var up := ParentOf(entries, ByEntry(entries, |entries|), i);
      if up.None? then IsTopmost(entries, i) else IsAbove(entries, i, up.value)
  {
    var byEntry := ByEntry(entries, |entries|);
    ByEntryIndexesLast(entries, |entries|);
    IndexHolds(entries, |entries|);
    if entries[i].parentEntry in byEntry {
      IndexedIsLast(entries, |entries|, entries[i].parentEntry);
    }
  }

  lemma {:induction false} IndexHolds(entries: seq<MftEntry>, n: nat)
    requires n <= |entries|
    ensures forall j :: 0 <= j < n ==> entries[j].entryNumber in ByEntry(entries, n)
  {
    if n > 0 {
      IndexHolds(entries, n - 1);
    }
  }

  lemma {:induction false} IndexedIsLast(entries: seq<MftEntry>, n: nat, number: nat)
    requires n <= |entries| && number in ByEntry(entries, n)
    ensures IsLastOfNumber(entries, n, ByEntry(entries, n)[number])
    ensures entries[ByEntry(entries, n)[number]].entryNumber == number
  {
    if n > 0 && entries[n - 1].entryNumber != number {
      IndexedIsLast(entries, n - 1, number);
    }
  }

  /** The last entry of a number is the only one. */
  lemma {:induction false} AboveIsUnique(entries: seq<MftEntry>, i: nat, p: nat)
    requires i < |entries| && IsAbove(entries, i, p)
    ensures ParentOf(entries, ByEntry(entries, |entries|), i) == Some(p)
  {
    ByEntryIndexesLast(entries, |entries|);
  }

  lemma {:induction false} TopmostHasNoNext(entries: seq<MftEntry>, i: nat)
    requires i < |entries| && IsTopmost(entries, i)
    ensures ParentOf(entries, ByEntry(entries, |entries|), i) == None
  {
    ByEntryIndexesLast(entries, |entries|);
  }

  lemma {:induction false} LineageInside(entries: seq<MftEntry>, line: seq<nat>, limit: nat)
    requires IsLineage(entries, line, limit)
    ensures Inside(entries, line)
  {
    if |line| > 1 {
      LineageInside(entries, line[1..], limit - 1);
    }
  }

  /** The walk from the last entry of a lineage stops there. */
  lemma {:induction false} WalkEnds(entries: seq<MftEntry>, i: nat, limit: nat)
    requires i < |entries| && limit > 0 && (limit == 1 || IsTopmost(entries, i))
    ensures Parts(entries, ByEntry(entries, |entries|), i, limit) == [entries[i].filename]
  {
    if limit > 1 {
      TopmostHasNoNext(entries, i);
    } else {
      assert forall cur :: Parts(entries, ByEntry(entries, |entries|), cur, 0) == [];
    }
  }

  lemma {:induction false} LineageIsWalked(entries: seq<MftEntry>, line: seq<nat>, limit: nat)
    requires IsLineage(entries, line, limit) && Inside(entries, line)
    ensures
      var parts := Parts(entries, ByEntry(entries, |entries|), line[0], limit);
      parts != [] && ".\\" + Join(Reversed(parts)) == PathDown(entries, line)
  {
    var byEntry, name := ByEntry(entries, |entries|), entries[line[0]].filename;
    if |line| == 1 {
      WalkEnds(entries, line[0], limit);
      JoinReversedCons(name, []);
    } else {
      AboveIsUnique(entries, line[0], line[1]);
      PartsCons(entries, byEntry, line[0], line[1], limit);
      LineageIsWalked(entries, line[1..], limit - 1);
      PathGrows(name, Parts(entries, byEntry, line[1], limit - 1));
    }
  }

  lemma {:induction false} PathGrows(name: string, above: seq<string>)
    requires above != []
    ensures ".\\" + Join(Reversed([name] + above)) == ".\\" + Join(Reversed(above)) + "\\" + name
  {
    JoinReversedCons(name, above);
  }

  lemma HasLineage(entries: seq<MftEntry>, i: nat, limit: nat) returns (line: seq<nat>)
    requires i < |entries| && limit > 0
    ensures IsLineage(entries, line, limit) && line[0] == i
    decreases limit
  {
    AboveIsNext(entries, i);
    var up := ParentOf(entries, ByEntry(entries, |entries|), i);
    if limit == 1 || up.None? {
      line := [i];
    } else {
      var above := HasLineage(entries, up.value, limit - 1);
      line := [i] + above;
      assert line[1..] == above;
    }
  }

  /**
   Every entry, whatever its parents are, has the path that its lineage spells: up to the root, up
   to an entry without a parent, or up to the 256th name.
   */
  lemma FullPathIsLineage(entries: seq<MftEntry>, i: nat) returns (line: seq<nat>)
    requires i < |entries|
    ensures IsLineage(entries, line, 256) && line[0] == i && Inside(entries, line)
    ensures FullPath(entries, ByEntry(entries, |entries|), i) == PathDown(entries, line)
  {
    line := HasLineage(entries, i, 256);
    LineageInside(entries, line, 256);
    LineageIsWalked(entries, line, 256);
  }

  /** An entry whose parent is not in the table is reported right below the root. */
  lemma {:induction false} OrphanIsAtRoot(entries: seq<MftEntry>, i: nat)
    requires i < |entries| && forall j :: 0 <= j < |entries| ==> entries[j].entryNumber != entries[i].parentEntry
    ensures FullPath(entries, ByEntry(entries, |entries|), i) == ".\\" + entries[i].filename
  {
    LineageIsWalked(entries, [i], 256);
  }

  // ----- Seeding the Rewind engine -----

  function Rows(entries: seq<MftEntry>): (rows: seq<(nat, nat, string, nat, nat)>)
    ensures |rows| == |entries|
  {
    seq(|entries|, i requires 0 <= i < |entries| =>
      (entries[i].entryNumber, entries[i].sequenceNumber, entries[i].filename,
       entries[i].parentEntry, entries[i].parentSequence))
  }

  method SeedRewind(entries: seq<MftEntry>) returns (engine: RewindEngine)
    ensures fresh(engine) && engine.lookup == SeedTable(Rows(entries))
    ensures DistinctNumbers(entries) ==> forall i :: 0 <= i < |entries| && entries[i].entryNumber != 5 ==>
              (engine.ResolvePath(entries[i].Key()) == FullPath(entries, ByEntry(entries, |entries|), i)
               <==> Reaches(entries, i, MAX_NAMES))
  {
    if DistinctNumbers(entries) {
      forall i | 0 <= i < |entries| && entries[i].entryNumber != 5
        ensures FullPath(entries, ByEntry(entries, |entries|), i)
                  == ResolveFrom(SeedTable(Rows(entries)), entries[i].Key(), 0)
                <==> Reaches(entries, i, MAX_NAMES)
      {
        ResolversAgreeIff(entries, i);
      }
    }
    engine := new RewindEngine.FromMft(Rows(entries));
  }

  predicate DistinctNumbers(entries: seq<MftEntry>) {
    forall i, j :: 0 <= i < j < |entries| ==> entries[i].entryNumber != entries[j].entryNumber
  }

  lemma SeededEntries(entries: seq<MftEntry>, n: nat, k: EntryKey)
    requires DistinctNumbers(entries) && n <= |entries|
    ensures forall i :: 0 <= i < n && entries[i].Key() == k ==>
              k in SeedTable(Rows(entries)[..n]) && SeedTable(Rows(entries)[..n])[k] == entries[i].Info()
    ensures k in SeedTable(Rows(entries)[..n]) ==> exists i :: 0 <= i < n && entries[i].Key() == k
  {
    if n > 0 {
      SeededEntries(entries, n - 1, k);
      var rows := Rows(entries)[..n];
      assert rows[..|rows| - 1] == Rows(entries)[..n - 1];
      if k in SeedTable(rows) && entries[n - 1].Key() != k {
        var i :| 0 <= i < n - 1 && entries[i].Key() == k;
      }
    }
  }

  lemma SeededTable(entries: seq<MftEntry>, k: EntryKey)
    requires DistinctNumbers(entries)
    ensures forall i :: 0 <= i < |entries| && entries[i].Key() == k ==>
              k in SeedTable(Rows(entries)) && SeedTable(Rows(entries))[k] == entries[i].Info()
    ensures k in SeedTable(Rows(entries)) ==> exists i :: 0 <= i < |entries| && entries[i].Key() == k
  {
    SeededEntries(entries, |entries|, k);
    assert Rows(entries)[..|entries|] == Rows(entries);
  }

  lemma {:induction false} ByEntryFinds(entries: seq<MftEntry>, n: nat, i: nat)
    requires DistinctNumbers(entries) && i < n <= |entries|
    ensures entries[i].entryNumber in ByEntry(entries, n) && ByEntry(entries, n)[entries[i].entryNumber] == i
  {
    if i < n - 1 {
      ByEntryFinds(entries, n - 1, i);
    }
  }

  // ----- The two resolvers -----

  /** Entry `p` is the parent that entry `i` names, sequence number included. */
  predicate NamesParent(entries: seq<MftEntry>, i: nat, p: nat)
    requires i < |entries|
  {
    && p < |entries| && entries[i].parentEntry != 5
    && entries[p].Key() == EntryKey(entries[i].parentEntry, entries[i].parentSequence)
  }

  /** The parent references of entry `i` reach entry 5 within `n` names. */
  ghost predicate Reaches(entries: seq<MftEntry>, i: nat, n: nat)
    requires i < |entries|
    decreases n
  {
    n > 0 && (entries[i].parentEntry == 5
              || exists p :: 0 <= p < |entries| && NamesParent(entries, i, p) && Reaches(entries, p, n - 1))
  }

  lemma {:induction false} SelfParentNeverReaches(entries: seq<MftEntry>, i: nat, n: nat)
    requires DistinctNumbers(entries) && i < |entries|
    requires entries[i].parentEntry == entries[i].entryNumber != 5
    ensures !Reaches(entries, i, n)
  {
    if n > 0 {
      SelfParentNeverReaches(entries, i, n - 1);
    }
  }

  /** One level: the engine appends the name that the other walk puts last. */
  lemma ClimbAgrees(t: Table, k: EntryKey, depth: nat, above: seq<string>)
    requires k in t && !k.IsRoot() && depth < MAX_DEPTH
    requires if above == [] then t[k].parent.IsRoot()
             else ResolveFrom(t, t[k].parent, depth + 1) == ".\\" + Join(Reversed(above))
    ensures ResolveFrom(t, k, depth) == ".\\" + Join(Reversed([t[k].name] + above))
  {
    JoinReversedCons(t[k].name, above);
    if above != [] {
      var j := Join(Reversed(above));
      assert (".\\" + j) + "\\" + t[k].name == ".\\" + (j + "\\" + t[k].name);
    }
  }

  /** Table and index lead to the entries. */
  ghost predicate Leads(entries: seq<MftEntry>, t: Table, byEntry: map<nat, nat>) {
    forall i :: 0 <= i < |entries| ==>
      && entries[i].Key() in t && t[entries[i].Key()] == entries[i].Info()
      && entries[i].entryNumber in byEntry && byEntry[entries[i].entryNumber] == i
  }

  lemma {:induction false} SeedAndIndexLead(entries: seq<MftEntry>)
    requires DistinctNumbers(entries)
    ensures Leads(entries, SeedTable(Rows(entries)), ByEntry(entries, |entries|))
  {
    forall i | 0 <= i < |entries|
      ensures entries[i].Key() in SeedTable(Rows(entries))
      ensures SeedTable(Rows(entries))[entries[i].Key()] == entries[i].Info()
      ensures entries[i].entryNumber in ByEntry(entries, |entries|)
      ensures ByEntry(entries, |entries|)[entries[i].entryNumber] == i
    {
      SeededTable(entries, entries[i].Key());
      ByEntryFinds(entries, |entries|, i);
    }
  }

  lemma {:induction false} WalksAgreeOn(entries: seq<MftEntry>, t: Table, byEntry: map<nat, nat>, i: nat, n: nat,
                                        depth: nat, budget: nat)
    requires DistinctNumbers(entries) && i < |entries| && entries[i].entryNumber != 5 && Leads(entries, t, byEntry)
    requires Reaches(entries, i, n) && depth + n <= MAX_DEPTH && n <= budget
    ensures
      var parts := Parts(entries, byEntry, i, budget);
      parts != [] && ResolveFrom(t, entries[i].Key(), depth) == ".\\" + Join(Reversed(parts))
    decreases n
  {
    var e := entries[i];
    if e.parentEntry == 5 {
      ClimbAgrees(t, e.Key(), depth, []);
    } else {
      var p: nat :| p < |entries| && NamesParent(entries, i, p) && Reaches(entries, p, n - 1);
      if e.parentEntry == e.entryNumber {
        SelfParentNeverReaches(entries, i, n);
      }
      WalksAgreeOn(entries, t, byEntry, p, n - 1, depth + 1, budget - 1);
      ClimbAgrees(t, e.Key(), depth, Parts(entries, byEntry, p, budget - 1));
      PartsCons(entries, byEntry, i, p, budget);
    }
  }

  /** Both walks climb the same chain and spell the same path. */
  lemma {:induction false} WalksAgree(entries: seq<MftEntry>, i: nat, n: nat, depth: nat, budget: nat)
    requires DistinctNumbers(entries) && i < |entries| && entries[i].entryNumber != 5
    requires Reaches(entries, i, n) && depth + n <= MAX_DEPTH && n <= budget
    ensures
      var parts := Parts(entries, ByEntry(entries, |entries|), i, budget);
      parts != [] && ResolveFrom(SeedTable(Rows(entries)), entries[i].Key(), depth) == ".\\" + Join(Reversed(parts))
  {
    SeedAndIndexLead(entries);
    WalksAgreeOn(entries, SeedTable(Rows(entries)), ByEntry(entries, |entries|), i, n, depth, budget);
  }

  lemma PartsCons(entries: seq<MftEntry>, byEntry: map<nat, nat>, i: nat, p: nat, budget: nat)
    requires i < |entries| && budget > 0 && ParentOf(entries, byEntry, i) == Some(p)
    ensures Parts(entries, byEntry, i, budget) == [entries[i].filename] + Parts(entries, byEntry, p, budget - 1)
  {
  }

  lemma {:induction false} ChainReaches(entries: seq<MftEntry>, i: nat, chain: seq<EntryKey>)
    requires DistinctNumbers(entries) && i < |entries|
    requires IsChain(SeedTable(Rows(entries)), chain) && |chain| > 1 && chain[0] == entries[i].Key()
    ensures Reaches(entries, i, |chain| - 1)
    decreases |chain|
  {
    SeededTable(entries, chain[0]);
    assert chain[1] == entries[i].Info().parent;
    if |chain| > 2 {
      SeededTable(entries, chain[1]);
      var p: nat :| p < |entries| && entries[p].Key() == chain[1];
      ChainReaches(entries, p, chain[1..]);
      assert NamesParent(entries, i, p);
    }
  }

  lemma {:induction false} ReachesLonger(entries: seq<MftEntry>, i: nat, n: nat, m: nat)
    requires i < |entries| && Reaches(entries, i, n) && n <= m
    ensures Reaches(entries, i, m)
    decreases n
  {
    if entries[i].parentEntry != 5 {
      var p: nat :| p < |entries| && NamesParent(entries, i, p) && Reaches(entries, p, n - 1);
      ReachesLonger(entries, p, n - 1, m - 1);
    }
  }

  /**
   For every entry but the root itself, the two resolvers give the same path exactly when the
   parent references, sequence numbers included, lead to entry 5 within 256 names.
   */
  lemma {:induction false} ResolversAgreeIff(entries: seq<MftEntry>, i: nat)
    requires DistinctNumbers(entries) && i < |entries| && entries[i].entryNumber != 5
    ensures FullPath(entries, ByEntry(entries, |entries|), i)
              == ResolveFrom(SeedTable(Rows(entries)), entries[i].Key(), 0)
            <==> Reaches(entries, i, MAX_NAMES)
  {
    var t, k := SeedTable(Rows(entries)), entries[i].Key();
    if Reaches(entries, i, MAX_NAMES) {
      WalksAgree(entries, i, MAX_NAMES, 0, MAX_NAMES);
    }
    if FullPath(entries, ByEntry(entries, |entries|), i) == ResolveFrom(t, k, 0) {
      assert ResolveFrom(t, k, 0)[0] == '.';
      var chain := RootedResolveHasChain(t, k, 0);
      ChainReaches(entries, i, chain);
      ReachesLonger(entries, i, |chain| - 1, MAX_NAMES);
    }
  }

  lemma {:induction false} WalkFilesUnderReuse(entries: seq<MftEntry>)
    requires entries == [MftEntry(20, 2, "new", 5, 5), MftEntry(10, 1, "f", 20, 1)]
    ensures FullPath(entries, ByEntry(entries, 2), 1) == ".\\new\\f"
  {
    var byEntry := ByEntry(entries, 2);
    ByEntryFinds(entries, 2, 0);
    assert ParentOf(entries, byEntry, 0) == None;
    assert Parts(entries, byEntry, 0, MAX_NAMES - 1) == ["new"];
    PartsCons(entries, byEntry, 1, 0, MAX_NAMES);
    JoinReversedCons("new", []);
    JoinReversedCons("f", ["new"]);
  }

  /**
   A directory entry that was reused: the file still names sequence 1 of entry 20, which is now
   another directory under sequence 2.  One resolver files it there, the other says it does not
   know the parent.
   */
  lemma {:induction false} ReusedParentSplitsResolvers(entries: seq<MftEntry>)
    requires entries == [MftEntry(20, 2, "new", 5, 5), MftEntry(10, 1, "f", 20, 1)]
    ensures DistinctNumbers(entries)
    ensures FullPath(entries, ByEntry(entries, 2), 1) == ".\\new\\f"
    ensures ResolveFrom(SeedTable(Rows(entries)), entries[1].Key(), 0) == "UNKNOWN(20:1)\\f"
  {
    WalkFilesUnderReuse(entries);
    var t := SeedTable(Rows(entries));
    var parent := EntryKey(20, 1);
    SeededTable(entries, entries[1].Key());
    SeededTable(entries, parent);
    assert KeyText(parent) == "(20:1)" by {
      assert Decimal(2) == "2" && Decimal(20) == "20" && Decimal(1) == "1";
    }
    assert ResolveFrom(t, parent, 1) == "UNKNOWN(20:1)";
  }
}
