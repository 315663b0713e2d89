/**
 Exactly which results of the Rewind engine can be trusted.

 A journal that lost records has many histories.  A result is trustworthy if every key its path
 was resolved through has its true name and parent under all of them, and that can be told from
 seed and journal alone.
 */
module RewindTrust {
  import opened Wrappers
  import opened Rewind
  import opened RewindHistory
  import opened RewindRevision

  // ----- What seed and journal say about a key -----

  /** The last record of `k` among the first `n`. */
  ghost function LastBefore(records: seq<UsnRecord>, n: nat, k: EntryKey): (r: Option<nat>)
    requires n <= |records|
    ensures r.None? ==> forall j :: 0 <= j < n ==> records[j].Key() != k
    ensures r.Some? ==> r.value < n && records[r.value].Key() == k
    ensures r.Some? ==> forall j :: r.value < j < n ==> records[j].Key() != k
  {
    if n == 0 then None else if records[n - 1].Key() == k then Some(n - 1) else LastBefore(records, n - 1, k)
  }

  /** The first record of `k` from position `n` on. */
  ghost function FirstFrom(records: seq<UsnRecord>, n: nat, k: EntryKey): (r: Option<nat>)
    requires n <= |records|
    ensures r.None? ==> forall j :: n <= j < |records| ==> records[j].Key() != k
    ensures r.Some? ==> n <= r.value < |records| && records[r.value].Key() == k
    ensures r.Some? ==> forall j :: n <= j < r.value ==> records[j].Key() != k
    decreases |records| - n
  {
    if n == |records| then None else if records[n].Key() == k then Some(n) else FirstFrom(records, n + 1, k)
  }

  predicate SetsName(r: UsnRecord) {
    r.reason.renameNewName || r.reason.fileCreate
  }

  /** The name the last RENAME_NEW_NAME or FILE_CREATE of `k` among the first `n` records gives it. */
  ghost function LastSet(records: seq<UsnRecord>, n: nat, k: EntryKey): Option<EntryInfo>
    requires n <= |records|
  {
    if n == 0 then None
    else if records[n - 1].Key() == k && SetsName(records[n - 1]) then Some(records[n - 1].Info())
    else LastSet(records, n - 1, k)
  }

  lemma OldNameHasFirst(records: seq<UsnRecord>, k: EntryKey)
    requires HasOldName(records, k)
    ensures exists i: nat :: IsFirstOldName(records, k, i)
  {
    var n: nat :| n < |records| && records[n].Key() == k && records[n].reason.renameOldName;
    var i := FirstOldName(records, k, n);
  }

  /** The name of `k` before the journal: its earliest old name, else its seed, else its last record. */
  ghost function InitialValue(seed: Table, records: seq<UsnRecord>, k: EntryKey): Option<EntryInfo> {
    var last := LastBefore(records, |records|, k);
    if HasOldName(records, k) then
      OldNameHasFirst(records, k);
      var i: nat :| IsFirstOldName(records, k, i);
      Some(records[i].Info())
    else if k in seed then Some(seed[k])
    else if last.Some? then Some(records[last.value].Info())
    else None
  }

  /** The name of `k` after `n` records, as seed and journal tell it. */
  ghost function ValueAfter(seed: Table, records: seq<UsnRecord>, n: nat, k: EntryKey): Option<EntryInfo>
    requires n <= |records|
  {
    var named := LastSet(records, n, k);
    if named.Some? then named else InitialValue(seed, records, k)
  }

  function At(t: Table, k: EntryKey): Option<EntryInfo> {
    if k in t then Some(t[k]) else None
  }

  lemma {:induction false} InitialIsRewound(seed: Table, records: seq<UsnRecord>, k: EntryKey)
    ensures At(ReversePass(seed, records), k) == InitialValue(seed, records, k)
  {
    ReversePassValue(seed, records, k);
    var last := LastBefore(records, |records|, k);
    if HasOldName(records, k) {
      OldNameHasFirst(records, k);
    }
    if last.Some? {
      assert IsLastMention(records, k, last.value);
    }
  }

  lemma MentionedHasInitial(seed: Table, records: seq<UsnRecord>, k: EntryKey, j: nat)
    requires j < |records| && records[j].Key() == k
    ensures InitialValue(seed, records, k).Some?
  {
  }

  /** The forward table holds what seed and journal tell, at every position. */
  lemma {:induction false} TableValue(seed: Table, records: seq<UsnRecord>, n: nat, k: EntryKey)
    requires n <= |records|
    ensures At(ForwardTable(ReversePass(seed, records), records, n), k) == ValueAfter(seed, records, n, k)
  {
    InitialIsRewound(seed, records, k);
    if n > 0 {
      TableValue(seed, records, n - 1, k);
      if records[n - 1].Key() == k {
        MentionedHasInitial(seed, records, k, n - 1);
      }
    }
  }

  // ----- The keys a result depends on -----

  /** Resolving `start` in `t` looks `k` up. */
  ghost predicate Consults(t: Table, start: EntryKey, depth: nat, k: EntryKey)
    decreases MAX_DEPTH + 1 - depth, |t|
  {
    depth <= MAX_DEPTH && !start.IsRoot() && (start == k || (start in t && Consults(t, t[start].parent, depth + 1, k)))
  }

  /** The same keys, from seed and journal alone. */
  ghost predicate Climbs(seed: Table, records: seq<UsnRecord>, n: nat, start: EntryKey, depth: nat, k: EntryKey)
    requires n <= |records|
    decreases MAX_DEPTH + 1 - depth, |records|
  {
    && depth <= MAX_DEPTH && !start.IsRoot()
    && (start == k
        || (ValueAfter(seed, records, n, start).Some?
            && Climbs(seed, records, n, ValueAfter(seed, records, n, start).value.parent, depth + 1, k)))
  }

  lemma {:induction false} ClimbsIsConsults(seed: Table, records: seq<UsnRecord>, n: nat, start: EntryKey, depth: nat,
                                            k: EntryKey)
    requires n <= |records|
    ensures Consults(ForwardTable(ReversePass(seed, records), records, n), start, depth, k)
            <==> Climbs(seed, records, n, start, depth, k)
    decreases MAX_DEPTH + 1 - depth
  {
    if depth <= MAX_DEPTH {
      TableValue(seed, records, n, start);
      var v := ValueAfter(seed, records, n, start);
      if v.Some? {
        ClimbsIsConsults(seed, records, n, v.value.parent, depth + 1, k);
      }
    }
  }

  // ----- When the name of a key is pinned down -----

  /**
   After `n` records the name of `k` is beyond doubt: its latest record so far carries it; or it
   has none yet and its first later record is a RENAME_OLD_NAME, or is no RENAME_NEW_NAME and
   carries it; or the journal never mentions it and the seed does.
   */
  ghost predicate Pinned(seed: Table, records: seq<UsnRecord>, n: nat, k: EntryKey)
    requires n <= |records|
  {
    var before, after := LastBefore(records, n, k), FirstFrom(records, n, k);
    if before.Some? then ValueAfter(seed, records, n, k) == Some(records[before.value].Info())
    else if after.Some? then
      var r := records[after.value];
      r.reason.renameOldName || (!r.reason.renameNewName && InitialValue(seed, records, k) == Some(r.Info()))
    else k in seed
  }

  lemma {:induction false} UnsetBeforeFirst(records: seq<UsnRecord>, n: nat, k: EntryKey)
    requires n <= |records| && forall j :: 0 <= j < n ==> records[j].Key() != k
    ensures LastSet(records, n, k) == None
  {
    if n > 0 {
      UnsetBeforeFirst(records, n - 1, k);
    }
  }

  /** A pinned name is the true one under every history. */
  lemma PinnedIsTrue(seed: Table, records: seq<UsnRecord>, h: seq<Volume>, n: nat, k: EntryKey)
    requires Consistent(seed, records, h) && n <= |records| && Pinned(seed, records, n, k) && k in h[n].names
    ensures ValueAfter(seed, records, n, k) == Some(h[n].names[k])
  {
    var before, after := LastBefore(records, n, k), FirstFrom(records, n, k);
    if before.Some? {
      RecordGivesName(seed, records, h, before.value);
      NameUnchanged(seed, records, h, k, before.value + 1, n);
    } else {
      UnsetBeforeFirst(records, n, k);
      if after.Some? {
        NameUnchanged(seed, records, h, k, n, after.value);
        FirstRecordRepeats(seed, records, h, n, k, after.value);
      } else {
        NameUnchanged(seed, records, h, k, n, |records|);
      }
    }
  }

  lemma FirstRecordRepeats(seed: Table, records: seq<UsnRecord>, h: seq<Volume>, n: nat, k: EntryKey, j: nat)
    requires Consistent(seed, records, h) && n <= j < |records| && records[j].Key() == k && k in h[j].names
    requires forall m :: 0 <= m < j ==> records[m].Key() != k
    requires records[j].reason.renameOldName
             || (!records[j].reason.renameNewName && InitialValue(seed, records, k) == Some(records[j].Info()))
    ensures InitialValue(seed, records, k) == Some(h[j].names[k])
  {
    assert Step(h[j], records[j], h[j + 1]);
    if records[j].reason.renameOldName {
      assert IsFirstOldName(records, k, j) && HasOldName(records, k);
    }
  }

  // ----- Where it is not -----

  /** Where a name is not pinned, some history of the same journal has another one. */
  lemma UnpinnedIsMisread(seed: Table, records: seq<UsnRecord>, h: seq<Volume>, n: nat, k: EntryKey)
    returns (g: seq<Volume>)
    requires Consistent(seed, records, h) && n <= |records| && !Pinned(seed, records, n, k)
    ensures Consistent(seed, records, g) && k in g[n].names
    ensures ValueAfter(seed, records, n, k) != Some(g[n].names[k])
  {
    var before, after := LastBefore(records, n, k), FirstFrom(records, n, k);
    if before.Some? {
      g := h;
      RecordGivesName(seed, records, h, before.value);
      NameUnchanged(seed, records, h, k, before.value + 1, n);
    } else {
      UnsetBeforeFirst(records, n, k);
      var told := InitialValue(seed, records, k);
      var j, v := |records|, EntryInfo("", EntryKey(5, 5));
      if after.Some? {
        j := after.value;
        var info := records[j].Info();
        v := if told != Some(info) then info else EntryInfo(if info.name == "" then "~" else "", info.parent);
      }
      g := WithEarlierName(h, j, k, v);
      EarlierNameIsConsistent(seed, records, h, g, j, k, v);
    }
  }

  // ----- The results -----

  /** Every key that result `i` was resolved through has its true name and parent. */
  ghost predicate ResolvedTruly(seed: Table, records: seq<UsnRecord>, h: seq<Volume>, i: nat)
    requires i < |records| < |h|
  {
    var t := ForwardTable(ReversePass(seed, records), records, i + 1);
    forall k :: Consults(t, records[i].Info().parent, 0, k) && k in h[i + 1].names ==>
      k in t && t[k] == h[i + 1].names[k]
  }

  ghost predicate TrulyUnderEveryHistory(seed: Table, records: seq<UsnRecord>, i: nat)
    requires i < |records|
  {
    forall h :: Consistent(seed, records, h) ==> ResolvedTruly(seed, records, h, i)
  }

  /** The test, on seed and journal alone: after `n` records, every key on the way up from `start` is pinned. */
  ghost predicate AncestorsPinned(seed: Table, records: seq<UsnRecord>, n: nat, start: EntryKey)
    requires n <= |records|
  {
    forall k :: Climbs(seed, records, n, start, 0, k) ==> Pinned(seed, records, n, k)
  }

  /**
   Result `i` is resolved through true names under every history that explains the journal if
   and only if each key on the way up is pinned.
   */
  lemma TrustedIffPinned(seed: Table, records: seq<UsnRecord>, h: seq<Volume>, i: nat)
    requires Consistent(seed, records, h) && i < |records|
    ensures TrulyUnderEveryHistory(seed, records, i)
            <==> AncestorsPinned(seed, records, i + 1, records[i].Info().parent)
  {
    var start := records[i].Info().parent;
    if AncestorsPinned(seed, records, i + 1, start) {
      forall g | Consistent(seed, records, g)
        ensures ResolvedTruly(seed, records, g, i)
      {
        PinnedIsResolvedTruly(seed, records, g, i);
      }
    } else {
      var k :| Climbs(seed, records, i + 1, start, 0, k) && !Pinned(seed, records, i + 1, k);
      var g := UnpinnedIsResolvedFalsely(seed, records, h, i, k);
    }
  }

  lemma PinnedIsResolvedTruly(seed: Table, records: seq<UsnRecord>, h: seq<Volume>, i: nat)
    requires Consistent(seed, records, h) && i < |records|
    requires AncestorsPinned(seed, records, i + 1, records[i].Info().parent)
    ensures ResolvedTruly(seed, records, h, i)
  {
    var t := ForwardTable(ReversePass(seed, records), records, i + 1);
    forall k | Consults(t, records[i].Info().parent, 0, k) && k in h[i + 1].names
      ensures k in t && t[k] == h[i + 1].names[k]
    {
      ClimbsIsConsults(seed, records, i + 1, records[i].Info().parent, 0, k);
      PinnedIsTrue(seed, records, h, i + 1, k);
      TableValue(seed, records, i + 1, k);
    }
  }

  lemma UnpinnedIsResolvedFalsely(seed: Table, records: seq<UsnRecord>, h: seq<Volume>, i: nat, k: EntryKey)
    returns (g: seq<Volume>)
    requires Consistent(seed, records, h) && i < |records|
    requires Climbs(seed, records, i + 1, records[i].Info().parent, 0, k) && !Pinned(seed, records, i + 1, k)
    ensures Consistent(seed, records, g) && !ResolvedTruly(seed, records, g, i)
  {
    g := UnpinnedIsMisread(seed, records, h, i + 1, k);
    ClimbsIsConsults(seed, records, i + 1, records[i].Info().parent, 0, k);
    TableValue(seed, records, i + 1, k);
  }
}
