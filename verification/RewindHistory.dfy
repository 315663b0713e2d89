/**
 What the Rewind engine promises, stated against the history of the volume itself.

 A history is one `Volume` per journal position.  `names` keeps the last name and parent of
 every key that exists or has existed; `live` is the part not deleted yet.
 */
module RewindHistory {
  import opened Rewind

  // ----- The reverse pass, key by key -----

  ghost predicate Mentions(records: seq<UsnRecord>, k: EntryKey) {
    exists i :: 0 <= i < |records| && records[i].Key() == k
  }

  ghost predicate IsFirstOldName(records: seq<UsnRecord>, k: EntryKey, i: nat) {
    && i < |records| && records[i].Key() == k && records[i].reason.renameOldName
    && forall j :: 0 <= j < i && records[j].Key() == k ==> !records[j].reason.renameOldName
  }

  ghost predicate HasOldName(records: seq<UsnRecord>, k: EntryKey) {
    exists i :: 0 <= i < |records| && records[i].Key() == k && records[i].reason.renameOldName
  }

  ghost predicate IsLastMention(records: seq<UsnRecord>, k: EntryKey, i: nat) {
    && i < |records| && records[i].Key() == k
    && forall j :: i < j < |records| ==> records[j].Key() != k
  }

  /**
   The table the reverse pass leaves: at each key its earliest RENAME_OLD_NAME value, else its
   seed, else its latest record, and no other key.
   */
  lemma {:induction false} ReversePassValue(seed: Table, records: seq<UsnRecord>, k: EntryKey)
    ensures k in ReversePass(seed, records) <==> k in seed || Mentions(records, k)
    ensures forall i: nat :: IsFirstOldName(records, k, i) ==> ReversePass(seed, records)[k] == records[i].Info()
    ensures !HasOldName(records, k) && k in seed ==> ReversePass(seed, records)[k] == seed[k]
    ensures !HasOldName(records, k) && k !in seed ==>
              forall i: nat :: IsLastMention(records, k, i) ==> ReversePass(seed, records)[k] == records[i].Info()
  {
    if records != [] {
      var rest := records[1..];
      ReversePassValue(seed, rest, k);
      assert forall i :: 0 < i < |records| ==> records[i] == rest[i - 1];
      assert forall i :: 0 <= i < |rest| ==> rest[i] == records[i + 1];
      assert Mentions(records, k) <==> records[0].Key() == k || Mentions(rest, k);
      assert HasOldName(records, k) <==>
             (records[0].Key() == k && records[0].reason.renameOldName) || HasOldName(rest, k);
      forall i: nat | IsFirstOldName(records, k, i)
        ensures ReversePass(seed, records)[k] == records[i].Info()
      {
        if i > 0 {
          assert forall j :: 0 <= j < i - 1 ==> rest[j] == records[j + 1];
          assert IsFirstOldName(rest, k, i - 1);
        }
      }
      forall i: nat | !HasOldName(records, k) && k !in seed && IsLastMention(records, k, i)
        ensures ReversePass(seed, records)[k] == records[i].Info()
      {
        if i > 0 {
          assert IsLastMention(rest, k, i - 1);
        } else {
          assert !Mentions(rest, k);
        }
      }
    }
  }

  lemma FirstOldName(records: seq<UsnRecord>, k: EntryKey, n: nat) returns (i: nat)
    requires n < |records| && records[n].Key() == k && records[n].reason.renameOldName
    ensures i <= n && IsFirstOldName(records, k, i)
  {
    i := n;
    if j: nat :| j < n && records[j].Key() == k && records[j].reason.renameOldName {
      i := FirstOldName(records, k, j);
    }
  }

  lemma LastMention(records: seq<UsnRecord>, k: EntryKey, n: nat) returns (i: nat)
    requires n < |records| && records[n].Key() == k
    ensures n <= i && IsLastMention(records, k, i)
    decreases |records| - n
  {
    i := n;
    if j: nat :| n < j < |records| && records[j].Key() == k {
      i := LastMention(records, k, j);
    }
  }

  /** Rewinding the same journal again changes neither the table nor any resolved record. */
  lemma {:induction false} RewindIsIdempotent(seed: Table, records: seq<UsnRecord>)
    ensures ReversePass(ReversePass(seed, records), records) == ReversePass(seed, records)
    ensures forall i :: 0 <= i < |records| ==>
              var once := ReversePass(seed, records);
              ResolveRecord(ForwardTable(ReversePass(once, records), records, i + 1), records[i])
              == ResolveRecord(ForwardTable(once, records, i + 1), records[i])
  {
    var once := ReversePass(seed, records);
    var twice := ReversePass(once, records);
    forall k
      ensures k in once <==> k in twice
      ensures k in once ==> once[k] == twice[k]
    {
      ReversePassValue(seed, records, k);
      ReversePassValue(once, records, k);
      if HasOldName(records, k) {
        var n: nat :| n < |records| && records[n].Key() == k && records[n].reason.renameOldName;
        var i := FirstOldName(records, k, n);
      }
    }
    assert once == twice;
  }

  // ----- The volume the journal describes -----

  datatype Volume = Volume(names: Table, live: set<EntryKey>)

  /** The key may stay live, or the record may be its last (a deletion). */
  ghost predicate MayEnd(live: set<EntryKey>, k: EntryKey, after: set<EntryKey>) {
    after == live || after == live - {k}
  }

  ghost predicate Repeats(before: Volume, r: UsnRecord, after: Volume) {
    && r.Key() in before.live && r.Key() in before.names && before.names[r.Key()] == r.Info()
    && after.names == before.names
    && MayEnd(before.live, r.Key(), after.live)
  }

  ghost predicate Creates(before: Volume, r: UsnRecord, after: Volume) {
    && r.reason.fileCreate && !r.reason.renameOldName
    && r.Key() !in before.names
    && after.names == before.names[r.Key() := r.Info()]
    && MayEnd(before.live + {r.Key()}, r.Key(), after.live)
  }

  ghost predicate Renames(before: Volume, r: UsnRecord, after: Volume) {
    && r.reason.renameNewName && !r.reason.renameOldName
    && r.Key() in before.live && r.Key() in before.names
    && after.names == before.names[r.Key() := r.Info()]
    && MayEnd(before.live, r.Key(), after.live)
  }

  /** One journalled change: a record that repeats the current name, the creation of a key that
      never existed, or a rename. */
  ghost predicate Step(before: Volume, r: UsnRecord, after: Volume) {
    Repeats(before, r, after) || Creates(before, r, after) || Renames(before, r, after)
  }

  /** `h` is a history of `records` whose final names are what the seed holds. */
  ghost predicate Consistent(seed: Table, records: seq<UsnRecord>, h: seq<Volume>) {
    && |h| == |records| + 1
    && h[0].live <= h[0].names.Keys
    && (forall i :: 0 <= i < |records| ==> Step(h[i], records[i], h[i + 1]))
    && (forall k :: k in seed ==> k in h[|records|].names && h[|records|].names[k] == seed[k])
  }

  ghost predicate Known(seed: Table, records: seq<UsnRecord>, k: EntryKey) {
    k in seed || Mentions(records, k)
  }

  /** The forward table agrees with the volume at position `n` on every known key. */
  ghost predicate ExactAt(seed: Table, records: seq<UsnRecord>, h: seq<Volume>, n: nat)
    requires n <= |records| < |h|
  {
    forall k :: k in h[n].names && Known(seed, records, k) ==>
      var t := ForwardTable(ReversePass(seed, records), records, n);
      k in t && t[k] == h[n].names[k]
  }

  ghost predicate ExactThroughout(seed: Table, records: seq<UsnRecord>, h: seq<Volume>)
    requires |records| < |h|
  {
    forall n :: 0 <= n <= |records| ==> ExactAt(seed, records, h, n)
  }

  ghost predicate OldNameBefore(records: seq<UsnRecord>, i: nat)
    requires i < |records|
  {
    exists j :: 0 <= j < i && records[j].Key() == records[i].Key() && records[j].reason.renameOldName
  }

  /** Every rename to another name or parent comes after a RENAME_OLD_NAME record of the same key. */
  ghost predicate RenamesAnnounced(records: seq<UsnRecord>, h: seq<Volume>)
    requires |records| < |h|
  {
    forall i :: 0 <= i < |records| && Renames(h[i], records[i], h[i + 1]) && h[i].names != h[i + 1].names ==>
      OldNameBefore(records, i)
  }

  // ----- How one key evolves -----

  lemma NamesPersist(seed: Table, records: seq<UsnRecord>, h: seq<Volume>, k: EntryKey, m: nat, n: nat)
    requires Consistent(seed, records, h)
    requires m <= n <= |records| && k in h[m].names
    ensures k in h[n].names
  {
    if m < n {
      NamesPersist(seed, records, h, k, m, n - 1);
      assert Step(h[n - 1], records[n - 1], h[n]);
    }
  }

  /** A key keeps its value over records that are not renames of it. */
  lemma NameUnchanged(seed: Table, records: seq<UsnRecord>, h: seq<Volume>, k: EntryKey, m: nat, n: nat)
    requires Consistent(seed, records, h)
    requires m <= n <= |records| && k in h[m].names
    requires forall i :: m <= i < n && records[i].Key() == k && Renames(h[i], records[i], h[i + 1]) ==>
               h[i].names == h[i + 1].names
    ensures k in h[n].names && h[n].names[k] == h[m].names[k]
  {
    if m < n {
      NameUnchanged(seed, records, h, k, m, n - 1);
      assert Step(h[n - 1], records[n - 1], h[n]);
    }
  }

  /** Whatever a record does, afterwards its key has the name it carries. */
  lemma RecordGivesName(seed: Table, records: seq<UsnRecord>, h: seq<Volume>, i: nat)
    requires Consistent(seed, records, h) && i < |records|
    ensures records[i].Key() in h[i + 1].names && h[i + 1].names[records[i].Key()] == records[i].Info()
    ensures records[i].reason.renameOldName ==>
              records[i].Key() in h[i].names && h[i].names[records[i].Key()] == records[i].Info()
  {
    assert Step(h[i], records[i], h[i + 1]);
  }

  /** If the reverse pass recovers the initial names, the forward pass follows the volume. */
  lemma ExactFromStart(seed: Table, records: seq<UsnRecord>, h: seq<Volume>, n: nat)
    requires Consistent(seed, records, h) && n <= |records|
    requires ExactAt(seed, records, h, 0)
    ensures ExactAt(seed, records, h, n)
  {
    if n > 0 {
      ExactFromStart(seed, records, h, n - 1);
      var r := records[n - 1];
      assert Step(h[n - 1], r, h[n]);
      assert Mentions(records, r.Key());
    }
  }

  // ----- Historical exactness -----

  /** With announced renames, a key is unchanged until its first RENAME_OLD_NAME. */
  lemma UnchangedUntilOldName(seed: Table, records: seq<UsnRecord>, h: seq<Volume>, k: EntryKey, n: nat)
    requires Consistent(seed, records, h) && RenamesAnnounced(records, h)
    requires n <= |records| && k in h[0].names
    requires forall j :: 0 <= j < n && records[j].Key() == k ==> !records[j].reason.renameOldName
    ensures k in h[n].names && h[n].names[k] == h[0].names[k]
  {
    NameUnchanged(seed, records, h, k, 0, n);
  }

  lemma {:induction false} RewoundValueWhenAnnounced(seed: Table, records: seq<UsnRecord>, h: seq<Volume>, k: EntryKey)
    requires Consistent(seed, records, h) && RenamesAnnounced(records, h)
    requires k in h[0].names && Known(seed, records, k)
    ensures k in ReversePass(seed, records) && ReversePass(seed, records)[k] == h[0].names[k]
  {
    ReversePassValue(seed, records, k);
    if HasOldName(records, k) {
      var n: nat :| n < |records| && records[n].Key() == k && records[n].reason.renameOldName;
      var i := FirstOldName(records, k, n);
      UnchangedUntilOldName(seed, records, h, k, i);
      RecordGivesName(seed, records, h, i);
    } else if k in seed {
      UnchangedUntilOldName(seed, records, h, k, |records|);
    } else {
      var n: nat :| n < |records| && records[n].Key() == k;
      var i := LastMention(records, k, n);
      UnchangedUntilOldName(seed, records, h, k, i + 1);
      RecordGivesName(seed, records, h, i);
    }
  }

  /** The headline: with announced renames the forward table is the volume at every position. */
  lemma RewindIsHistoricallyExact(seed: Table, records: seq<UsnRecord>, h: seq<Volume>)
    requires Consistent(seed, records, h) && RenamesAnnounced(records, h)
    ensures ExactThroughout(seed, records, h)
  {
    forall k | k in h[0].names && Known(seed, records, k)
      ensures k in ReversePass(seed, records) && ReversePass(seed, records)[k] == h[0].names[k]
    {
      RewoundValueWhenAnnounced(seed, records, h, k);
    }
    forall n | 0 <= n <= |records|
      ensures ExactAt(seed, records, h, n)
    {
      ExactFromStart(seed, records, h, n);
    }
  }

  lemma {:induction false} PathAgrees(t: Table, u: Table, chain: seq<EntryKey>)
    requires IsChain(u, chain)
    requires forall j :: 0 <= j < |chain| - 1 ==> chain[j] in t && t[chain[j]] == u[chain[j]]
    ensures IsChain(t, chain) && PathOf(t, chain) == PathOf(u, chain)
    decreases |chain|
  {
    if |chain| > 1 {
      PathAgrees(t, u, chain[1..]);
    }
  }

  /**
   Each resolved record spells the path its file had right after that record, for every ancestor
   chain whose keys are known and whose parent part is within the depth cap.
   */
  lemma FullPathIsTruePath(seed: Table, records: seq<UsnRecord>, h: seq<Volume>, i: nat, chain: seq<EntryKey>)
    requires Consistent(seed, records, h) && i < |records|
    requires ExactThroughout(seed, records, h)
    requires IsChain(h[i + 1].names, chain) && chain[0] == records[i].Key() && 1 < |chain| <= MAX_DEPTH + 2
    requires forall j :: 0 < j < |chain| - 1 ==> Known(seed, records, chain[j])
    ensures ResolveRecord(ForwardTable(ReversePass(seed, records), records, i + 1), records[i]).fullPath
            == PathOf(h[i + 1].names, chain)
    ensures IsChain(h[i + 1].names, chain[1..])
    ensures ResolveRecord(ForwardTable(ReversePass(seed, records), records, i + 1), records[i]).parentPath
            == PathOf(h[i + 1].names, chain[1..])
  {
    var t := ForwardTable(ReversePass(seed, records), records, i + 1);
    assert ExactAt(seed, records, h, i + 1);
    RecordGivesName(seed, records, h, i);
    PathAgrees(t, h[i + 1].names, chain[1..]);
    ResolveChain(t, chain[1..], 0);
  }

  /**
   A journal that lost the RENAME_OLD_NAME of a directory: the file written while the directory
   was still called "a" is reported under "b".
   */
  lemma {:induction false} LostOldNameMisplacesFile(seed: Table, records: seq<UsnRecord>, h: seq<Volume>)
    requires seed == map[EntryKey(40, 1) := EntryInfo("b", EntryKey(5, 5))]
    requires records == [
               UsnRecord(41, 1, 40, 1, "f", Reason(false, false, false)),
               UsnRecord(40, 1, 5, 5, "b", Reason(false, true, false))]
    requires h == [
               Volume(map[EntryKey(40, 1) := EntryInfo("a", EntryKey(5, 5)),
                          EntryKey(41, 1) := EntryInfo("f", EntryKey(40, 1))],
                      {EntryKey(40, 1), EntryKey(41, 1)}),
               Volume(map[EntryKey(40, 1) := EntryInfo("a", EntryKey(5, 5)),
                          EntryKey(41, 1) := EntryInfo("f", EntryKey(40, 1))],
                      {EntryKey(40, 1), EntryKey(41, 1)}),
               Volume(map[EntryKey(40, 1) := EntryInfo("b", EntryKey(5, 5)),
                          EntryKey(41, 1) := EntryInfo("f", EntryKey(40, 1))],
                      {EntryKey(40, 1), EntryKey(41, 1)})]
    ensures Consistent(seed, records, h)
    ensures ResolveRecord(ForwardTable(ReversePass(seed, records), records, 1), records[0]).fullPath == ".\\b\\f"
    ensures IsChain(h[1].names, [EntryKey(41, 1), EntryKey(40, 1), EntryKey(5, 5)])
    ensures PathOf(h[1].names, [EntryKey(41, 1), EntryKey(40, 1), EntryKey(5, 5)]) == ".\\a\\f"
  {
    var dir, file, root := EntryKey(40, 1), EntryKey(41, 1), EntryKey(5, 5);
    assert Repeats(h[0], records[0], h[1]);
    assert Renames(h[1], records[1], h[2]);

    assert records[1..][1..] == [];
    var rewound := ReversePass(seed, records);
    assert ReversePass(seed, records[1..]) == seed;
    assert rewound[dir] == EntryInfo("b", root);
    var t := ForwardTable(rewound, records, 1);
    assert t == ForwardStep(ForwardTable(rewound, records, 0), records[0]);
    assert ForwardTable(rewound, records, 0) == rewound;
    assert t[dir] == EntryInfo("b", root);
    assert IsChain(t, [dir, root]);
    ResolveChain(t, [dir, root], 0);
    assert [dir, root][1..] == [root];
    assert PathOf(t, [dir, root]) == ".\\b";

    assert [file, dir, root][1..] == [dir, root];
    assert PathOf(h[1].names, [root]) == ".";
    assert PathOf(h[1].names, [dir, root]) == ".\\a";
  }
}
