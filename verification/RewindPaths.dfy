/** What trusted and untrusted keys mean for the paths that the Rewind engine reports. */
module RewindPaths {
  import opened Wrappers
  import opened Rewind
  import opened RewindHistory
  import opened RewindRevision
  import opened RewindTrust

  lemma {:induction false} TrueKeysTruePath(t: Table, names: Table, chain: seq<EntryKey>, depth: nat)
    requires IsChain(names, chain) && depth + |chain| <= MAX_DEPTH + 1
    requires forall k :: Consults(t, chain[0], depth, k) && k in names ==> k in t && t[k] == names[k]
    ensures ResolveFrom(t, chain[0], depth) == PathOf(names, chain)
    decreases |chain|
  {
    if |chain| > 1 {
      assert Consults(t, chain[0], depth, chain[0]);
      TrueKeysTruePath(t, names, chain[1..], depth + 1);
    }
  }

  /** Resolved through true names, the reported path is the one the file had right after the record. */
  lemma {:induction false} ResolvedTrulyIsTruePath(seed: Table, records: seq<UsnRecord>, h: seq<Volume>, i: nat,
                                                   chain: seq<EntryKey>)
    requires Consistent(seed, records, h) && i < |records| && ResolvedTruly(seed, records, h, i)
    requires IsChain(h[i + 1].names, chain) && chain[0] == records[i].Key() && 1 < |chain| <= MAX_DEPTH + 2
    ensures ResolveRecord(ForwardTable(ReversePass(seed, records), records, i + 1), records[i]).fullPath
            == PathOf(h[i + 1].names, chain)
    ensures IsChain(h[i + 1].names, chain[1..])
    ensures ResolveRecord(ForwardTable(ReversePass(seed, records), records, i + 1), records[i]).parentPath
            == PathOf(h[i + 1].names, chain[1..])
  {
    RecordGivesName(seed, records, h, i);
    var t := ForwardTable(ReversePass(seed, records), records, i + 1);
    assert chain[1..][0] == records[i].Info().parent;
    TrueKeysTruePath(t, h[i + 1].names, chain[1..], 0);
  }

  // ----- Wrong paths -----

  /** Nothing says what `k` is called after `n` records: unknown, or named only by a later rename. */
  ghost predicate Ambiguous(seed: Table, records: seq<UsnRecord>, n: nat, k: EntryKey)
    requires n <= |records|
  {
    var after := FirstFrom(records, n, k);
    && LastBefore(records, n, k).None?
    && if after.None? then k !in seed
       else records[after.value].reason.renameNewName && !records[after.value].reason.renameOldName
  }

  lemma AbsentUnlessMentioned(seed: Table, records: seq<UsnRecord>, h: seq<Volume>, k: EntryKey, m: nat, n: nat)
    requires Consistent(seed, records, h) && m <= n <= |records| && k !in h[m].names
    requires forall j :: m <= j < n ==> records[j].Key() != k
    ensures k !in h[n].names
  {
    if m < n {
      AbsentUnlessMentioned(seed, records, h, k, m, n - 1);
      assert Step(h[n - 1], records[n - 1], h[n]);
    }
  }

  /** A pinned key exists under some history, beside everything that exists already. */
  lemma PinnedMayExist(seed: Table, records: seq<UsnRecord>, h: seq<Volume>, n: nat, k: EntryKey)
    returns (g: seq<Volume>)
    requires Consistent(seed, records, h) && n <= |records| && Pinned(seed, records, n, k)
    ensures Consistent(seed, records, g) && k in g[n].names && h[n].names.Keys <= g[n].names.Keys
  {
    g := h;
    var before, after := LastBefore(records, n, k), FirstFrom(records, n, k);
    if before.Some? {
      RecordGivesName(seed, records, h, before.value);
      NamesPersist(seed, records, h, k, before.value + 1, n);
    } else if k !in h[n].names {
      AbsentUnlessMentioned(seed, records, h, k, n, if after.Some? then after.value else |records|);
      var j := after.value;
      assert Step(h[j], records[j], h[j + 1]);
      g := WithEarlierName(h, j, k, records[j].Info());
      EarlierNameIsConsistent(seed, records, h, g, j, k, records[j].Info());
    }
  }

  /** The parents from `walk[0]` up: pinned all the way to the last one. */
  ghost predicate PinnedWalk(seed: Table, records: seq<UsnRecord>, n: nat, walk: seq<EntryKey>)
    requires n <= |records|
  {
    && walk != []
    && (forall j :: 0 <= j < |walk| ==> !walk[j].IsRoot())
    && forall j :: 0 <= j < |walk| - 1 ==>
         && Pinned(seed, records, n, walk[j]) && ValueAfter(seed, records, n, walk[j]).Some?
         && ValueAfter(seed, records, n, walk[j]).value.parent == walk[j + 1]
  }

  /** All keys of the walk but the last have a name. */
  ghost predicate AllNamed(names: Table, walk: seq<EntryKey>) {
    forall j :: 0 <= j < |walk| - 1 ==> walk[j] in names
  }

  lemma WalkMayExist(seed: Table, records: seq<UsnRecord>, h: seq<Volume>, n: nat, walk: seq<EntryKey>)
    returns (g: seq<Volume>)
    requires Consistent(seed, records, h) && n <= |records| && PinnedWalk(seed, records, n, walk)
    ensures Consistent(seed, records, g) && h[n].names.Keys <= g[n].names.Keys
    ensures AllNamed(g[n].names, walk)
    decreases |walk|
  {
    g := h;
    if |walk| > 1 {
      var first := PinnedMayExist(seed, records, h, n, walk[0]);
      assert PinnedWalk(seed, records, n, walk[1..]);
      g := WalkMayExist(seed, records, first, n, walk[1..]);
      forall j | 0 <= j < |walk| - 1
        ensures walk[j] in g[n].names
      {
        assert j > 0 ==> walk[j] == walk[1..][j - 1];
      }
    }
  }

  ghost predicate NamedAsTold(seed: Table, records: seq<UsnRecord>, n: nat, names: Table, walk: seq<EntryKey>)
    requires n <= |records|
  {
    forall j :: 0 <= j < |walk| - 1 ==> At(names, walk[j]) == ValueAfter(seed, records, n, walk[j])
  }

  ghost function ChainOf(r: UsnRecord, walk: seq<EntryKey>): seq<EntryKey> {
    [r.Key()] + walk + [EntryKey(5, 5)]
  }

  /** The history with the last key of the walk placed in the root under `name`. */
  lemma NameLastKey(seed: Table, records: seq<UsnRecord>, h: seq<Volume>, i: nat, walk: seq<EntryKey>, name: string)
    returns (g: seq<Volume>)
    requires Consistent(seed, records, h) && i < |records| && !records[i].Key().IsRoot()
    requires PinnedWalk(seed, records, i + 1, walk) && walk[0] == records[i].Info().parent
    requires Ambiguous(seed, records, i + 1, walk[|walk| - 1])
    requires AllNamed(h[i + 1].names, walk)
    ensures Consistent(seed, records, g) && IsChain(g[i + 1].names, ChainOf(records[i], walk))
    ensures At(g[i + 1].names, records[i].Key()) == Some(records[i].Info())
    ensures NamedAsTold(seed, records, i + 1, g[i + 1].names, walk)
    ensures At(g[i + 1].names, walk[|walk| - 1]) == Some(EntryInfo(name, EntryKey(5, 5)))
  {
    var n, k, v := i + 1, walk[|walk| - 1], EntryInfo(name, EntryKey(5, 5));
    var after := FirstFrom(records, n, k);
    var at := if after.Some? then after.value else |records|;
    g := WithEarlierName(h, at, k, v);
    EarlierNameIsConsistent(seed, records, h, g, at, k, v);
    RecordGivesName(seed, records, g, i);
    forall j | 0 <= j < |walk| - 1
      ensures walk[j] in g[n].names && ValueAfter(seed, records, n, walk[j]) == Some(g[n].names[walk[j]])
    {
      PinnedIsTrue(seed, records, g, n, walk[j]);
    }
    var chain := ChainOf(records[i], walk);
    forall j | 0 <= j < |chain| - 1
      ensures !chain[j].IsRoot() && chain[j] in g[n].names && g[n].names[chain[j]].parent == chain[j + 1]
    {
      assert j > 0 ==> chain[j] == walk[j - 1];
    }
  }

  lemma CancelSuffix(a: string, b: string, s: string)
    requires a + s == b + s
    ensures a == b
  {
    assert |a + s| == |a| + |s| && |b + s| == |b| + |s|;
    assert a == (a + s)[..|a|] && b == (b + s)[..|b|];
  }

  lemma {:induction false} PathsDiffer(t: Table, u: Table, chain: seq<EntryKey>)
    requires IsChain(t, chain) && IsChain(u, chain) && |chain| >= 2
    requires forall j :: 0 <= j < |chain| - 2 ==> t[chain[j]].name == u[chain[j]].name
    requires t[chain[|chain| - 2]].name != u[chain[|chain| - 2]].name
    ensures PathOf(t, chain) != PathOf(u, chain)
    decreases |chain|
  {
    var a, b, name := PathOf(t, chain[1..]), PathOf(u, chain[1..]), t[chain[0]].name;
    if |chain| == 2 {
      assert PathOf(t, chain)[2..] == t[chain[0]].name && PathOf(u, chain)[2..] == u[chain[0]].name;
    } else {
      PathsDiffer(t, u, chain[1..]);
      if PathOf(t, chain) == PathOf(u, chain) {
        CancelSuffix(a + "\\", b + "\\", name);
        CancelSuffix(a, b, "\\");
      }
    }
  }

  /**
   Where the way up leads to a key that nothing names, some history of the same journal has a
   path that is not the reported one.
   */
  lemma AmbiguousPathIsWrong(seed: Table, records: seq<UsnRecord>, h: seq<Volume>, i: nat, walk: seq<EntryKey>)
    returns (g: seq<Volume>)
    requires Consistent(seed, records, h) && i < |records| && !records[i].Key().IsRoot()
    requires PinnedWalk(seed, records, i + 1, walk) && walk[0] == records[i].Info().parent
    requires Ambiguous(seed, records, i + 1, walk[|walk| - 1])
    ensures Consistent(seed, records, g) && IsChain(g[i + 1].names, ChainOf(records[i], walk))
    ensures ResolveRecord(ForwardTable(ReversePass(seed, records), records, i + 1), records[i]).fullPath
            != PathOf(g[i + 1].names, ChainOf(records[i], walk))
  {
    var full := WalkMayExist(seed, records, h, i + 1, walk);
    var a := NameLastKey(seed, records, full, i, walk, "a");
    var b := NameLastKey(seed, records, full, i, walk, "b");
    var chain := ChainOf(records[i], walk);
    TwoNamesTwoPaths(a[i + 1].names, b[i + 1].names, records[i], walk);
    var reported := ResolveRecord(ForwardTable(ReversePass(seed, records), records, i + 1), records[i]).fullPath;
    g := if reported == PathOf(a[i + 1].names, chain) then b else a;
  }

  lemma {:induction false} TwoNamesTwoPaths(t: Table, u: Table, r: UsnRecord, walk: seq<EntryKey>)
    requires walk != [] && IsChain(t, ChainOf(r, walk)) && IsChain(u, ChainOf(r, walk))
    requires At(t, r.Key()) == At(u, r.Key())
    requires forall j :: 0 <= j < |walk| - 1 ==> At(t, walk[j]) == At(u, walk[j])
    requires At(t, walk[|walk| - 1]) == Some(EntryInfo("a", EntryKey(5, 5)))
    requires At(u, walk[|walk| - 1]) == Some(EntryInfo("b", EntryKey(5, 5)))
    ensures PathOf(t, ChainOf(r, walk)) != PathOf(u, ChainOf(r, walk))
  {
    var chain := ChainOf(r, walk);
    forall j | 0 <= j < |chain| - 2
      ensures t[chain[j]].name == u[chain[j]].name
    {
      assert j > 0 ==> chain[j] == walk[j - 1];
    }
    assert chain[|chain| - 2] == walk[|walk| - 1];
    PathsDiffer(t, u, chain);
  }
}
