/** Rewriting a history: what a key was called before its first record is open to the journal. */
module RewindRevision {
  import opened Rewind
  import opened RewindHistory

  ghost predicate EarlierNamed(h: seq<Volume>, g: seq<Volume>, i: nat, k: EntryKey, v: EntryInfo) {
    && |g| == |h|
    && forall n :: 0 <= n < |h| ==> g[n] == if n <= i then WithName(h[n], k, v) else h[n]
  }

  /** The history `h` with key `k` present under `v` at every position up to and including `i`. */
  ghost function WithEarlierName(h: seq<Volume>, i: nat, k: EntryKey, v: EntryInfo): (g: seq<Volume>)
    ensures EarlierNamed(h, g, i, k, v)
  {
    seq(|h|, n requires 0 <= n < |h| => if n <= i then WithName(h[n], k, v) else h[n])
  }

  ghost function WithName(volume: Volume, k: EntryKey, v: EntryInfo): Volume {
    Volume(volume.names[k := v], volume.live + {k})
  }

  /** A record of another key does not mind. */
  lemma OtherKeyStep(before: Volume, r: UsnRecord, after: Volume, k: EntryKey, v: EntryInfo)
    requires Step(before, r, after) && r.Key() != k
    ensures Step(WithName(before, k, v), r, WithName(after, k, v))
  {
    var key := r.Key();
    var b, a := WithName(before, k, v), WithName(after, k, v);
    assert before.names[key := r.Info()][k := v] == before.names[k := v][key := r.Info()];
    assert (before.live - {key}) + {k} == (before.live + {k}) - {key};
    assert (before.live + {key}) + {k} == (before.live + {k}) + {key};
    assert (before.live + {key} - {key}) + {k} == (before.live + {k}) + {key} - {key};
    if Repeats(before, r, after) {
      assert Repeats(b, r, a);
    } else if Creates(before, r, after) {
      assert Creates(b, r, a);
    } else {
      assert Renames(b, r, a);
    }
  }

  lemma FirstStepUnderEarlierName(before: Volume, r: UsnRecord, after: Volume, v: EntryInfo)
    requires Step(before, r, after) && !r.reason.renameOldName
    requires v == r.Info() || r.reason.renameNewName
    ensures Step(WithName(before, r.Key(), v), r, after)
  {
    var k := r.Key();
    var start := WithName(before, k, v);
    assert start.names[k := r.Info()] == before.names[k := r.Info()];
    assert k in before.live ==> start.live == before.live;
    if Repeats(before, r, after) {
      assert before.names[k := r.Info()] == before.names;
    }
    if v == r.Info() {
      assert Repeats(start, r, after);
    } else {
      assert Renames(start, r, after);
    }
  }

  /**
   Before its first record, a key's name is unconstrained by the rest of the journal: wholly so
   if that record is a RENAME_NEW_NAME or there is none, else it is the one the record carries.
   */
  lemma EarlierNameIsConsistent(seed: Table, records: seq<UsnRecord>, h: seq<Volume>, g: seq<Volume>, i: nat,
                                k: EntryKey, v: EntryInfo)
    requires Consistent(seed, records, h) && i <= |records| && EarlierNamed(h, g, i, k, v)
    requires forall j :: 0 <= j < i ==> records[j].Key() != k
    requires i < |records| ==> MayFirstName(records[i], k, v)
    requires i == |records| ==> k !in seed
    ensures Consistent(seed, records, g)
  {
    forall n | 0 <= n < |records|
      ensures Step(g[n], records[n], g[n + 1])
    {
      assert Step(h[n], records[n], h[n + 1]);
      if n < i {
        OtherKeyStep(h[n], records[n], h[n + 1], k, v);
      } else if n == i {
        FirstStepUnderEarlierName(h[n], records[n], h[n + 1], v);
      }
    }
  }

  /** `r` may be the first record of a key that was called `v` before. */
  predicate MayFirstName(r: UsnRecord, k: EntryKey, v: EntryInfo) {
    r.Key() == k && !r.reason.renameOldName && (v == r.Info() || r.reason.renameNewName)
  }
}
