/** Assembling the runlist of the `$MFT` itself (`bootstrap_mft_runs` in core/src/fs.rs). */
module Bootstrap {
  import opened Wrappers
  import opened Bytes
  import opened Sequences
  import opened Errors
  import opened SeqSort
  import opened Clusters
  import opened Fs
  import opened Fragments

  /** Fix-up and attribute parsing of one extension record: its unnamed `$DATA` fragments. */
  type RecordParser = seq<byte> -> Result<seq<Fragment>, NtfsError>

  /** An `$ATTRIBUTE_LIST` entry for a later `$DATA` fragment. */
  datatype ListEntry = ListEntry(startVcn: u64, recordNumber: u64)

  function ByVcn(): ListEntry -> int {
    (e: ListEntry) => e.startVcn
  }

  /** The record numbers to visit, each once, in the order of the entries. */
  function Visits(entries: seq<ListEntry>, seen: set<u64>): seq<u64> {
    if entries == [] then []
    else if entries[0].recordNumber in seen then Visits(entries[1..], seen)
    else [entries[0].recordNumber] + Visits(entries[1..], seen + {entries[0].recordNumber})
  }

  /** One extension record, always read through the first fragment's runs. */
  function ReadExtension(disk: seq<byte>, cs: nat, first: seq<Run>, recSize: nat, rn: u64, parse: RecordParser)
    : Result<seq<Fragment>, NtfsError>
  {
    if rn * recSize > U64_MAX then Err(BadRunlist("record offset overflow"))
    else match Window(disk, cs, first, 0, rn * recSize, recSize)
      case Err(e) => Err(e)
      case Ok(bytes) => parse(bytes)
  }

  function Collect(disk: seq<byte>, cs: nat, first: seq<Run>, recSize: nat, numbers: seq<u64>, parse: RecordParser)
    : Result<seq<Fragment>, NtfsError>
  {
    if numbers == [] then Ok([])
    else match ReadExtension(disk, cs, first, recSize, numbers[0], parse)
      case Err(e) => Err(e)
      case Ok(here) => Prepend(here, Collect(disk, cs, first, recSize, numbers[1..], parse))
  }

  method LoadExtension(disk: seq<byte>, cs: u64, first: seq<Run>, recSize: u64, rn: u64, parse: RecordParser)
    returns (r: Result<seq<Fragment>, NtfsError>)
    ensures r == ReadExtension(disk, cs, first, recSize, rn, parse)
  {
    if rn * recSize > U64_MAX {
      return Err(BadRunlist("record offset overflow"));
    }
    var ext := ReadVirtual(disk, first, cs, rn * recSize, recSize);
    if ext.Err? {
      return Err(ext.error);
    }
    r := parse(ext.value);
  }

  lemma {:induction false} CollectStep(disk: seq<byte>, cs: nat, first: seq<Run>, recSize: nat, rn: u64,
                                       later: seq<u64>, parse: RecordParser, frags: seq<Fragment>)
    ensures
      var one := ReadExtension(disk, cs, first, recSize, rn, parse);
      Prepend(frags, Collect(disk, cs, first, recSize, [rn] + later, parse)) ==
      if one.Err? then one else Prepend(frags + one.value, Collect(disk, cs, first, recSize, later, parse))
  {
    assert ([rn] + later)[1..] == later;
    var one := ReadExtension(disk, cs, first, recSize, rn, parse);
    if one.Ok? {
      PrependTwice(frags, one.value, Collect(disk, cs, first, recSize, later, parse));
    }
  }

  lemma {:induction false} VisitsStep(entries: seq<ListEntry>, i: nat, seen: set<u64>)
    requires i < |entries|
    ensures
      var rn := entries[i].recordNumber;
      Visits(entries[i..], seen) ==
      if rn in seen then Visits(entries[i + 1..], seen) else [rn] + Visits(entries[i + 1..], seen + {rn})
  {
    assert entries[i..][0] == entries[i] && entries[i..][1..] == entries[i + 1..];
  }

  method CollectFragments(disk: seq<byte>, cs: u64, first: seq<Run>, recSize: u64, sorted: seq<ListEntry>,
                          parse: RecordParser)
    returns (r: Result<seq<Fragment>, NtfsError>)
    ensures r == Collect(disk, cs, first, recSize, Visits(sorted, {}), parse)
  {
    var frags: seq<Fragment> := [];
    var seen: set<u64> := {};
    ghost var goal := Collect(disk, cs, first, recSize, Visits(sorted, {}), parse);
    PrependNothing(goal);
    assert sorted[0..] == sorted;
    for i := 0 to |sorted|
      invariant goal == Prepend(frags, Collect(disk, cs, first, recSize, Visits(sorted[i..], seen), parse))
    {
      VisitsStep(sorted, i, seen);
      var rn := sorted[i].recordNumber;
      if rn in seen {
        continue;
      }
      seen := seen + {rn};
      var found := LoadExtension(disk, cs, first, recSize, rn, parse);
      CollectStep(disk, cs, first, recSize, rn, Visits(sorted[i + 1..], seen), parse, frags);
      if found.Err? {
        return Err(found.error);
      }
      frags := frags + found.value;
    }
    assert frags + [] == frags;
    r := Ok(frags);
  }

  lemma {:induction false} VisitsAreDistinct(entries: seq<ListEntry>, seen: set<u64>)
    ensures
      var v := Visits(entries, seen);
      && (forall i, j :: 0 <= i < j < |v| ==> v[i] != v[j])
      && (forall rn :: rn in v <==> rn !in seen && exists k :: 0 <= k < |entries| && entries[k].recordNumber == rn)
  {
    if entries != [] {
      var rn, rest := entries[0].recordNumber, entries[1..];
      VisitsAreDistinct(rest, if rn in seen then seen else seen + {rn});
      assert forall k :: 0 <= k < |rest| ==> rest[k] == entries[k + 1];
      assert forall k :: 1 <= k < |entries| ==> entries[k] == rest[k - 1];
    }
  }

  /** Record `rn` ends within the first fragment, and the bytes there parse. */
  ghost predicate LiesInFirst(disk: seq<byte>, cs: nat, first: seq<Run>, recSize: u64, rn: u64, parse: RecordParser) {
    && rn * recSize + recSize <= Allocated(cs, first)
    && parse(Flat(disk, cs, first)[rn * recSize..rn * recSize + recSize]).Ok?
  }

  /** The fragments in record `rn`, as the bytes of the first fragment tell. */
  ghost function Holding(disk: seq<byte>, cs: nat, first: seq<Run>, recSize: u64, parse: RecordParser)
    : u64 -> seq<Fragment>
  {
    (rn: u64) =>
      if LiesInFirst(disk, cs, first, recSize, rn, parse) then
        parse(Flat(disk, cs, first)[rn * recSize..rn * recSize + recSize]).value
      else []
  }

  lemma {:induction false} CollectHolds(disk: seq<byte>, cs: nat, first: seq<Run>, recSize: u64, numbers: seq<u64>,
                                        parse: RecordParser)
    requires AllOnDisk(disk, cs, first) && |disk| <= U64_MAX && Allocated(cs, first) <= U64_MAX && recSize > 0
    requires Collect(disk, cs, first, recSize, numbers, parse).Ok?
    ensures Collect(disk, cs, first, recSize, numbers, parse).value ==
            FlatMap(Holding(disk, cs, first, recSize, parse), numbers)
  {
    if numbers != [] {
      ExtensionReadIff(disk, cs, first, recSize, numbers[0], parse);
      CollectHolds(disk, cs, first, recSize, numbers[1..], parse);
    }
  }

  lemma {:induction false} ExtensionReadIff(disk: seq<byte>, cs: nat, first: seq<Run>, recSize: u64, rn: u64,
                                            parse: RecordParser)
    requires AllOnDisk(disk, cs, first) && |disk| <= U64_MAX && Allocated(cs, first) <= U64_MAX && recSize > 0
    ensures ReadExtension(disk, cs, first, recSize, rn, parse).Ok? <==> LiesInFirst(disk, cs, first, recSize, rn, parse)
    ensures ReadExtension(disk, cs, first, recSize, rn, parse).Ok? ==>
              ReadExtension(disk, cs, first, recSize, rn, parse).value == Holding(disk, cs, first, recSize, parse)(rn)
  {
    if rn * recSize <= U64_MAX {
      ReadVirtualMeaning(disk, cs, first, rn * recSize, recSize);
    }
  }

  /** The records that can be read and parsed. */
  function Readable(disk: seq<byte>, cs: nat, first: seq<Run>, recSize: nat, parse: RecordParser): u64 -> bool {
    (rn: u64) => ReadExtension(disk, cs, first, recSize, rn, parse).Ok?
  }

  ghost predicate AllGood(good: u64 -> bool, numbers: seq<u64>) {
    forall i :: 0 <= i < |numbers| ==> good(numbers[i])
  }

  ghost predicate AllNamedGood(good: u64 -> bool, entries: seq<ListEntry>) {
    forall e :: e in entries ==> good(e.recordNumber)
  }

  lemma {:induction false} CollectSucceedsIff(disk: seq<byte>, cs: nat, first: seq<Run>, recSize: u64,
                                              numbers: seq<u64>, parse: RecordParser)
    ensures Collect(disk, cs, first, recSize, numbers, parse).Ok? <==>
            AllGood(Readable(disk, cs, first, recSize, parse), numbers)
  {
    if numbers != [] {
      CollectSucceedsIff(disk, cs, first, recSize, numbers[1..], parse);
      assert forall i :: 1 <= i < |numbers| ==> numbers[i] == numbers[1..][i - 1];
      assert forall i :: 0 <= i < |numbers| - 1 ==> numbers[1..][i] == numbers[i + 1];
    }
  }

  lemma {:induction false} VisitsOfSorted(entries: seq<ListEntry>, rn: u64)
    ensures rn in Visits(Sort(ByVcn(), entries), {}) <==> exists e :: e in entries && e.recordNumber == rn
  {
    var sorted := Sort(ByVcn(), entries);
    VisitsAreDistinct(sorted, {});
    SortMembers(ByVcn(), entries);
    if e :| e in entries && e.recordNumber == rn {
      assert e in sorted;
      var k :| 0 <= k < |sorted| && sorted[k] == e;
    }
  }

  // ----- The whole bootstrap -----

  /** The fragments that the extension records of an attribute list hold. */
  function Extensions(disk: seq<byte>, cs: nat, first: seq<Run>, recSize: nat, entries: seq<ListEntry>,
                      parse: RecordParser): Result<seq<Fragment>, NtfsError> {
    Collect(disk, cs, first, recSize, Visits(Sort(ByVcn(), entries), {}), parse)
  }

  /** Every record the attribute list names, once, in the order of the start VCNs; the fragments they hold. */
  ghost function NamedFragments(disk: seq<byte>, cs: nat, first: seq<Run>, recSize: u64, entries: seq<ListEntry>,
                                parse: RecordParser): seq<Fragment> {
    FlatMap(Holding(disk, cs, first, recSize, parse), Visits(Sort(ByVcn(), entries), {}))
  }

  ghost predicate AllLieInFirst(disk: seq<byte>, cs: nat, first: seq<Run>, recSize: u64, entries: seq<ListEntry>,
                                parse: RecordParser) {
    forall e :: e in entries ==> LiesInFirst(disk, cs, first, recSize, e.recordNumber, parse)
  }

  /**
   With readable clusters the bootstrap gets through exactly when every record the attribute list
   names lies inside the first fragment and parses, and it finds the fragments they hold.
   */
  lemma {:induction false} BootstrapSucceedsIff(disk: seq<byte>, cs: nat, first: seq<Run>, recSize: u64,
                                                entries: seq<ListEntry>, parse: RecordParser)
    requires AllOnDisk(disk, cs, first) && |disk| <= U64_MAX && Allocated(cs, first) <= U64_MAX && recSize > 0
    ensures Extensions(disk, cs, first, recSize, entries, parse).Ok?
            <==> AllLieInFirst(disk, cs, first, recSize, entries, parse)
    ensures AllLieInFirst(disk, cs, first, recSize, entries, parse) ==>
              Extensions(disk, cs, first, recSize, entries, parse)
              == Ok(NamedFragments(disk, cs, first, recSize, entries, parse))
  {
    if Extensions(disk, cs, first, recSize, entries, parse).Ok? {
      CollectHolds(disk, cs, first, recSize, Visits(Sort(ByVcn(), entries), {}), parse);
    }
    EveryRecordReadable(disk, cs, first, recSize, entries, parse);
    forall e | e in entries
      ensures Readable(disk, cs, first, recSize, parse)(e.recordNumber)
              <==> LiesInFirst(disk, cs, first, recSize, e.recordNumber, parse)
    {
      ExtensionReadIff(disk, cs, first, recSize, e.recordNumber, parse);
    }
  }

  lemma EveryRecordReadable(disk: seq<byte>, cs: nat, first: seq<Run>, recSize: u64, entries: seq<ListEntry>,
                            parse: RecordParser)
    ensures Extensions(disk, cs, first, recSize, entries, parse).Ok? <==>
            AllNamedGood(Readable(disk, cs, first, recSize, parse), entries)
  {
    CollectSucceedsIff(disk, cs, first, recSize, Visits(Sort(ByVcn(), entries), {}), parse);
    VisitsCover(entries, Readable(disk, cs, first, recSize, parse));
  }

  /** What holds of every record visited holds of every record named. */
  lemma {:induction false} VisitsCover(entries: seq<ListEntry>, good: u64 -> bool)
    ensures AllGood(good, Visits(Sort(ByVcn(), entries), {})) <==> AllNamedGood(good, entries)
  {
    var numbers := Visits(Sort(ByVcn(), entries), {});
    forall i | 0 <= i < |numbers|
      ensures exists e :: e in entries && e.recordNumber == numbers[i]
    {
      VisitsOfSorted(entries, numbers[i]);
    }
    forall e | e in entries
      ensures exists i :: 0 <= i < |numbers| && numbers[i] == e.recordNumber
    {
      VisitsOfSorted(entries, e.recordNumber);
      assert e.recordNumber in numbers;
    }
  }

  /** `runs` is the cluster map of a stream split into `fragments`, if they tile one. */
  ghost predicate MapsAsFragments(fragments: seq<Fragment>, runs: seq<Run>) {
    forall n: nat :: Tiles(fragments, n) ==>
      && TotalClusters(runs) == n
      && forall k, v: nat :: 0 <= k < |fragments| && fragments[k].Owns(v) ==>
           ClusterAt(runs, v) == ClusterAt(fragments[k].runs, v - fragments[k].startVcn)
  }

  /** The first fragment and the assembly of the others are the complete map of the `$MFT`. */
  lemma BootstrapIsComplete(first: seq<Run>, frags: seq<Fragment>)
    ensures MapsAsFragments([Fragment(0, first)] + frags, first + Assembled(frags))
  {
    var head := Fragment(0, first);
    var all := [head] + frags;
    SortAppend(StartVcn(), [head], frags);
    SortOfSorted(StartVcn(), [head]);
    assert Assembled(all) == first + Assembled(frags) by {
      var rest := Sort(StartVcn(), frags);
      assert ([head] + rest)[1..] == rest;
    }
    forall n: nat, k, v: nat | Tiles(all, n) && 0 <= k < |all| && all[k].Owns(v)
      ensures ClusterAt(Assembled(all), v) == ClusterAt(all[k].runs, v - all[k].startVcn)
    {
      AssemblyKeepsClusterMap(all, n, k, v);
    }
    forall n: nat | Tiles(all, n)
      ensures TotalClusters(Assembled(all)) == n
    {
      assert all[0].Clusters() > 0;
      AssemblyKeepsClusterMap(all, n, 0, 0);
    }
  }

  method BootstrapMftRuns(disk: seq<byte>, cs: u64, first: seq<Run>, recSize: u64, entries: seq<ListEntry>,
                          parse: RecordParser)
    returns (r: Result<seq<Run>, NtfsError>)
    ensures
      match Extensions(disk, cs, first, recSize, entries, parse)
      case Err(e) => r == Err(e)
      case Ok(frags) => r == Ok(first + Assembled(frags)) && MapsAsFragments([Fragment(0, first)] + frags, r.value)
    ensures AllOnDisk(disk, cs, first) && |disk| <= U64_MAX && Allocated(cs, first) <= U64_MAX && recSize > 0 ==>
              && (r.Ok? <==> AllLieInFirst(disk, cs, first, recSize, entries, parse))
              && var frags := NamedFragments(disk, cs, first, recSize, entries, parse);
                 r.Ok? ==> r.value == first + Assembled(frags) && MapsAsFragments([Fragment(0, first)] + frags, r.value)
  {
    if AllOnDisk(disk, cs, first) && |disk| <= U64_MAX && Allocated(cs, first) <= U64_MAX && recSize > 0 {
      BootstrapSucceedsIff(disk, cs, first, recSize, entries, parse);
    }
    var sorted := Sort(ByVcn(), entries);
    var frags := CollectFragments(disk, cs, first, recSize, sorted, parse);
    if frags.Err? {
      return Err(frags.error);
    }
    var assembled := AssembleRuns(frags.value);
    BootstrapIsComplete(first, frags.value);
    r := Ok(first + assembled);
  }

  /**
   An `$MFT` of four 1 KiB records in three fragments.  Record 1, in the first fragment, holds the
   fragment with record 2; record 2 holds the one with record 3.  The runs assembled so far do cover
   record 2, but it is read through the first fragment and the bootstrap fails.
   */
  lemma ChainedExtensionIsNotFound(disk: seq<byte>, first: seq<Run>, second: seq<Run>, entries: seq<ListEntry>,
                                   parse: RecordParser)
    requires |disk| == 0x2000
    requires first == [Run(2, Some(0))] && second == [Run(1, Some(5))]
    requires entries == [ListEntry(2, 1), ListEntry(3, 2)]
    requires parse(disk[0x400..0x800]) == Ok([Fragment(2, second)])
    requires parse(disk[0x1400..0x1800]) == Ok([Fragment(3, [Run(1, Some(7))])])
    ensures Window(disk, 0x400, first + second, 0, 2 * 0x400, 0x400) == Ok(disk[0x1400..0x1800])
    ensures Extensions(disk, 0x400, first, 0x400, entries, parse).Err?
  {
    var runs := first + second;
    assert runs[1..] == second && second[1..] == [] && first[1..] == [];
    assert Allocated(0x400, []) == 0;
    assert Allocated(0x400, first) == 0x800 && Allocated(0x400, second) == 0x400;
    assert Allocated(0x400, runs) == 0xC00;
    ReadVirtualMeaning(disk, 0x400, runs, 2 * 0x400, 0x400);
    FlatConcat(disk, 0x400, first, second);
    assert Flat(disk, 0x400, second) == RunBytes(disk, 0x400, second[0]) + [];
    assert Flat(disk, 0x400, runs)[0x800..0xC00] == disk[0x1400..0x1800];
    BootstrapSucceedsIff(disk, 0x400, first, 0x400, entries, parse);
    assert !LiesInFirst(disk, 0x400, first, 0x400, entries[1].recordNumber, parse);
    assert entries[1] in entries;
  }
}
