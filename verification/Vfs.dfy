/** Windowed reads and file slack as the VFS adapter reports them (core/src/vfs.rs). */
module Vfs {
  import opened Wrappers
  import opened Bytes
  import opened Sequences
  import opened Bits
  import opened Errors
  import opened Clusters
  import opened Data
  import opened Compressed
  import opened CompressedUnits

  /** A `$DATA` stream with its runlist already assembled. */
  datatype Stream =
    | Resident(content: seq<byte>)
    | NonResident(runs: seq<Run>, realSize: u64, compressed: bool, compressionUnit: nat)

  /** `read_nonresident_capped`: the one dispatch between the raw and the compressed reader. */
  function ReadNonresident(disk: seq<byte>, cs: nat, lz: Lznt1, s: Stream, maxBytes: u64): Result<seq<byte>, NtfsError>
    requires Compressed.Volume(disk, cs) && s.NonResident?
  {
    if s.compressed && s.compressionUnit != 0 then
      if s.compressionUnit >= 64 then Err(BadAttribute("implausible compression unit"))
      else ReadCompressed(disk, cs, lz, s.runs, s.realSize, Pow2(s.compressionUnit), maxBytes)
    else ReadRuns(disk, cs, s.runs, s.realSize, maxBytes)
  }

  /** The tail of `read_data_by_record`: at most `maxBytes` of the stream. */
  function ReadStream(disk: seq<byte>, cs: nat, lz: Lznt1, s: Stream, maxBytes: u64): Result<seq<byte>, NtfsError>
    requires Compressed.Volume(disk, cs)
  {
    match s
    case Resident(content) => Ok(content[..Min(|content|, maxBytes)])
    case NonResident(_, _, _, _) => ReadNonresident(disk, cs, lz, s, maxBytes)
  }

  // ----- What a stream holds -----

  predicate IsPlain(s: Stream) {
    s.NonResident? && !(s.compressed && s.compressionUnit != 0)
  }

  /** The units of 2^compressionUnit clusters that a compressed stream is made of. */
  function StreamUnits(disk: seq<byte>, cs: nat, lz: Lznt1, s: Stream): seq<Option<seq<byte>>>
    requires s.NonResident?
  {
    UnitsOf(disk, cs, lz, Pow2(s.compressionUnit), s.runs)
  }

  /** The bytes of the stream: the record's own, those of its clusters, or the contents of its units. */
  function StreamBytes(disk: seq<byte>, cs: nat, lz: Lznt1, s: Stream): seq<byte> {
    if s.Resident? then s.content
    else
      var all := if IsPlain(s) then Flat(disk, cs, s.runs) else Content(StreamUnits(disk, cs, lz, s));
      all[..Min(|all|, s.realSize)]
  }

  /** A unit that does not decode ends the bytes before the declared size. */
  predicate StreamBroken(disk: seq<byte>, cs: nat, lz: Lznt1, s: Stream) {
    && s.NonResident? && !IsPlain(s)
    && Broken(StreamUnits(disk, cs, lz, s)) && |Content(StreamUnits(disk, cs, lz, s))| < s.realSize
  }

  /** The stream lies on the disk and within the limits of its reader. */
  predicate InReach(disk: seq<byte>, cs: nat, s: Stream) {
    if s.Resident? then |s.content| <= U64_MAX
    else
      && AllOnDisk(disk, cs, s.runs) && s.realSize <= 0x100_0000_0000
      && (if IsPlain(s) then Allocated(cs, s.runs) <= U64_MAX
          else s.compressionUnit < 64 && Pow2(s.compressionUnit) * cs <= U64_MAX)
  }

  /** Every kind of stream reads as its bytes, up to the cap or to the unit that does not decode. */
  lemma StreamMeaning(disk: seq<byte>, cs: nat, lz: Lznt1, s: Stream, maxBytes: u64)
    requires Compressed.Volume(disk, cs) && InReach(disk, cs, s)
    ensures ReadStream(disk, cs, lz, s, maxBytes) ==
            Delivered(StreamBytes(disk, cs, lz, s), StreamBroken(disk, cs, lz, s), maxBytes)
  {
    if s.NonResident? {
      if IsPlain(s) {
        ReadRunsMeaning(disk, cs, s.runs, s.realSize, maxBytes);
        OnDiskIsReachable(disk, cs, s.runs, Want(cs, s.runs, s.realSize, maxBytes));
        CutTwice(Flat(disk, cs, s.runs), s.realSize, maxBytes);
      } else {
        CompressedReadMeaning(disk, cs, lz, s.runs, s.realSize, Pow2(s.compressionUnit), maxBytes);
        CutTwice(Content(StreamUnits(disk, cs, lz, s)), s.realSize, maxBytes);
      }
    }
  }

  lemma CutTwice(all: seq<byte>, a: nat, b: nat)
    ensures
      var once := all[..Min(|all|, a)];
      once[..Min(|once|, b)] == all[..Min(|all|, Min(a, b))]
  {
  }

  /** Whatever the kind of stream, a cap cuts the full read short and changes nothing else. */
  lemma CappedStreamIsPrefix(disk: seq<byte>, cs: nat, lz: Lznt1, s: Stream, cap: u64)
    requires Compressed.Volume(disk, cs) && ReadStream(disk, cs, lz, s, U64_MAX).Ok?
    ensures
      var full := ReadStream(disk, cs, lz, s, U64_MAX).value;
      ReadStream(disk, cs, lz, s, cap) == Ok(full[..Min(|full|, cap)])
  {
    match s
    case Resident(content) =>
      assert content[..Min(|content|, U64_MAX)][..Min(Min(|content|, U64_MAX), cap)] == content[..Min(|content|, cap)];
    case NonResident(runs, realSize, compressed, unit) =>
      if compressed && unit != 0 {
        CappedUnitsArePrefix(disk, cs, lz, runs, realSize, Pow2(unit), cap, U64_MAX);
      } else {
        CappedRunsArePrefix(disk, cs, runs, realSize, cap, U64_MAX);
      }
  }

  lemma StreamFitsU64(disk: seq<byte>, cs: nat, lz: Lznt1, s: Stream)
    requires Compressed.Volume(disk, cs) && ReadStream(disk, cs, lz, s, U64_MAX).Ok?
    ensures |ReadStream(disk, cs, lz, s, U64_MAX).value| <= U64_MAX
  {
    if s.NonResident? && !(s.compressed && s.compressionUnit != 0) {
      ReadRunsMeaning(disk, cs, s.runs, s.realSize, U64_MAX);
    }
  }

  /** The bytes of `full` that a read of `len` bytes at `off` should deliver. */
  function Slice(full: seq<byte>, off: nat, len: nat): seq<byte> {
    full[Min(off, |full|)..Min(off + len, |full|)]
  }

  lemma SliceOfPrefix(full: seq<byte>, off: nat, len: nat, cap: nat)
    requires cap >= off + len || cap >= |full|
    ensures Slice(full[..Min(|full|, cap)], off, len) == Slice(full, off, len)
  {
    if cap >= |full| {
      assert full[..|full|] == full;
    } else {
      SliceOfSlice(full, 0, cap, off, off + len);
    }
  }

  /** Reading up to the end of the window is enough to fill it. */
  lemma CapSuffices(disk: seq<byte>, cs: nat, lz: Lznt1, s: Stream, off: u64, len: nat)
    requires Compressed.Volume(disk, cs)
    ensures
      var full, capped := ReadStream(disk, cs, lz, s, U64_MAX), ReadStream(disk, cs, lz, s, Min(off + len, U64_MAX));
      full.Ok? ==> capped.Ok? && Slice(capped.value, off, len) == Slice(full.value, off, len)
  {
    var cap := Min(off + len, U64_MAX);
    if ReadStream(disk, cs, lz, s, U64_MAX).Ok? {
      CappedStreamIsPrefix(disk, cs, lz, s, cap);
      StreamFitsU64(disk, cs, lz, s);
      SliceOfPrefix(ReadStream(disk, cs, lz, s, U64_MAX).value, off, len, cap);
    }
  }

  /** All the bytes of a plain stream, whether or not it could be read whole. */
  function PlainBytes(disk: seq<byte>, cs: nat, s: Stream): seq<byte>
    requires IsPlain(s)
  {
    Flat(disk, cs, s.runs)[..Min(s.realSize, Allocated(cs, s.runs))]
  }

  /** The clusters of a plain stream up to the end of the window can be read, and are not too many. */
  predicate PlainWindow(disk: seq<byte>, cs: nat, s: Stream, off: u64, len: nat) {
    IsPlain(s) && ReadRunsSucceeds(disk, cs, s.runs, s.realSize, Min(off + len, U64_MAX))
  }

  /** The window of a stream too large, or too damaged, to be read whole. */
  lemma PlainCapSuffices(disk: seq<byte>, cs: nat, lz: Lznt1, s: Stream, off: u64, len: nat)
    requires Compressed.Volume(disk, cs) && PlainWindow(disk, cs, s, off, len)
    ensures
      var capped := ReadStream(disk, cs, lz, s, Min(off + len, U64_MAX));
      capped.Ok? && Slice(capped.value, off, len) == Slice(PlainBytes(disk, cs, s), off, len)
  {
    var cap, all := Min(off + len, U64_MAX), PlainBytes(disk, cs, s);
    ReadRunsMeaning(disk, cs, s.runs, s.realSize, cap);
    SliceOfSlice(Flat(disk, cs, s.runs), 0, |all|, 0, Min(|all|, cap));
    assert all[..Min(|all|, cap)] == Flat(disk, cs, s.runs)[..Want(cs, s.runs, s.realSize, cap)];
    SliceOfPrefix(all, off, len, cap);
  }

  /** `read_at`: only the window is materialised, and it is the slice of the full read. */
  method ReadAt(disk: seq<byte>, cs: nat, lz: Lznt1, s: Stream, off: u64, buf: array<byte>)
    returns (r: Result<nat, NtfsError>)
    requires Compressed.Volume(disk, cs)
    modifies buf
    ensures r.Err? ==> buf[..] == old(buf[..])
    ensures r.Ok? <==> ReadStream(disk, cs, lz, s, Min(off + buf.Length, U64_MAX)).Ok?
    ensures PlainWindow(disk, cs, s, off, buf.Length) ==>
              var want := Slice(PlainBytes(disk, cs, s), off, buf.Length);
              r == Ok(|want|) && buf[..] == want + old(buf[..])[|want|..]
    ensures ReadStream(disk, cs, lz, s, U64_MAX).Ok? ==>
              var want := Slice(ReadStream(disk, cs, lz, s, U64_MAX).value, off, buf.Length);
              r == Ok(|want|) && buf[..] == want + old(buf[..])[|want|..]
    ensures InReach(disk, cs, s) ==>
              var all, want := StreamBytes(disk, cs, lz, s), Slice(StreamBytes(disk, cs, lz, s), off, buf.Length);
              if StreamBroken(disk, cs, lz, s) && |all| < Min(off + buf.Length, U64_MAX)
              then r == Err(BadCompression("LZNT1 decode failed"))
              else r == Ok(|want|) && buf[..] == want + old(buf[..])[|want|..]
  {
    var cap := Min(off + buf.Length, U64_MAX);
    CapSuffices(disk, cs, lz, s, off, buf.Length);
    if PlainWindow(disk, cs, s, off, buf.Length) {
      PlainCapSuffices(disk, cs, lz, s, off, buf.Length);
    }
    if InReach(disk, cs, s) {
      StreamMeaning(disk, cs, lz, s, cap);
      SliceOfPrefix(StreamBytes(disk, cs, lz, s), off, buf.Length, cap);
    }
    var data := ReadStream(disk, cs, lz, s, cap);
    if data.Err? {
      return Err(data.error);
    }
    var n := CopyWindow(data.value, off, buf);
    r := Ok(n);
  }

  method CopyWindow(data: seq<byte>, off: u64, buf: array<byte>) returns (n: nat)
    modifies buf
    ensures n == |Slice(data, off, buf.Length)|
    ensures buf[..] == Slice(data, off, buf.Length) + old(buf[..])[n..]
  {
    if off >= |data| {
      assert Slice(data, off, buf.Length) == [];
      return 0;
    }
    n := Min(buf.Length, |data| - off);
    assert Slice(data, off, buf.Length) == data[off..off + n];
    forall i | 0 <= i < n {
      buf[i] := data[off + i];
    }
  }

  // ----- Slack -----

  datatype ByteRun = ByteRun(imageOffset: nat, len: nat)

  function SatAdd(a: nat, b: nat): nat {
    Min(a + b, U64_MAX)
  }

  function SatMul(a: nat, b: nat): nat {
    Min(a * b, U64_MAX)
  }

  function SatSub(a: nat, b: nat): nat {
    if a < b then 0 else a - b
  }

  /** The loop of `slack` with `consumed` bytes behind it. */
  function SlackFrom(cs: nat, runs: seq<Run>, realSize: nat, consumed: nat): Option<ByteRun> {
    if runs == [] then None
    else
      var len := SatMul(runs[0].length, cs);
      if SatAdd(consumed, len) > realSize then
        match runs[0].lcn
        case None => None
        case Some(l) =>
          var into := SatSub(realSize, consumed);
          Some(ByteRun(SatAdd(SatMul(l, cs), into), SatSub(len, into)))
      else SlackFrom(cs, runs[1..], realSize, SatAdd(consumed, len))
  }

  method Slack(cs: nat, runs: seq<Run>, realSize: u64) returns (r: Option<ByteRun>)
    ensures r == SlackFrom(cs, runs, realSize, 0)
  {
    var consumed := 0;
    assert runs[0..] == runs;
    for i := 0 to |runs|
      invariant 0 <= consumed
      invariant SlackFrom(cs, runs, realSize, 0) == SlackFrom(cs, runs[i..], realSize, consumed)
    {
      assert runs[i..][0] == runs[i] && runs[i..][1..] == runs[i + 1..];
      var len := SatMul(runs[i].length, cs);
      if SatAdd(consumed, len) > realSize {
        if runs[i].lcn.None? {
          return None;
        }
        var into := SatSub(realSize, consumed);
        return Some(ByteRun(SatAdd(SatMul(runs[i].lcn.value, cs), into), SatSub(len, into)));
      }
      consumed := SatAdd(consumed, len);
    }
    r := None;
  }

  /** Run `k` is the one the end of the file falls into. */
  ghost predicate EofRun(cs: nat, runs: seq<Run>, size: nat, k: nat) {
    k < |runs| && Allocated(cs, runs[..k]) <= size < Allocated(cs, runs[..k + 1])
  }

  /** The file's bytes and the slack together are everything up to the end of the EOF run. */
  ghost predicate TilesAllocation(disk: seq<byte>, cs: nat, runs: seq<Run>, size: nat, k: nat, slack: ByteRun)
    requires k < |runs|
  {
    && size <= Allocated(cs, runs)
    && slack.imageOffset + slack.len <= |disk|
    && Flat(disk, cs, runs[..k + 1])
       == Flat(disk, cs, runs)[..size] + disk[slack.imageOffset..slack.imageOffset + slack.len]
  }

  lemma RunEndsOnDisk(disk: seq<byte>, cs: nat, r: Run)
    requires OnDisk(disk, cs, r) && r.lcn.Some?
    ensures r.lcn.value * cs + r.length * cs <= |disk|
  {
    assert (r.lcn.value + r.length) * cs == r.lcn.value * cs + r.length * cs;
  }

  lemma RunTailOnDisk(disk: seq<byte>, cs: nat, r: Run, into: nat)
    requires OnDisk(disk, cs, r) && r.lcn.Some? && into <= r.length * cs
    ensures r.lcn.value * cs + r.length * cs <= |disk|
    ensures RunBytes(disk, cs, r) ==
            RunBytes(disk, cs, r)[..into] + disk[r.lcn.value * cs + into..r.lcn.value * cs + r.length * cs]
  {
    RunEndsOnDisk(disk, cs, r);
  }

  lemma EofInFirstRun(disk: seq<byte>, cs: nat, runs: seq<Run>, into: nat)
    requires runs != [] && into < runs[0].length * cs
    requires OnDisk(disk, cs, runs[0]) && |disk| <= U64_MAX
    ensures EofRun(cs, runs, into, 0)
    ensures runs[0].lcn.Some? ==>
              TilesAllocation(disk, cs, runs, into, 0,
                              ByteRun(runs[0].lcn.value * cs + into, runs[0].length * cs - into))
  {
    assert runs[..0] == [] && runs[..1] == [runs[0]] && runs[..1][1..] == [];
    var here := RunBytes(disk, cs, runs[0]);
    assert Flat(disk, cs, runs[..1]) == here + [] == here;
    assert Flat(disk, cs, runs)[..into] == here[..into];
    if runs[0].lcn.Some? {
      RunTailOnDisk(disk, cs, runs[0], into);
    }
  }

  lemma EofInLaterRun(disk: seq<byte>, cs: nat, runs: seq<Run>, size: nat, k: nat, slack: ByteRun)
    requires runs != [] && runs[0].length * cs <= size
    requires EofRun(cs, runs[1..], size - runs[0].length * cs, k)
    ensures EofRun(cs, runs, size, k + 1)
    ensures TilesAllocation(disk, cs, runs[1..], size - runs[0].length * cs, k, slack) ==>
              TilesAllocation(disk, cs, runs, size, k + 1, slack)
  {
    var here, rest := RunBytes(disk, cs, runs[0]), runs[1..];
    assert runs[..k + 1][1..] == rest[..k] && runs[..k + 2][1..] == rest[..k + 1];
    if TilesAllocation(disk, cs, rest, size - |here|, k, slack) {
      var kept, tail := Flat(disk, cs, rest)[..size - |here|], disk[slack.imageOffset..slack.imageOffset + slack.len];
      assert Flat(disk, cs, runs)[..size] == here + kept;
      Reassociate(here, kept, tail);
    }
  }

  /** Without overflow the saturating arithmetic is the plain one. */
  lemma SlackStep(disk: seq<byte>, cs: nat, runs: seq<Run>, size: nat, consumed: nat)
    requires runs != [] && OnDisk(disk, cs, runs[0]) && |disk| <= U64_MAX
    requires consumed + Allocated(cs, runs) <= U64_MAX
    ensures
      var len := runs[0].length * cs;
      SlackFrom(cs, runs, consumed + size, consumed) ==
      if len <= size then SlackFrom(cs, runs[1..], consumed + size, consumed + len)
      else if runs[0].lcn.None? then None
      else Some(ByteRun(runs[0].lcn.value * cs + size, len - size))
  {
    var len := runs[0].length * cs;
    assert SatMul(runs[0].length, cs) == len && SatAdd(consumed, len) == consumed + len;
    if runs[0].lcn.Some? {
      RunEndsOnDisk(disk, cs, runs[0]);
    }
  }

  lemma SlackAtEof(disk: seq<byte>, cs: nat, runs: seq<Run>, size: nat, consumed: nat)
    returns (k: nat)
    requires AllOnDisk(disk, cs, runs) && |disk| <= U64_MAX
    requires consumed + Allocated(cs, runs) <= U64_MAX && size < Allocated(cs, runs)
    ensures EofRun(cs, runs, size, k)
    ensures SlackFrom(cs, runs, consumed + size, consumed).Some? <==> runs[k].lcn.Some?
    ensures runs[k].lcn.Some? ==>
              TilesAllocation(disk, cs, runs, size, k, SlackFrom(cs, runs, consumed + size, consumed).value)
    decreases runs
  {
    var len := runs[0].length * cs;
    assert OnDisk(disk, cs, runs[0]);
    SlackStep(disk, cs, runs, size, consumed);
    if size < len {
      k := 0;
      EofInFirstRun(disk, cs, runs, size);
    } else {
      var m := SlackAtEof(disk, cs, runs[1..], size - len, consumed + len);
      k := m + 1;
      var slack := SlackFrom(cs, runs[1..], consumed + size, consumed + len);
      EofInLaterRun(disk, cs, runs, size, m, if slack.Some? then slack.value else ByteRun(0, 0));
    }
  }

  lemma {:induction false} NoSlackPastEnd(cs: nat, runs: seq<Run>, realSize: nat, consumed: nat)
    requires consumed + Allocated(cs, runs) <= U64_MAX && consumed + Allocated(cs, runs) <= realSize
    ensures SlackFrom(cs, runs, realSize, consumed) == None
  {
    if runs != [] {
      NoSlackPastEnd(cs, runs[1..], realSize, consumed + runs[0].length * cs);
    }
  }

  /** Slack is reported exactly when the file ends inside an allocated run. */
  lemma {:induction false} SlackReportedIff(disk: seq<byte>, cs: nat, runs: seq<Run>, realSize: u64)
    requires AllOnDisk(disk, cs, runs) && |disk| <= U64_MAX && Allocated(cs, runs) <= U64_MAX
    ensures SlackFrom(cs, runs, realSize, 0).Some? <==>
            exists k: nat :: EofRun(cs, runs, realSize, k) && runs[k].lcn.Some?
  {
    assert runs[..|runs|] == runs;
    if realSize < Allocated(cs, runs) {
      var k := SlackAtEof(disk, cs, runs, realSize, 0);
      if m: nat :| EofRun(cs, runs, realSize, m) && runs[m].lcn.Some? {
        EofRunUnique(cs, runs, realSize, k, m);
      }
    } else {
      NoSlackPastEnd(cs, runs, realSize, 0);
      if k: nat :| EofRun(cs, runs, realSize, k) {
        AllocatedPrefix(cs, runs, k + 1, |runs|);
      }
    }
  }

  /**
   The bytes the plain reader returns, followed by the reported slack, are the allocation up to
   the end of the run the file ends in.
   */
  lemma FileAndSlackTileAllocation(disk: seq<byte>, cs: nat, runs: seq<Run>, realSize: u64) returns (k: nat)
    requires AllOnDisk(disk, cs, runs) && |disk| <= U64_MAX && Allocated(cs, runs) <= U64_MAX
    requires realSize <= MAX_VALUE_BYTES && SlackFrom(cs, runs, realSize, 0).Some?
    ensures EofRun(cs, runs, realSize, k) && ReadRuns(disk, cs, runs, realSize, U64_MAX).Ok?
    ensures
      var slack := SlackFrom(cs, runs, realSize, 0).value;
      && slack.imageOffset + slack.len <= |disk|
      && Flat(disk, cs, runs[..k + 1])
         == ReadRuns(disk, cs, runs, realSize, U64_MAX).value
            + disk[slack.imageOffset..slack.imageOffset + slack.len]
  {
    if Allocated(cs, runs) <= realSize {
      NoSlackPastEnd(cs, runs, realSize, 0);
    }
    k := SlackAtEof(disk, cs, runs, realSize, 0);
    ReadRunsMeaning(disk, cs, runs, realSize, U64_MAX);
    OnDiskIsReachable(disk, cs, runs, Want(cs, runs, realSize, U64_MAX));
  }

  lemma {:induction false} AllocatedPrefix(cs: nat, runs: seq<Run>, a: nat, b: nat)
    requires a <= b <= |runs|
    ensures Allocated(cs, runs[..a]) <= Allocated(cs, runs[..b])
    decreases a
  {
    if a > 0 {
      AllocatedPrefix(cs, runs[1..], a - 1, b - 1);
      assert runs[..a][1..] == runs[1..][..a - 1] && runs[..b][1..] == runs[1..][..b - 1];
    }
  }

  lemma EofRunUnique(cs: nat, runs: seq<Run>, size: nat, k: nat, m: nat)
    requires EofRun(cs, runs, size, k) && EofRun(cs, runs, size, m)
    ensures k == m
  {
    if k < m {
      AllocatedPrefix(cs, runs, k + 1, m);
    } else if m < k {
      AllocatedPrefix(cs, runs, m + 1, k);
    }
  }
}
