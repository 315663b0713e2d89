/**
 What a runlist means: the bytes of its clusters one after the other, holes as zeroes.  Every
 reader of cluster data is compared with `Flat`.
 */
module Clusters {
  import opened Wrappers
  import opened Bytes
  import opened Sequences
  import opened Errors

  datatype Run = Run(length: u64, lcn: Option<u64>)

  /** The disk is a byte string; reading `n` bytes at `off` fails past its end. */
  function ReadExact(disk: seq<byte>, off: nat, n: nat): Result<seq<byte>, NtfsError> {
    if n == 0 then Ok([])
    else if off + n <= |disk| then Ok(disk[off..off + n])
    else Err(Io)
  }

  /** `n` bytes from `off` on, zero where the disk has none. */
  function DiskBytes(disk: seq<byte>, off: nat, n: nat): (s: seq<byte>)
    ensures |s| == n
  {
    seq(n, i requires 0 <= i < n => if off + i < |disk| then disk[off + i] else 0)
  }

  function RunBytes(disk: seq<byte>, cs: nat, r: Run): (s: seq<byte>)
    ensures |s| == r.length * cs
  {
    match r.lcn
    case None => Zeroes(r.length * cs)
    case Some(l) => DiskBytes(disk, l * cs, r.length * cs)
  }

  function Flat(disk: seq<byte>, cs: nat, runs: seq<Run>): (s: seq<byte>)
    ensures |s| == Allocated(cs, runs)
  {
    if runs == [] then [] else RunBytes(disk, cs, runs[0]) + Flat(disk, cs, runs[1..])
  }

  /** The bytes the runs allocate. */
  function Allocated(cs: nat, runs: seq<Run>): nat {
    if runs == [] then 0 else runs[0].length * cs + Allocated(cs, runs[1..])
  }

  /** The clusters they map, holes included. */
  function TotalClusters(runs: seq<Run>): nat {
    if runs == [] then 0 else runs[0].length + TotalClusters(runs[1..])
  }

  /** The clusters of the run exist. */
  predicate OnDisk(disk: seq<byte>, cs: nat, r: Run) {
    r.lcn.Some? ==> (r.lcn.value + r.length) * cs <= |disk|
  }

  predicate AllOnDisk(disk: seq<byte>, cs: nat, runs: seq<Run>) {
    forall i :: 0 <= i < |runs| ==> OnDisk(disk, cs, runs[i])
  }

  lemma ReadExactIsDiskBytes(disk: seq<byte>, off: nat, n: nat)
    requires ReadExact(disk, off, n).Ok?
    ensures ReadExact(disk, off, n).value == DiskBytes(disk, off, n)
  {
  }

  lemma DiskBytesSlice(disk: seq<byte>, off: nat, n: nat, a: nat, b: nat)
    requires a <= b <= n
    ensures DiskBytes(disk, off, n)[a..b] == DiskBytes(disk, off + a, b - a)
  {
  }

  lemma ZeroesSlice(n: nat, a: nat, b: nat)
    requires a <= b <= n
    ensures Zeroes(n)[a..b] == Zeroes(b - a)
  {
  }

  function BytesOf(disk: seq<byte>, cs: nat): Run -> seq<byte> {
    (r: Run) => RunBytes(disk, cs, r)
  }

  lemma {:induction false} FlatIsFlatMap(disk: seq<byte>, cs: nat, runs: seq<Run>)
    ensures Flat(disk, cs, runs) == FlatMap(BytesOf(disk, cs), runs)
  {
    if runs != [] {
      FlatIsFlatMap(disk, cs, runs[1..]);
    }
  }

  lemma {:induction false} FlatConcat(disk: seq<byte>, cs: nat, a: seq<Run>, b: seq<Run>)
    ensures Flat(disk, cs, a + b) == Flat(disk, cs, a) + Flat(disk, cs, b)
  {
    FlatIsFlatMap(disk, cs, a);
    FlatIsFlatMap(disk, cs, b);
    FlatIsFlatMap(disk, cs, a + b);
    FlatMapConcat(BytesOf(disk, cs), a, b);
  }

  /** A run split in two still spells the same bytes. */
  lemma RunSplits(disk: seq<byte>, cs: nat, r: Run, take: u64)
    requires take <= r.length
    requires r.lcn.Some? ==> r.lcn.value + take <= U64_MAX
    ensures RunBytes(disk, cs, r) == RunBytes(disk, cs, Run(take, r.lcn)) + RunBytes(disk, cs, Advance(r, take))
  {
    var rest := Advance(r, take);
    assert take * cs + rest.length * cs == r.length * cs;
    if r.lcn.Some? {
      assert (r.lcn.value + take) * cs == r.lcn.value * cs + take * cs;
    }
  }

  /** What is left of a run after its first `take` clusters. */
  function Advance(r: Run, take: u64): Run
    requires take <= r.length
    requires r.lcn.Some? ==> r.lcn.value + take <= U64_MAX
  {
    Run(r.length - take, match r.lcn case None => None case Some(l) => Some(l + take))
  }
}
