/** Reading an attribute's bytes through its runlist (core/src/data.rs). */
module Data {
  import opened Wrappers
  import opened Bytes
  import opened Sequences
  import opened Errors
  import opened Clusters

  const MAX_VALUE_BYTES: nat := 0x100_0000_0000

  /** The first `take` bytes of one run. */
  function RunPiece(disk: seq<byte>, cs: nat, r: Run, take: nat): Result<seq<byte>, NtfsError> {
    match r.lcn
    case None => Ok(Zeroes(take))
    case Some(l) =>
      if l * cs > U64_MAX then Err(BadRunlist("LCN byte offset overflow")) else ReadExact(disk, l * cs, take)
  }

  /** The reading loop of `read_runs_capped`. */
  function Gather(disk: seq<byte>, cs: nat, runs: seq<Run>, remaining: nat): Result<seq<byte>, NtfsError> {
    if runs == [] || remaining == 0 then Ok([])
    else
      var take := Min(runs[0].length * cs, remaining);
      var piece := RunPiece(disk, cs, runs[0], take);
      if piece.Err? then piece else Prepend(piece.value, Gather(disk, cs, runs[1..], remaining - take))
  }

  /** The checked sum of the run sizes. */
  function CheckedAllocation(cs: nat, runs: seq<Run>, total: nat): Result<nat, NtfsError> {
    if runs == [] then Ok(total)
    else if runs[0].length * cs > U64_MAX then Err(BadRunlist("run byte length overflow"))
    else if total + runs[0].length * cs > U64_MAX then Err(BadRunlist("allocation overflow"))
    else CheckedAllocation(cs, runs[1..], total + runs[0].length * cs)
  }

  function Want(cs: nat, runs: seq<Run>, realSize: nat, maxBytes: nat): nat {
    Min(Min(realSize, Allocated(cs, runs)), maxBytes)
  }

  function ReadRuns(disk: seq<byte>, cs: nat, runs: seq<Run>, realSize: u64, maxBytes: u64)
    : Result<seq<byte>, NtfsError>
  {
    match CheckedAllocation(cs, runs, 0)
    case Err(e) => Err(e)
    case Ok(total) =>
      var want := Min(Min(realSize, total), maxBytes);
      if want > MAX_VALUE_BYTES then Err(TooLarge(want)) else Gather(disk, cs, runs, want)
  }

  method SumRuns(runs: seq<Run>, cs: u64) returns (r: Result<nat, NtfsError>)
    ensures r == CheckedAllocation(cs, runs, 0)
  {
    var total := 0;
    for i := 0 to |runs|
      invariant 0 <= total <= U64_MAX
      invariant CheckedAllocation(cs, runs, 0) == CheckedAllocation(cs, runs[i..], total)
    {
      assert runs[i..][1..] == runs[i + 1..];
      var runBytes := runs[i].length * cs;
      if runBytes > U64_MAX {
        return Err(BadRunlist("run byte length overflow"));
      }
      if total + runBytes > U64_MAX {
        return Err(BadRunlist("allocation overflow"));
      }
      total := total + runBytes;
    }
    r := Ok(total);
  }

  method GatherRuns(disk: seq<byte>, runs: seq<Run>, cs: u64, want: nat) returns (r: Result<seq<byte>, NtfsError>)
    ensures r == Gather(disk, cs, runs, want)
  {
    var out: seq<byte> := [];
    var remaining := want;
    assert runs[0..] == runs;
    PrependNothing(Gather(disk, cs, runs, want));
    for i := 0 to |runs|
      invariant 0 <= remaining
      invariant Gather(disk, cs, runs, want) == Prepend(out, Gather(disk, cs, runs[i..], remaining))
    {
      assert runs[i..][0] == runs[i] && runs[i..][1..] == runs[i + 1..];
      if remaining == 0 {
        break;
      }
      var take := Min(runs[i].length * cs, remaining);
      var piece := RunPiece(disk, cs, runs[i], take);
      if piece.Err? {
        return Err(piece.error);
      }
      PrependTwice(out, piece.value, Gather(disk, cs, runs[i + 1..], remaining - take));
      out := out + piece.value;
      remaining := remaining - take;
    }
    assert out + [] == out;
    r := Ok(out);
  }

  /** `read_runs_capped`. */
  method ReadRunsCapped(disk: seq<byte>, runs: seq<Run>, cs: u64, realSize: u64, maxBytes: u64)
    returns (r: Result<seq<byte>, NtfsError>)
    ensures r == ReadRuns(disk, cs, runs, realSize, maxBytes)
    ensures r.Ok? <==> ReadRunsSucceeds(disk, cs, runs, realSize, maxBytes)
    ensures r.Ok? ==> r.value == Flat(disk, cs, runs)[..Want(cs, runs, realSize, maxBytes)]
  {
    ReadRunsMeaning(disk, cs, runs, realSize, maxBytes);
    var sum := SumRuns(runs, cs);
    if sum.Err? {
      return Err(sum.error);
    }
    var want := Min(Min(realSize, sum.value), maxBytes);
    if want > MAX_VALUE_BYTES {
      return Err(TooLarge(want));
    }
    r := GatherRuns(disk, runs, cs, want);
  }

  // ----- What it reads -----

  lemma {:induction false} CheckedAllocationIsSum(cs: nat, runs: seq<Run>, total: nat)
    requires total <= U64_MAX
    ensures CheckedAllocation(cs, runs, total) == Ok(total + Allocated(cs, runs))
            <==> total + Allocated(cs, runs) <= U64_MAX
    ensures CheckedAllocation(cs, runs, total).Ok? <==> total + Allocated(cs, runs) <= U64_MAX
    ensures CheckedAllocation(cs, runs, total).Err? ==> CheckedAllocation(cs, runs, total).error.BadRunlist?
  {
    if runs != [] && total + runs[0].length * cs <= U64_MAX {
      CheckedAllocationIsSum(cs, runs[1..], total + runs[0].length * cs);
    }
  }

  /** The first `take` bytes of the run are addressable and on the disk. */
  predicate RunReachable(disk: seq<byte>, cs: nat, r: Run, take: nat) {
    r.lcn.Some? ==> r.lcn.value * cs <= U64_MAX && (take > 0 ==> r.lcn.value * cs + take <= |disk|)
  }

  /** Every cluster needed for the first `remaining` bytes is addressable and on the disk. */
  predicate Reachable(disk: seq<byte>, cs: nat, runs: seq<Run>, remaining: nat) {
    if runs == [] || remaining == 0 then true
    else
      var take := Min(runs[0].length * cs, remaining);
      && RunReachable(disk, cs, runs[0], take)
      && Reachable(disk, cs, runs[1..], remaining - take)
  }

  lemma RunPieceIsPrefix(disk: seq<byte>, cs: nat, r: Run, take: nat)
    requires take <= r.length * cs
    ensures RunPiece(disk, cs, r, take).Ok? <==> RunReachable(disk, cs, r, take)
    ensures RunPiece(disk, cs, r, take).Ok? ==> RunPiece(disk, cs, r, take).value == RunBytes(disk, cs, r)[..take]
  {
    if RunPiece(disk, cs, r, take).Ok? {
      ReachedIsPrefix(disk, cs, r, take);
    }
  }

  lemma ReachedIsPrefix(disk: seq<byte>, cs: nat, r: Run, take: nat)
    requires take <= r.length * cs && RunPiece(disk, cs, r, take).Ok?
    ensures RunPiece(disk, cs, r, take).value == RunBytes(disk, cs, r)[..take]
  {
    match r.lcn
    case None => ZeroesSlice(r.length * cs, 0, take);
    case Some(l) =>
      ReadExactIsDiskBytes(disk, l * cs, take);
      DiskBytesSlice(disk, l * cs, r.length * cs, 0, take);
  }

  lemma PrefixOfConcat(a: seq<byte>, b: seq<byte>, n: nat)
    requires n <= |a| + |b|
    ensures (a + b)[..n] == a[..Min(|a|, n)] + b[..n - Min(|a|, n)]
  {
  }

  lemma {:induction false} GatherIsFlat(disk: seq<byte>, cs: nat, runs: seq<Run>, remaining: nat)
    requires remaining <= Allocated(cs, runs)
    ensures Gather(disk, cs, runs, remaining).Ok? <==> Reachable(disk, cs, runs, remaining)
    ensures Gather(disk, cs, runs, remaining).Ok? ==>
              Gather(disk, cs, runs, remaining).value == Flat(disk, cs, runs)[..remaining]
  {
    if runs != [] && remaining > 0 {
      var here := RunBytes(disk, cs, runs[0]);
      var take := Min(|here|, remaining);
      GatherIsFlat(disk, cs, runs[1..], remaining - take);
      RunPieceIsPrefix(disk, cs, runs[0], take);
      PrefixOfConcat(here, Flat(disk, cs, runs[1..]), remaining);
    }
  }

  predicate ReadRunsSucceeds(disk: seq<byte>, cs: nat, runs: seq<Run>, realSize: nat, maxBytes: nat) {
    && Allocated(cs, runs) <= U64_MAX
    && Want(cs, runs, realSize, maxBytes) <= 0x100_0000_0000
    && Reachable(disk, cs, runs, Want(cs, runs, realSize, maxBytes))
  }

  /** The sequential read is a prefix of `Flat`, and fails exactly for overflow, size or missing clusters. */
  lemma {:induction false} ReadRunsMeaning(disk: seq<byte>, cs: nat, runs: seq<Run>, realSize: u64, maxBytes: u64)
    ensures ReadRuns(disk, cs, runs, realSize, maxBytes).Ok? <==>
            ReadRunsSucceeds(disk, cs, runs, realSize, maxBytes)
    ensures ReadRuns(disk, cs, runs, realSize, maxBytes).Ok? ==>
              ReadRuns(disk, cs, runs, realSize, maxBytes).value ==
              Flat(disk, cs, runs)[..Want(cs, runs, realSize, maxBytes)]
    ensures Allocated(cs, runs) > U64_MAX ==>
              && ReadRuns(disk, cs, runs, realSize, maxBytes).Err?
              && ReadRuns(disk, cs, runs, realSize, maxBytes).error.BadRunlist?
    ensures Allocated(cs, runs) <= U64_MAX && Want(cs, runs, realSize, maxBytes) > 0x100_0000_0000 ==>
              ReadRuns(disk, cs, runs, realSize, maxBytes) == Err(TooLarge(Want(cs, runs, realSize, maxBytes)))
  {
    CheckedAllocationIsSum(cs, runs, 0);
    GatherIsFlat(disk, cs, runs, Want(cs, runs, realSize, maxBytes));
  }

  lemma {:induction false} ReachableLess(disk: seq<byte>, cs: nat, runs: seq<Run>, less: nat, more: nat)
    requires less <= more && Reachable(disk, cs, runs, more)
    ensures Reachable(disk, cs, runs, less)
  {
    if runs != [] && less > 0 {
      var size := runs[0].length * cs;
      ReachableLess(disk, cs, runs[1..], less - Min(size, less), more - Min(size, more));
    }
  }

  /** A lower cap cuts the same stream short: it never fails where the full read succeeds. */
  lemma CappedRunsArePrefix(disk: seq<byte>, cs: nat, runs: seq<Run>, realSize: u64, cap: u64, maxBytes: u64)
    requires cap <= maxBytes && ReadRuns(disk, cs, runs, realSize, maxBytes).Ok?
    ensures
      var full := ReadRuns(disk, cs, runs, realSize, maxBytes).value;
      ReadRuns(disk, cs, runs, realSize, cap) == Ok(full[..Min(|full|, cap)])
  {
    ReadRunsMeaning(disk, cs, runs, realSize, maxBytes);
    ReadRunsMeaning(disk, cs, runs, realSize, cap);
    var less, more := Want(cs, runs, realSize, cap), Want(cs, runs, realSize, maxBytes);
    ReachableLess(disk, cs, runs, less, more);
    assert Flat(disk, cs, runs)[..more][..less] == Flat(disk, cs, runs)[..less];
  }

  lemma {:induction false} OnDiskIsReachable(disk: seq<byte>, cs: nat, runs: seq<Run>, remaining: nat)
    requires AllOnDisk(disk, cs, runs) && |disk| <= U64_MAX
    ensures Reachable(disk, cs, runs, remaining)
  {
    if runs != [] && remaining > 0 {
      assert OnDisk(disk, cs, runs[0]);
      if runs[0].lcn.Some? {
        assert (runs[0].lcn.value + runs[0].length) * cs == runs[0].lcn.value * cs + runs[0].length * cs;
      }
      OnDiskIsReachable(disk, cs, runs[1..], remaining - Min(runs[0].length * cs, remaining));
    }
  }
}
