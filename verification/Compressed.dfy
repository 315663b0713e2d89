/**
 Reading a compressed attribute unit by unit (`read_compressed_runs_capped` in core/src/data.rs).

 The LZNT1 decoder is a parameter.  The cluster size is positive and disk offsets fit 64 bits, as
 the boot sector and the reader guarantee.
 */
module Compressed {
  import opened Wrappers
  import opened Bytes
  import opened Errors
  import opened Clusters
  import opened Data

  type Lznt1 = seq<byte> -> Option<seq<byte>>

  datatype UnitRead = UnitRead(bytes: seq<byte>, realClusters: nat, got: nat, rest: seq<Run>)

  predicate Volume(disk: seq<byte>, cs: nat) {
    0 < cs && |disk| <= U64_MAX
  }

  /** The bytes of the first `take` clusters of a run; a hole contributes none. */
  function FrontPiece(disk: seq<byte>, cs: nat, r: Run, take: nat): Result<seq<byte>, NtfsError> {
    match r.lcn
    case None => Ok([])
    case Some(l) =>
      if l * cs > U64_MAX then Err(BadRunlist("LCN byte offset overflow")) else ReadExact(disk, l * cs, take * cs)
  }

  lemma FrontPieceInRange(disk: seq<byte>, cs: nat, r: Run, take: nat)
    requires Volume(disk, cs) && FrontPiece(disk, cs, r, take).Ok?
    ensures r.lcn.Some? ==> r.lcn.value + take <= U64_MAX
  {
    if r.lcn.Some? && take > 0 {
      ClusterWithin(r.lcn.value, take, cs, |disk|);
    }
  }

  lemma ClusterWithin(l: nat, take: nat, cs: nat, size: nat)
    requires 0 < cs && 0 < take
    ensures 0 < take * cs
    ensures l * cs + take * cs <= size ==> l + take <= size
  {
    assert l <= l * cs && take <= take * cs;
  }

  /** The queue once `take` clusters of its front run are consumed. */
  function AfterFront(queue: seq<Run>, take: u64): seq<Run>
    requires queue != [] && take <= queue[0].length
    requires queue[0].lcn.Some? ==> queue[0].lcn.value + take <= U64_MAX
  {
    if take == queue[0].length then queue[1..] else [Advance(queue[0], take)] + queue[1..]
  }

  function Combine(piece: seq<byte>, stored: nat, take: nat, more: UnitRead): UnitRead {
    UnitRead(piece + more.bytes, stored + more.realClusters, take + more.got, more.rest)
  }

  /** The inner loop: up to `need` clusters off the front of the queue. */
  function TakeUnit(disk: seq<byte>, cs: nat, queue: seq<Run>, need: nat): Result<UnitRead, NtfsError>
    requires Volume(disk, cs)
    decreases |queue|, need
  {
    if need == 0 || queue == [] then Ok(UnitRead([], 0, 0, queue))
    else
      var take := Min(need, queue[0].length);
      var piece := FrontPiece(disk, cs, queue[0], take);
      if piece.Err? then Err(piece.error)
      else
        FrontPieceInRange(disk, cs, queue[0], take);
        var more := TakeUnit(disk, cs, AfterFront(queue, take), need - take);
        if more.Err? then more
        else Ok(Combine(piece.value, if queue[0].lcn.Some? then take else 0, take, more.value))
  }

  lemma {:induction false} TakeUnitConsumes(disk: seq<byte>, cs: nat, queue: seq<Run>, need: nat)
    requires Volume(disk, cs) && TakeUnit(disk, cs, queue, need).Ok?
    ensures
      var u := TakeUnit(disk, cs, queue, need).value;
      && u.got + TotalClusters(u.rest) == TotalClusters(queue)
      && u.got <= need && u.realClusters <= u.got
    decreases |queue|, need
  {
    if need > 0 && queue != [] {
      var take := Min(need, queue[0].length);
      FrontPieceInRange(disk, cs, queue[0], take);
      var after := AfterFront(queue, take);
      assert take < queue[0].length ==> after[1..] == queue[1..];
      assert take + TotalClusters(after) == TotalClusters(queue);
      TakeUnitConsumes(disk, cs, after, need - take);
    }
  }

  /** What one unit of clusters contributes to the output. */
  function UnitOutput(lz: Lznt1, u: UnitRead, unitClusters: nat, unitBytes: nat, room: nat)
    : Result<seq<byte>, NtfsError>
  {
    if u.realClusters == 0 then Ok(Zeroes(Min(unitBytes, room)))
    else if u.realClusters == unitClusters then Ok(u.bytes)
    else match lz(u.bytes)
      case None => Err(BadCompression("LZNT1 decode failed"))
      case Some(d) => Ok(d[..Min(|d|, unitBytes)])
  }

  datatype Round = Failed(error: NtfsError) | Exhausted | Emitted(chunk: seq<byte>, rest: seq<Run>)

  /** One round of the outer loop: a unit gathered and its output. */
  function OneRound(disk: seq<byte>, cs: nat, lz: Lznt1, unit: nat, queue: seq<Run>, room: nat): (r: Round)
    requires Volume(disk, cs)
    ensures r.Emitted? ==> TotalClusters(r.rest) < TotalClusters(queue)
  {
    match TakeUnit(disk, cs, queue, unit)
    case Err(e) => Failed(e)
    case Ok(u) =>
      if u.got == 0 then Exhausted
      else
        TakeUnitConsumes(disk, cs, queue, unit);
        match UnitOutput(lz, u, unit, unit * cs, room)
        case Err(e) => Failed(e)
        case Ok(chunk) => Emitted(chunk, u.rest)
  }

  /** The outer loop.  It ends because every round consumes clusters, whatever they decode to. */
  function Inflate(disk: seq<byte>, cs: nat, lz: Lznt1, unit: nat, queue: seq<Run>, out: seq<byte>, target: nat)
    : Result<seq<byte>, NtfsError>
    requires Volume(disk, cs)
    decreases TotalClusters(queue)
  {
    if |out| >= target then Ok(out)
    else match OneRound(disk, cs, lz, unit, queue, target - |out|)
      case Failed(e) => Err(e)
      case Exhausted => Ok(out)
      case Emitted(chunk, rest) => Inflate(disk, cs, lz, unit, rest, out + chunk, target)
  }

  function Truncate(r: Result<seq<byte>, NtfsError>, n: nat): Result<seq<byte>, NtfsError> {
    if r.Ok? then Ok(r.value[..Min(|r.value|, n)]) else r
  }

  function ReadCompressed(disk: seq<byte>, cs: nat, lz: Lznt1, runs: seq<Run>, realSize: u64, unitClusters: nat,
                          maxBytes: u64)
    : Result<seq<byte>, NtfsError>
    requires Volume(disk, cs)
  {
    if realSize > MAX_VALUE_BYTES then Err(TooLarge(realSize))
    else if unitClusters * cs > U64_MAX then Err(BadRunlist("compression unit byte size overflow"))
    else
      var target := Min(realSize, maxBytes);
      Truncate(Inflate(disk, cs, lz, unitClusters, runs, [], target), target)
  }

  /** What gathering on from `u` ends with. */
  ghost function Completed(disk: seq<byte>, cs: nat, u: UnitRead, unitClusters: nat): Result<UnitRead, NtfsError>
    requires Volume(disk, cs) && u.got <= unitClusters
  {
    After(u.bytes, u.realClusters, u.got, TakeUnit(disk, cs, u.rest, unitClusters - u.got))
  }

  method GatherUnit(disk: seq<byte>, cs: nat, queue: seq<Run>, unitClusters: nat)
    returns (r: Result<UnitRead, NtfsError>)
    requires Volume(disk, cs)
    ensures r == TakeUnit(disk, cs, queue, unitClusters)
  {
    var u := UnitRead([], 0, 0, queue);
    AfterNothing(TakeUnit(disk, cs, queue, unitClusters));
    while u.got < unitClusters && u.rest != []
      invariant u.got <= unitClusters
      invariant Completed(disk, cs, u, unitClusters) == TakeUnit(disk, cs, queue, unitClusters)
      decreases |u.rest|, unitClusters - u.got
    {
      var more := GatherFront(disk, cs, u, unitClusters);
      if more.Err? {
        return Err(more.error);
      }
      u := more.value;
    }
    assert u.bytes + [] == u.bytes;
    r := Ok(u);
  }

  /** One turn of the loop: clusters off the front run. */
  method GatherFront(disk: seq<byte>, cs: nat, u: UnitRead, unitClusters: nat) returns (r: Result<UnitRead, NtfsError>)
    requires Volume(disk, cs) && u.got < unitClusters && u.rest != []
    ensures r.Err? ==> Completed(disk, cs, u, unitClusters) == Err(r.error)
    ensures r.Ok? ==>
              && r.value.got <= unitClusters
              && Completed(disk, cs, r.value, unitClusters) == Completed(disk, cs, u, unitClusters)
              && (|r.value.rest| < |u.rest| || (|r.value.rest| == |u.rest| && u.got < r.value.got))
  {
    var front := u.rest[0];
    var take := Min(unitClusters - u.got, front.length);
    var piece := FrontPiece(disk, cs, front, take);
    if piece.Err? {
      return Err(piece.error);
    }
    FrontPieceInRange(disk, cs, front, take);
    TakesFront(disk, cs, u.rest, unitClusters - u.got, take, piece.value, u.bytes, u.realClusters, u.got);
    var realClusters := u.realClusters;
    if front.lcn.Some? {
      realClusters := realClusters + take;
    }
    r := Ok(UnitRead(u.bytes + piece.value, realClusters, u.got + take, AfterFront(u.rest, take)));
  }

  function After(bytes: seq<byte>, stored: nat, got: nat, more: Result<UnitRead, NtfsError>)
    : Result<UnitRead, NtfsError>
  {
    if more.Ok? then Ok(Combine(bytes, stored, got, more.value)) else more
  }

  lemma TakesFront(disk: seq<byte>, cs: nat, queue: seq<Run>, need: nat, take: u64, piece: seq<byte>,
                   bytes: seq<byte>, stored: nat, got: nat)
    requires Volume(disk, cs) && need > 0 && queue != [] && take == Min(need, queue[0].length)
    requires FrontPiece(disk, cs, queue[0], take) == Ok(piece)
    requires queue[0].lcn.Some? ==> queue[0].lcn.value + take <= U64_MAX
    ensures After(bytes, stored, got, TakeUnit(disk, cs, queue, need)) ==
            After(bytes + piece, stored + (if queue[0].lcn.Some? then take else 0), got + take,
                  TakeUnit(disk, cs, AfterFront(queue, take), need - take))
  {
    var more := TakeUnit(disk, cs, AfterFront(queue, take), need - take);
    AfterTwice(bytes, stored, got, piece, if queue[0].lcn.Some? then take else 0, take, more);
  }

  lemma AfterNothing(more: Result<UnitRead, NtfsError>)
    ensures After([], 0, 0, more) == more
  {
    if more.Ok? {
      assert [] + more.value.bytes == more.value.bytes;
    }
  }

  lemma AfterTwice(a: seq<byte>, ra: nat, ga: nat, b: seq<byte>, rb: nat, gb: nat, more: Result<UnitRead, NtfsError>)
    ensures After(a, ra, ga, After(b, rb, gb, more)) == After(a + b, ra + rb, ga + gb, more)
  {
    if more.Ok? {
      assert a + (b + more.value.bytes) == a + b + more.value.bytes;
    }
  }

  method RunRound(disk: seq<byte>, cs: nat, lz: Lznt1, unit: nat, queue: seq<Run>, room: nat) returns (r: Round)
    requires Volume(disk, cs)
    ensures r == OneRound(disk, cs, lz, unit, queue, room)
  {
    var u := GatherUnit(disk, cs, queue, unit);
    if u.Err? {
      return Failed(u.error);
    }
    if u.value.got == 0 {
      return Exhausted;
    }
    var chunk := UnitOutput(lz, u.value, unit, unit * cs, room);
    if chunk.Err? {
      return Failed(chunk.error);
    }
    r := Emitted(chunk.value, u.value.rest);
  }

  method InflateRuns(disk: seq<byte>, cs: nat, lz: Lznt1, runs: seq<Run>, unit: nat, target: nat)
    returns (r: Result<seq<byte>, NtfsError>)
    requires Volume(disk, cs)
    ensures r == Inflate(disk, cs, lz, unit, runs, [], target)
  {
    var queue := runs;
    var out: seq<byte> := [];
    while |out| < target
      invariant Inflate(disk, cs, lz, unit, runs, [], target) == Inflate(disk, cs, lz, unit, queue, out, target)
      decreases TotalClusters(queue)
    {
      var round := RunRound(disk, cs, lz, unit, queue, target - |out|);
      match round {
        case Failed(e) => return Err(e);
        case Exhausted => break;
        case Emitted(chunk, rest) =>
          queue := rest;
          out := out + chunk;
      }
    }
    r := Ok(out);
  }

  /** `read_compressed_runs_capped`. */
  method ReadCompressedRunsCapped(disk: seq<byte>, cs: nat, lz: Lznt1, runs: seq<Run>, realSize: u64,
                                  unitClusters: nat, maxBytes: u64)
    returns (r: Result<seq<byte>, NtfsError>)
    requires Volume(disk, cs)
    ensures r == ReadCompressed(disk, cs, lz, runs, realSize, unitClusters, maxBytes)
  {
    if realSize > MAX_VALUE_BYTES {
      return Err(TooLarge(realSize));
    }
    var target := Min(realSize, maxBytes);
    if unitClusters * cs > U64_MAX {
      return Err(BadRunlist("compression unit byte size overflow"));
    }
    var out := InflateRuns(disk, cs, lz, runs, unitClusters, target);
    r := Truncate(out, target);
  }

  // ----- Capped reads -----

  lemma {:induction false} InflateExtends(disk: seq<byte>, cs: nat, lz: Lznt1, unit: nat, queue: seq<Run>,
                                          out: seq<byte>, target: nat)
    requires Volume(disk, cs) && Inflate(disk, cs, lz, unit, queue, out, target).Ok?
    ensures out <= Inflate(disk, cs, lz, unit, queue, out, target).value
    decreases TotalClusters(queue)
  {
    if |out| < target {
      match OneRound(disk, cs, lz, unit, queue, target - |out|)
      case Failed(_) =>
      case Exhausted =>
      case Emitted(chunk, rest) => InflateExtends(disk, cs, lz, unit, rest, out + chunk, target);
    }
  }

  lemma PrefixCut(w: seq<byte>, v: seq<byte>, n: nat)
    requires w <= v && n <= |w|
    ensures Truncate(Ok(w), n) == Truncate(Ok(v), n)
  {
    assert w[..n] == v[..n];
  }

  /** One round under two targets: the same outcome, or a hole cut at the smaller target. */
  lemma RoundUnderTargets(disk: seq<byte>, cs: nat, lz: Lznt1, unit: nat, queue: seq<Run>, less: nat, more: nat)
    requires Volume(disk, cs) && less <= more
    ensures
      var a, b := OneRound(disk, cs, lz, unit, queue, less), OneRound(disk, cs, lz, unit, queue, more);
      a == b || (a.Emitted? && b.Emitted? && a.rest == b.rest && |a.chunk| == less && a.chunk <= b.chunk)
  {
  }

  lemma {:induction false} InflateReachedTarget(disk: seq<byte>, cs: nat, lz: Lznt1, unit: nat, queue: seq<Run>,
                                                a: seq<byte>, b: seq<byte>, less: nat, more: nat)
    requires Volume(disk, cs) && |a| >= less && a <= b
    requires Inflate(disk, cs, lz, unit, queue, b, more).Ok?
    ensures Truncate(Inflate(disk, cs, lz, unit, queue, a, less), less) ==
            Truncate(Inflate(disk, cs, lz, unit, queue, b, more), less)
  {
    InflateExtends(disk, cs, lz, unit, queue, b, more);
    PrefixCut(a, Inflate(disk, cs, lz, unit, queue, b, more).value, less);
  }

  /** Stopping at a smaller target yields the same bytes, cut short. */
  lemma {:induction false} InflateCapped(disk: seq<byte>, cs: nat, lz: Lznt1, unit: nat, queue: seq<Run>,
                                         out: seq<byte>, less: nat, more: nat)
    requires Volume(disk, cs) && less <= more
    requires Inflate(disk, cs, lz, unit, queue, out, more).Ok?
    ensures Truncate(Inflate(disk, cs, lz, unit, queue, out, less), less) ==
            Truncate(Inflate(disk, cs, lz, unit, queue, out, more), less)
    decreases TotalClusters(queue)
  {
    if |out| >= less {
      InflateReachedTarget(disk, cs, lz, unit, queue, out, out, less, more);
    } else {
      RoundUnderTargets(disk, cs, lz, unit, queue, less - |out|, more - |out|);
      var a := OneRound(disk, cs, lz, unit, queue, less - |out|);
      var b := OneRound(disk, cs, lz, unit, queue, more - |out|);
      if a == b {
        if a.Emitted? {
          InflateCapped(disk, cs, lz, unit, a.rest, out + a.chunk, less, more);
        }
      } else {
        InflateReachedTarget(disk, cs, lz, unit, a.rest, out + a.chunk, out + b.chunk, less, more);
      }
    }
  }

  /** If the uncapped read succeeds, every capped read succeeds and is its prefix. */
  lemma CappedUnitsArePrefix(disk: seq<byte>, cs: nat, lz: Lznt1, runs: seq<Run>, realSize: u64, unit: nat, cap: u64,
                             maxBytes: u64)
    requires Volume(disk, cs) && cap <= maxBytes
    requires ReadCompressed(disk, cs, lz, runs, realSize, unit, maxBytes).Ok?
    ensures
      var full := ReadCompressed(disk, cs, lz, runs, realSize, unit, maxBytes).value;
      ReadCompressed(disk, cs, lz, runs, realSize, unit, cap) == Ok(full[..Min(|full|, cap)])
  {
    var less, more := Min(realSize, cap), Min(realSize, maxBytes);
    InflateCapped(disk, cs, lz, unit, runs, [], less, more);
    var v := Inflate(disk, cs, lz, unit, runs, [], more).value;
    assert v[..Min(|v|, less)] == v[..Min(|v|, more)][..Min(Min(|v|, more), cap)];
  }
}
