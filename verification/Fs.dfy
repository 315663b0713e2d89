/** Random-access reads through a runlist (`read_virtual` in core/src/fs.rs). */
module Fs {
  import opened Wrappers
  import opened Bytes
  import opened Sequences
  import opened Errors
  import opened Clusters
  import opened Data

  /** `take` bytes of a run from its byte `within` on. */
  function WindowPiece(disk: seq<byte>, cs: nat, r: Run, within: nat, take: nat): Result<seq<byte>, NtfsError> {
    match r.lcn
    case None => Ok(Zeroes(take))
    case Some(l) =>
      if l * cs + within > U64_MAX then Err(BadRunlist("physical offset overflow"))
      else ReadExact(disk, l * cs + within, take)
  }

  /** What one run contributes: an error, nothing yet, or the bytes where it covers the window. */
  datatype Step = Fail(error: NtfsError) | Before(end: nat) | Cover(bytes: seq<byte>, end: nat)

  function StepRun(disk: seq<byte>, cs: nat, r: Run, start: nat, pos: nat, want: nat): Step {
    StepSized(disk, cs, r, r.length * cs, start, pos, want)
  }

  /** The step through a run of `size` bytes. */
  function StepSized(disk: seq<byte>, cs: nat, r: Run, size: nat, start: nat, pos: nat, want: nat): Step {
    if size > U64_MAX then Fail(BadRunlist("run byte length overflow"))
    else if start + size > U64_MAX then Fail(BadRunlist("run end overflow"))
    else if start <= pos < start + size then
      match WindowPiece(disk, cs, r, pos - start, Min(size - (pos - start), want))
      case Err(e) => Fail(e)
      case Ok(bytes) => Cover(bytes, start + size)
    else Before(start + size)
  }

  /** What a run contributes, given where it starts, the position and the bytes wanted. */
  type StepFn = (Run, nat, nat, nat) -> Step

  function Stepping(disk: seq<byte>, cs: nat): StepFn {
    (r: Run, start: nat, pos: nat, want: nat) => StepRun(disk, cs, r, start, pos, want)
  }

  function Less(want: nat, got: nat): nat {
    if got <= want then want - got else 0
  }

  /** The loop of `read_virtual` at runs that start at virtual offset `start`. */
  function WindowBy(step: StepFn, runs: seq<Run>, start: nat, pos: nat, want: nat): Result<seq<byte>, NtfsError> {
    if want == 0 then Ok([])
    else if runs == [] then Err(BadRunlist("read past end of runs"))
    else match step(runs[0], start, pos, want)
      case Fail(e) => Err(e)
      case Before(end) => WindowBy(step, runs[1..], end, pos, want)
      case Cover(bytes, end) =>
        Prepend(bytes, WindowBy(step, runs[1..], end, pos + |bytes|, Less(want, |bytes|)))
  }

  function Window(disk: seq<byte>, cs: nat, runs: seq<Run>, start: nat, pos: nat, want: nat)
    : Result<seq<byte>, NtfsError>
  {
    WindowBy(Stepping(disk, cs), runs, start, pos, want)
  }

  // ----- The loop -----

  /** `step` is right about the given runs. */
  ghost predicate StepsAs(step: StepFn, disk: seq<byte>, cs: nat, runs: seq<Run>) {
    runs == [] ||
    (&& (forall start: nat, pos: nat, want: nat ::
           step(runs[0], start, pos, want) == StepRun(disk, cs, runs[0], start, pos, want))
     && StepsAs(step, disk, cs, runs[1..]))
  }

  lemma {:induction false} SteppingSteps(disk: seq<byte>, cs: nat, runs: seq<Run>)
    ensures StepsAs(Stepping(disk, cs), disk, cs, runs)
  {
    if runs != [] {
      SteppingSteps(disk, cs, runs[1..]);
    }
  }

  lemma {:induction false} StepsAt(step: StepFn, disk: seq<byte>, cs: nat, runs: seq<Run>, i: nat, start: nat,
                                   pos: nat, want: nat)
    requires StepsAs(step, disk, cs, runs) && i < |runs|
    ensures step(runs[i], start, pos, want) == StepRun(disk, cs, runs[i], start, pos, want)
  {
    if i > 0 {
      StepsAt(step, disk, cs, runs[1..], i - 1, start, pos, want);
    }
  }

  lemma {:induction false} WindowByStep(step: StepFn, runs: seq<Run>, i: nat, start: nat, pos: nat, want: nat,
                                        out: seq<byte>)
    requires i < |runs| && 0 < want
    ensures
      Prepend(out, WindowBy(step, runs[i..], start, pos, want)) ==
      match step(runs[i], start, pos, want)
      case Fail(e) => Err(e)
      case Before(end) => Prepend(out, WindowBy(step, runs[i + 1..], end, pos, want))
      case Cover(bytes, end) =>
        Prepend(out + bytes, WindowBy(step, runs[i + 1..], end, pos + |bytes|, Less(want, |bytes|)))
  {
    assert runs[i..][0] == runs[i] && runs[i..][1..] == runs[i + 1..];
    var s := step(runs[i], start, pos, want);
    if s.Cover? {
      PrependTwice(out, s.bytes, WindowBy(step, runs[i + 1..], s.end, pos + |s.bytes|, Less(want, |s.bytes|)));
    }
  }

  method ReadVirtual(disk: seq<byte>, runs: seq<Run>, cs: u64, offset: u64, len: u64)
    returns (r: Result<seq<byte>, NtfsError>)
    ensures r == Window(disk, cs, runs, 0, offset, len)
  {
    SteppingSteps(disk, cs, runs);
    r := ReadRunByRun(disk, runs, cs, offset, len, Stepping(disk, cs));
  }

  method ReadRunByRun(disk: seq<byte>, runs: seq<Run>, cs: u64, offset: u64, len: u64, ghost step: StepFn)
    returns (r: Result<seq<byte>, NtfsError>)
    requires StepsAs(step, disk, cs, runs)
    ensures r == WindowBy(step, runs, 0, offset, len)
  {
    var out: seq<byte> := [];
    var want: nat, pos: nat, runBase: nat := len, offset, 0;
    PrependNothing(WindowBy(step, runs, 0, offset, len));
    assert runs[0..] == runs;
    for i := 0 to |runs|
      invariant 0 <= want && 0 <= runBase && 0 <= pos && (want > 0 ==> runBase <= pos)
      invariant WindowBy(step, runs, 0, offset, len) == Prepend(out, WindowBy(step, runs[i..], runBase, pos, want))
    {
      if want == 0 {
        break;
      }
      WindowByStep(step, runs, i, runBase, pos, want, out);
      var here := ReadRun(disk, runs, i, cs, runBase, pos, want, step);
      match here {
        case Fail(e) =>
          return Err(e);
        case Before(end) =>
          runBase := end;
        case Cover(bytes, end) =>
          out := out + bytes;
          want := want - |bytes|;
          pos := pos + |bytes|;
          runBase := end;
      }
    }
    if want > 0 {
      return Err(BadRunlist("read past end of runs"));
    }
    assert out + [] == out;
    r := Ok(out);
  }

  /** The body of the loop for one run. */
  method ReadRun(disk: seq<byte>, runs: seq<Run>, i: nat, cs: nat, runBase: nat, pos: nat, want: nat, ghost step: StepFn)
    returns (s: Step)
    requires StepsAs(step, disk, cs, runs) && i < |runs| && 0 < want && runBase <= pos
    ensures s == step(runs[i], runBase, pos, want)
    ensures s.Before? ==> s.end <= pos
    ensures s.Cover? ==> |s.bytes| <= want && (|s.bytes| < want ==> s.end == pos + |s.bytes|)
  {
    StepsAt(step, disk, cs, runs, i, runBase, pos, want);
    StepBounds(disk, cs, runs[i], runs[i].length * cs, runBase, pos, want);
    s := ReadSized(disk, runs[i], cs, runs[i].length * cs, runBase, pos, want);
  }

  lemma StepBounds(disk: seq<byte>, cs: nat, r: Run, size: nat, start: nat, pos: nat, want: nat)
    requires start <= pos
    ensures
      var s := StepSized(disk, cs, r, size, start, pos, want);
      && (s.Before? ==> s.end <= pos)
      && (s.Cover? ==> |s.bytes| <= want && (|s.bytes| < want ==> s.end == pos + |s.bytes|))
  {
  }

  method ReadSized(disk: seq<byte>, run: Run, cs: nat, runBytes: nat, runBase: nat, pos: nat, want: nat)
    returns (s: Step)
    requires runBase <= pos
    ensures s == StepSized(disk, cs, run, runBytes, runBase, pos, want)
  {
    if runBytes > U64_MAX {
      return Fail(BadRunlist("run byte length overflow"));
    }
    var runEnd := runBase + runBytes;
    if runEnd > U64_MAX {
      return Fail(BadRunlist("run end overflow"));
    }
    if pos < runEnd {
      var within := pos - runBase;
      var take := Min(runBytes - within, want);
      var piece := WindowPiece(disk, cs, run, within, take);
      if piece.Err? {
        return Fail(piece.error);
      }
      return Cover(piece.value, runEnd);
    }
    s := Before(runEnd);
  }

  // ----- What it reads -----

  lemma WindowPieceIsSlice(disk: seq<byte>, cs: nat, r: Run, within: nat, take: nat)
    requires within + take <= r.length * cs && WindowPiece(disk, cs, r, within, take).Ok?
    ensures WindowPiece(disk, cs, r, within, take).value == RunBytes(disk, cs, r)[within..within + take]
  {
    match r.lcn
    case None => ZeroesSlice(r.length * cs, within, within + take);
    case Some(l) =>
      ReadExactIsDiskBytes(disk, l * cs + within, take);
      DiskBytesSlice(disk, l * cs, r.length * cs, within, within + take);
  }

  /** `v` stands in `flat` at `from`. */
  ghost predicate At(flat: seq<byte>, from: nat, v: seq<byte>) {
    from + |v| <= |flat| && flat[from..from + |v|] == v
  }

  lemma AtTail(here: seq<byte>, tail: seq<byte>, from: nat, v: seq<byte>)
    requires At(tail, from, v)
    ensures At(here + tail, |here| + from, v)
  {
  }

  lemma AtHead(here: seq<byte>, tail: seq<byte>, from: nat, v: seq<byte>)
    requires At(here, from, v)
    ensures At(here + tail, from, v + [])
  {
  }

  lemma AtBoth(here: seq<byte>, tail: seq<byte>, from: nat, v: seq<byte>, w: seq<byte>)
    requires At(here, from, v) && from + |v| == |here| && At(tail, 0, w)
    ensures At(here + tail, from, v + w)
  {
    assert (here + tail)[from..from + |v + w|] == here[from..] + tail[..|w|];
  }

  /** A step through a run whose bytes are `here`, as it should be. */
  ghost predicate StepFaithful(s: Step, here: seq<byte>, start: nat, pos: nat, want: nat)
    requires start <= pos
  {
    && (s.Before? ==> s.end == start + |here| <= pos)
    && (s.Cover? ==>
          && s.end == start + |here| && 0 < |s.bytes| <= want && At(here, pos - start, s.bytes)
          && (|s.bytes| < want ==> s.end == pos + |s.bytes|))
  }

  ghost predicate Faithful(step: StepFn, bytesOf: Run -> seq<byte>) {
    forall r, start: nat, pos: nat, want: nat {:trigger step(r, start, pos, want)} ::
      0 < want && start <= pos ==> StepFaithful(step(r, start, pos, want), bytesOf(r), start, pos, want)
  }

  lemma SteppingIsFaithful(disk: seq<byte>, cs: nat)
    ensures Faithful(Stepping(disk, cs), BytesOf(disk, cs))
  {
    forall r, start: nat, pos: nat, want: nat | 0 < want && start <= pos
      ensures StepFaithful(StepRun(disk, cs, r, start, pos, want), RunBytes(disk, cs, r), start, pos, want)
    {
      StepRunFaithful(disk, cs, r, start, pos, want);
    }
  }

  lemma StepRunFaithful(disk: seq<byte>, cs: nat, r: Run, start: nat, pos: nat, want: nat)
    requires 0 < want && start <= pos
    ensures StepFaithful(StepRun(disk, cs, r, start, pos, want), RunBytes(disk, cs, r), start, pos, want)
  {
    if StepRun(disk, cs, r, start, pos, want).Cover? {
      WindowPieceIsSlice(disk, cs, r, pos - start, Min(r.length * cs - (pos - start), want));
    }
  }

  /** How one run and the window of the remaining runs make up the window. */
  lemma StepThenRest(s: Step, here: seq<byte>, tail: seq<byte>, start: nat, pos: nat, want: nat, w: seq<byte>)
    requires 0 < want && start <= pos && StepFaithful(s, here, start, pos, want)
    ensures s.Before? && At(tail, pos - s.end, w) ==> At(here + tail, pos - start, w)
    ensures s.Cover? && |s.bytes| == want && w == [] ==> At(here + tail, pos - start, s.bytes + w)
    ensures s.Cover? && |s.bytes| < want && At(tail, 0, w) ==> At(here + tail, pos - start, s.bytes + w)
  {
    if s.Before? && At(tail, pos - s.end, w) {
      AtTail(here, tail, pos - s.end, w);
    }
    if s.Cover? {
      AtHead(here, tail, pos - start, s.bytes);
      if |s.bytes| < want && At(tail, 0, w) {
        AtBoth(here, tail, pos - start, s.bytes, w);
      }
    }
  }

  lemma {:induction false} WindowByIsAt(step: StepFn, bytesOf: Run -> seq<byte>, runs: seq<Run>, start: nat, pos: nat,
                                        want: nat)
    requires Faithful(step, bytesOf) && want > 0 && start <= pos && WindowBy(step, runs, start, pos, want).Ok?
    ensures |WindowBy(step, runs, start, pos, want).value| == want
    ensures At(FlatMap(bytesOf, runs), pos - start, WindowBy(step, runs, start, pos, want).value)
    decreases runs
  {
    var rest, s := runs[1..], step(runs[0], start, pos, want);
    var w: seq<byte> := [];
    if s.Before? {
      WindowByIsAt(step, bytesOf, rest, s.end, pos, want);
      w := WindowBy(step, rest, s.end, pos, want).value;
    } else if |s.bytes| < want {
      WindowByIsAt(step, bytesOf, rest, s.end, s.end, want - |s.bytes|);
      w := WindowBy(step, rest, s.end, s.end, want - |s.bytes|).value;
    }
    StepThenRest(s, bytesOf(runs[0]), FlatMap(bytesOf, rest), start, pos, want, w);
  }

  /** Whatever succeeds is the requested slice of `Flat`. */
  lemma {:induction false} WindowIsSlice(disk: seq<byte>, cs: nat, runs: seq<Run>, start: nat, pos: nat, want: nat)
    requires want > 0 && start <= pos && Window(disk, cs, runs, start, pos, want).Ok?
    ensures pos - start + want <= Allocated(cs, runs)
    ensures Window(disk, cs, runs, start, pos, want).value ==
            Flat(disk, cs, runs)[pos - start..pos - start + want]
  {
    SteppingIsFaithful(disk, cs);
    WindowByIsAt(Stepping(disk, cs), BytesOf(disk, cs), runs, start, pos, want);
    FlatIsFlatMap(disk, cs, runs);
  }

  // ----- When it succeeds -----

  lemma WindowPieceOnDisk(disk: seq<byte>, cs: nat, r: Run, within: nat, take: nat)
    requires OnDisk(disk, cs, r) && |disk| <= U64_MAX && within + take <= r.length * cs
    ensures WindowPiece(disk, cs, r, within, take).Ok?
  {
    if r.lcn.Some? {
      assert (r.lcn.value + r.length) * cs == r.lcn.value * cs + r.length * cs;
    }
  }

  lemma StepRunOnDisk(disk: seq<byte>, cs: nat, r: Run, start: nat, pos: nat, want: nat)
    requires 0 < want && start <= pos
    requires OnDisk(disk, cs, r) && |disk| <= U64_MAX && start + |RunBytes(disk, cs, r)| <= U64_MAX
    ensures !StepRun(disk, cs, r, start, pos, want).Fail?
  {
    if pos < start + r.length * cs {
      WindowPieceOnDisk(disk, cs, r, pos - start, Min(r.length * cs - (pos - start), want));
    }
  }

  /** No step through these runs fails, short of an overflow. */
  ghost predicate NeverFails(step: StepFn, bytesOf: Run -> seq<byte>, runs: seq<Run>) {
    forall r, start: nat, pos: nat, want: nat {:trigger step(r, start, pos, want)} ::
      r in runs && 0 < want && start <= pos && start + |bytesOf(r)| <= U64_MAX ==> !step(r, start, pos, want).Fail?
  }

  lemma SteppingNeverFails(disk: seq<byte>, cs: nat, runs: seq<Run>)
    requires AllOnDisk(disk, cs, runs) && |disk| <= U64_MAX
    ensures NeverFails(Stepping(disk, cs), BytesOf(disk, cs), runs)
  {
    forall r, start: nat, pos: nat, want: nat
      | r in runs && 0 < want && start <= pos && start + |RunBytes(disk, cs, r)| <= U64_MAX
      ensures !StepRun(disk, cs, r, start, pos, want).Fail?
    {
      StepRunOnDisk(disk, cs, r, start, pos, want);
    }
  }

  lemma TailNeverFails(step: StepFn, bytesOf: Run -> seq<byte>, runs: seq<Run>)
    requires runs != [] && NeverFails(step, bytesOf, runs)
    ensures NeverFails(step, bytesOf, runs[1..])
  {
    assert forall r :: r in runs[1..] ==> r in runs;
  }

  lemma {:induction false} WindowBySucceeds(step: StepFn, bytesOf: Run -> seq<byte>, runs: seq<Run>, start: nat,
                                            pos: nat, want: nat)
    requires Faithful(step, bytesOf) && NeverFails(step, bytesOf, runs)
    requires start + |FlatMap(bytesOf, runs)| <= U64_MAX
    requires want > 0 ==> start <= pos && pos - start + want <= |FlatMap(bytesOf, runs)|
    ensures WindowBy(step, runs, start, pos, want).Ok?
    decreases runs
  {
    if want > 0 {
      var rest, s := runs[1..], step(runs[0], start, pos, want);
      assert runs[0] in runs;
      TailNeverFails(step, bytesOf, runs);
      if s.Before? {
        WindowBySucceeds(step, bytesOf, rest, s.end, pos, want);
      } else {
        WindowBySucceeds(step, bytesOf, rest, s.end, pos + |s.bytes|, Less(want, |s.bytes|));
      }
    }
  }

  lemma {:induction false} WindowByRunsOut(step: StepFn, bytesOf: Run -> seq<byte>, runs: seq<Run>, start: nat,
                                           pos: nat, want: nat)
    requires Faithful(step, bytesOf) && NeverFails(step, bytesOf, runs) && want > 0 && start <= pos
    requires start + |FlatMap(bytesOf, runs)| <= U64_MAX && pos - start + want > |FlatMap(bytesOf, runs)|
    ensures WindowBy(step, runs, start, pos, want) == Err(BadRunlist("read past end of runs"))
    decreases runs
  {
    if runs != [] {
      var rest, s := runs[1..], step(runs[0], start, pos, want);
      assert runs[0] in runs;
      TailNeverFails(step, bytesOf, runs);
      if s.Before? {
        WindowByRunsOut(step, bytesOf, rest, s.end, pos, want);
      } else {
        WindowByRunsOut(step, bytesOf, rest, s.end, pos + |s.bytes|, want - |s.bytes|);
      }
    }
  }

  lemma {:induction false} WindowRunsOut(disk: seq<byte>, cs: nat, runs: seq<Run>, pos: nat, want: nat)
    requires AllOnDisk(disk, cs, runs) && |disk| <= U64_MAX && Allocated(cs, runs) <= U64_MAX
    requires want > 0 && pos + want > Allocated(cs, runs)
    ensures Window(disk, cs, runs, 0, pos, want) == Err(BadRunlist("read past end of runs"))
  {
    SteppingIsFaithful(disk, cs);
    SteppingNeverFails(disk, cs, runs);
    FlatIsFlatMap(disk, cs, runs);
    WindowByRunsOut(Stepping(disk, cs), BytesOf(disk, cs), runs, 0, pos, want);
  }

  lemma {:induction false} WindowSucceeds(disk: seq<byte>, cs: nat, runs: seq<Run>, pos: nat, want: nat)
    requires AllOnDisk(disk, cs, runs) && |disk| <= U64_MAX && Allocated(cs, runs) <= U64_MAX
    requires pos + want <= Allocated(cs, runs)
    ensures Window(disk, cs, runs, 0, pos, want).Ok?
  {
    SteppingIsFaithful(disk, cs);
    SteppingNeverFails(disk, cs, runs);
    FlatIsFlatMap(disk, cs, runs);
    WindowBySucceeds(Stepping(disk, cs), BytesOf(disk, cs), runs, 0, pos, want);
  }

  /**
   With readable clusters and no overflow, a non-empty window is read exactly when it ends within
   the allocation, and is that slice of `Flat`, the bytes a sequential read would give.
   */
  lemma {:induction false} ReadVirtualMeaning(disk: seq<byte>, cs: nat, runs: seq<Run>, offset: u64, len: u64)
    requires AllOnDisk(disk, cs, runs) && |disk| <= U64_MAX && Allocated(cs, runs) <= U64_MAX && len > 0
    ensures Window(disk, cs, runs, 0, offset, len) ==
            if offset + len <= Allocated(cs, runs) then Ok(Flat(disk, cs, runs)[offset..offset + len])
            else Err(BadRunlist("read past end of runs"))
  {
    if offset + len <= Allocated(cs, runs) {
      WindowSucceeds(disk, cs, runs, offset, len);
      WindowIsSlice(disk, cs, runs, 0, offset, len);
    } else {
      WindowRunsOut(disk, cs, runs, offset, len);
    }
  }

  /** The two readers agree: a window inside a successful sequential read is a slice of it. */
  lemma WindowOfSequentialRead(disk: seq<byte>, cs: nat, runs: seq<Run>, realSize: u64, maxBytes: u64, offset: u64,
                               len: u64)
    requires ReadRuns(disk, cs, runs, realSize, maxBytes).Ok? && len > 0
    requires Window(disk, cs, runs, 0, offset, len).Ok?
    requires offset + len <= |ReadRuns(disk, cs, runs, realSize, maxBytes).value|
    ensures Window(disk, cs, runs, 0, offset, len).value ==
            ReadRuns(disk, cs, runs, realSize, maxBytes).value[offset..offset + len]
  {
    ReadRunsIsPrefix(disk, cs, runs, realSize, maxBytes);
    WindowIsSlice(disk, cs, runs, 0, offset, len);
    SliceOfShorter(ReadRuns(disk, cs, runs, realSize, maxBytes).value, Flat(disk, cs, runs), offset, len);
  }

  lemma {:induction false} ReadRunsIsPrefix(disk: seq<byte>, cs: nat, runs: seq<Run>, realSize: u64, maxBytes: u64)
    requires ReadRuns(disk, cs, runs, realSize, maxBytes).Ok?
    ensures ReadRuns(disk, cs, runs, realSize, maxBytes).value <= Flat(disk, cs, runs)
  {
    ReadRunsMeaning(disk, cs, runs, realSize, maxBytes);
  }

  lemma SliceOfShorter(short: seq<byte>, long: seq<byte>, offset: nat, len: nat)
    requires short <= long && offset + len <= |short|
    ensures short[offset..offset + len] == long[offset..offset + len]
  {
    SliceOfSlice(long, 0, |short|, offset, offset + len);
  }
}
