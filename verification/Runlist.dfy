/** Data-run decoding (core/src/runlist.rs), its soundness, and the encoding it inverts. */
module Runlist {
  import opened Wrappers
  import opened Bytes
  import opened Sequences
  import opened Bits
  import opened Errors
  import opened Clusters

  const MAX_RUNS: nat := 0x10_0000
  const I64_LIMIT: nat := 0x8000_0000_0000_0000

  /** The two's complement value of an `n`-byte pattern. */
  function Signed(v: nat, n: nat): int
    requires n > 0
  {
    if v < Pow2(8 * n - 1) then v else v - Pow2(8 * n)
  }

  /** `read_uint`: the loop ORs shifted bytes together. */
  method ReadUint(bytes: seq<byte>, pos: nat, n: nat) returns (r: Option<nat>)
    ensures r == if pos + n <= |bytes| then Some(LeValue(bytes[pos..pos + n])) else None
  {
    if pos + n > |bytes| {
      return None;
    }
    var slice := bytes[pos..pos + n];
    var v := 0;
    for i := 0 to n
      invariant v == LeValue(slice[..i])
    {
      UintStep(slice, i);
      v := Or(v, slice[i] * Pow2(8 * i));
    }
    assert slice[..n] == slice;
    r := Some(v);
  }

  lemma UintStep(s: seq<byte>, i: nat)
    requires i < |s|
    ensures Or(LeValue(s[..i]), s[i] * Pow2(8 * i)) == LeValue(s[..i + 1])
  {
    LeValueBound(s[..i]);
    OrDisjoint(LeValue(s[..i]), s[i], 8 * i);
    LeValueSnoc(s[..i], s[i]);
    assert s[..i + 1] == s[..i] + [s[i]];
  }

  /** A 64-bit pattern read as `i64`. */
  function AsI64(v: nat): int {
    if v < I64_LIMIT then v else v - 0x1_0000_0000_0000_0000
  }

  /** `read_sint`: the same loop, then the high bits are ORed in when the sign bit is set. */
  method ReadSint(bytes: seq<byte>, pos: nat, n: nat) returns (r: Option<int>)
    requires 1 <= n <= 8
    ensures r == if pos + n <= |bytes| then Some(Signed(LeValue(bytes[pos..pos + n]), n)) else None
  {
    var u := ReadUint(bytes, pos, n);
    if u.None? {
      return None;
    }
    var v, bits := u.value, 8 * n;
    LeValueBound(bytes[pos..pos + n]);
    Pow2Of64();
    if bits < 64 {
      SignExtends(v, n);
      if And(v, Pow2(bits - 1)) != 0 {
        v := Or(v, Pow2(64) - Pow2(bits));
      }
    }
    r := Some(AsI64(v));
  }

  lemma SignExtends(v: nat, n: nat)
    requires 1 <= n < 8 && v < Pow2(8 * n)
    ensures Pow2(8 * n) <= Pow2(64)
    ensures And(v, Pow2(8 * n - 1)) != 0 <==> v >= Pow2(8 * n - 1)
    ensures v >= Pow2(8 * n - 1) ==> AsI64(Or(v, Pow2(64) - Pow2(8 * n))) == Signed(v, n)
    ensures v < Pow2(8 * n - 1) ==> AsI64(v) == Signed(v, n)
  {
    Pow2Of64();
    Pow2Monotone(8 * n, 63);
    Pow2Monotone(8 * n, 64);
    AndTopBit(v, 8 * n - 1);
    HighBitsAdd(v, 8 * n, 64);
  }

  lemma HighBitsAdd(v: nat, k: nat, n: nat)
    requires k <= n && v < Pow2(k) <= Pow2(n)
    ensures Or(v, Pow2(n) - Pow2(k)) == v + (Pow2(n) - Pow2(k))
  {
    HighBits(k, n);
    OrDisjoint(v, Pow2(n - k) - 1, k);
  }

  lemma HighBits(k: nat, n: nat)
    requires k <= n
    ensures Pow2(n) - Pow2(k) == (Pow2(n - k) - 1) * Pow2(k)
  {
    Pow2Sum(n - k, k);
  }

  // ----- Decoding -----

  /** What stands at `pos`: the end of the list, an error, or one run. */
  datatype Piece = End | Bad(detail: string) | Got(run: Run, next: nat, lcn: int)

  function UintAt(bytes: seq<byte>, pos: nat, n: nat): Option<nat> {
    if pos + n <= |bytes| then Some(LeValue(bytes[pos..pos + n])) else None
  }

  lemma UintIsU64(bytes: seq<byte>, pos: nat, n: nat)
    requires n <= 8 && UintAt(bytes, pos, n).Some?
    ensures UintAt(bytes, pos, n).value <= U64_MAX
  {
    LeValueBound(bytes[pos..pos + n]);
    Pow2Monotone(8 * n, 64);
    Pow2Of64();
  }

  /** The LCN part of a run whose length is known. */
  function Located(bytes: seq<byte>, pos: nat, offBytes: nat, lcn: int, length: u64): Piece {
    if offBytes == 0 then Got(Run(length, None), pos, lcn)
    else if pos + offBytes > |bytes| then Bad("offset runs past end")
    else
      var there := lcn + Signed(LeValue(bytes[pos..pos + offBytes]), offBytes);
      if !(0 - I64_LIMIT <= there < I64_LIMIT) then Bad("LCN overflow")
      else if there < 0 then Bad("negative LCN")
      else Got(Run(length, Some(there)), pos + offBytes, there)
  }

  function PieceAt(bytes: seq<byte>, pos: nat, lcn: int): Piece {
    if pos >= |bytes| || bytes[pos] == 0 then End
    else
      var lenBytes, offBytes := bytes[pos] % 16, bytes[pos] / 16;
      if lenBytes == 0 || lenBytes > 8 then Bad("invalid run length field width")
      else if offBytes > 8 then Bad("invalid run offset field width")
      else match UintAt(bytes, pos + 1, lenBytes)
        case None => Bad("length runs past end")
        case Some(length) =>
          UintIsU64(bytes, pos + 1, lenBytes);
          if length == 0 then Bad("zero-length run") else Located(bytes, pos + 1 + lenBytes, offBytes, lcn, length)
  }

  function Pieces(bytes: seq<byte>): (nat, int) -> Piece {
    (pos: nat, lcn: int) => PieceAt(bytes, pos, lcn)
  }

  /** The loop, for any account of what stands where. */
  function DecodeBy(at: (nat, int) -> Piece, pos: nat, lcn: int, budget: nat): Result<seq<Run>, NtfsError>
    decreases budget
  {
    if budget == 0 then Ok([])
    else match at(pos, lcn)
      case End => Ok([])
      case Bad(detail) => Err(BadRunlist(detail))
      case Got(run, next, there) => Prepend([run], DecodeBy(at, next, there, budget - 1))
  }

  function DecodeFrom(bytes: seq<byte>, pos: nat, lcn: int, budget: nat): Result<seq<Run>, NtfsError> {
    DecodeBy(Pieces(bytes), pos, lcn, budget)
  }

  method DecodePiece(bytes: seq<byte>, pos: nat, lcn: int) returns (p: Piece)
    ensures p == PieceAt(bytes, pos, lcn)
  {
    if pos >= |bytes| {
      return End;
    }
    var header := bytes[pos];
    if header == 0 {
      return End;
    }
    var lenBytes, offBytes := header % 16, header / 16;
    if lenBytes == 0 || lenBytes > 8 {
      return Bad("invalid run length field width");
    }
    if offBytes > 8 {
      return Bad("invalid run offset field width");
    }
    var length := ReadUint(bytes, pos + 1, lenBytes);
    if length.None? {
      return Bad("length runs past end");
    }
    UintIsU64(bytes, pos + 1, lenBytes);
    if length.value == 0 {
      return Bad("zero-length run");
    }
    p := LocateRun(bytes, pos + 1 + lenBytes, offBytes, lcn, length.value);
  }

  /** The second half of the loop body: where the run lies. */
  method LocateRun(bytes: seq<byte>, pos: nat, offBytes: nat, lcn: int, length: u64) returns (p: Piece)
    requires offBytes <= 8
    ensures p == Located(bytes, pos, offBytes, lcn, length)
  {
    if offBytes == 0 {
      return Got(Run(length, None), pos, lcn);
    }
    var delta := ReadSint(bytes, pos, offBytes);
    if delta.None? {
      return Bad("offset runs past end");
    }
    var there := lcn + delta.value;
    if !(0 - I64_LIMIT <= there < I64_LIMIT) {
      return Bad("LCN overflow");
    }
    if there < 0 {
      return Bad("negative LCN");
    }
    p := Got(Run(length, Some(there)), pos + offBytes, there);
  }

  /** `decode`. */
  method Decode(bytes: seq<byte>) returns (r: Result<seq<Run>, NtfsError>)
    ensures r == DecodeFrom(bytes, 0, 0, MAX_RUNS)
  {
    var runs: seq<Run> := [];
    var pos, currentLcn: int := 0, 0;
    ghost var goal := DecodeFrom(bytes, 0, 0, MAX_RUNS);
    assert goal.Ok? ==> [] + goal.value == goal.value;
    for i := 0 to MAX_RUNS
      invariant 0 <= pos
      invariant goal == Prepend(runs, DecodeFrom(bytes, pos, currentLcn, MAX_RUNS - i))
    {
      var piece := DecodePiece(bytes, pos, currentLcn);
      match piece {
        case End =>
          break;
        case Bad(detail) =>
          return Err(BadRunlist(detail));
        case Got(run, next, there) =>
          PrependTwice(runs, [run], DecodeFrom(bytes, next, there, MAX_RUNS - i - 1));
          runs := runs + [run];
          pos := next;
          currentLcn := there;
      }
    }
    assert runs + [] == runs;
    r := Ok(runs);
  }

  /** `total_clusters`: the checked sum of the lengths. */
  method CheckedTotal(runs: seq<Run>) returns (r: Result<nat, NtfsError>)
    ensures TotalClusters(runs) <= U64_MAX ==> r == Ok(TotalClusters(runs))
    ensures TotalClusters(runs) > U64_MAX ==> r == Err(BadRunlist("total cluster count overflow"))
  {
    var total := 0;
    assert runs[0..] == runs;
    for i := 0 to |runs|
      invariant 0 <= total <= U64_MAX
      invariant total + TotalClusters(runs[i..]) == TotalClusters(runs)
    {
      assert runs[i..][0] == runs[i] && runs[i..][1..] == runs[i + 1..];
      if total + runs[i].length > U64_MAX {
        return Err(BadRunlist("total cluster count overflow"));
      }
      total := total + runs[i].length;
    }
    r := Ok(total);
  }

  /** A run no decoder should ever let past. */
  predicate SoundRun(r: Run) {
    0 < r.length && (r.lcn.Some? ==> r.lcn.value < I64_LIMIT)
  }

  /** Crafted bytes cannot yield an empty run, a wild cluster number or an unbounded list. */
  lemma DecodedIsSound(bytes: seq<byte>, pos: nat, lcn: int, budget: nat)
    requires DecodeFrom(bytes, pos, lcn, budget).Ok?
    ensures |DecodeFrom(bytes, pos, lcn, budget).value| <= budget
    ensures forall i :: 0 <= i < |DecodeFrom(bytes, pos, lcn, budget).value| ==>
              SoundRun(DecodeFrom(bytes, pos, lcn, budget).value[i])
    decreases budget
  {
    if budget > 0 {
      match PieceAt(bytes, pos, lcn)
      case End =>
      case Got(run, next, there) =>
        assert SoundRun(run);
        DecodedIsSound(bytes, next, there, budget - 1);
    }
  }

  // ----- Encoding -----

  /** Field widths chosen for a run, in bytes. */
  datatype Widths = Widths(length: nat, offset: nat)

  function SintBytes(d: int, n: nat): seq<byte>
    requires n > 0 && 0 - Pow2(8 * n - 1) <= d < Pow2(8 * n - 1)
  {
    UintBytes(if d < 0 then d + Pow2(8 * n) else d, n)
  }

  lemma {:induction false} SintBytesValue(d: int, n: nat)
    requires n > 0 && 0 - Pow2(8 * n - 1) <= d < Pow2(8 * n - 1)
    ensures Signed(LeValue(SintBytes(d, n)), n) == d
  {
    assert Pow2(8 * n) == 2 * Pow2(8 * n - 1);
    UintBytesValue(if d < 0 then d + Pow2(8 * n) else d, n);
  }

  /** The widths are wide enough for the run, whose LCN is stored relative to `prev`. */
  predicate Fits(r: Run, prev: int, w: Widths) {
    && SoundRun(r)
    && 1 <= w.length <= 8 && r.length < Pow2(8 * w.length)
    && match r.lcn
       case None => w.offset == 0
       case Some(l) => 1 <= w.offset <= 8 && 0 - Pow2(8 * w.offset - 1) <= l - prev < Pow2(8 * w.offset - 1)
  }

  function NextLcn(r: Run, prev: int): int {
    match r.lcn case None => prev case Some(l) => l
  }

  function EncodeRun(r: Run, prev: int, w: Widths): seq<byte>
    requires Fits(r, prev, w)
  {
    [w.offset * 16 + w.length] + (UintBytes(r.length, w.length) + OffsetField(r, prev, w))
  }

  predicate AllFit(runs: seq<Run>, prev: int, widths: seq<Widths>) {
    |widths| == |runs| &&
    (runs == [] || (Fits(runs[0], prev, widths[0]) && AllFit(runs[1..], NextLcn(runs[0], prev), widths[1..])))
  }

  function Encode(runs: seq<Run>, prev: int, widths: seq<Widths>): seq<byte>
    requires AllFit(runs, prev, widths)
  {
    if runs == [] then []
    else EncodeRun(runs[0], prev, widths[0]) + Encode(runs[1..], NextLcn(runs[0], prev), widths[1..])
  }

  function OffsetField(r: Run, prev: int, w: Widths): seq<byte>
    requires Fits(r, prev, w)
  {
    match r.lcn case None => [] case Some(l) => SintBytes(l - prev, w.offset)
  }

  /** The fields of a run as they stand in its encoding. */
  ghost predicate Spells(r: Run, prev: int, w: Widths, length: seq<byte>, offset: seq<byte>) {
    && 1 <= w.length <= 8 && w.offset <= 8 && |length| == w.length && |offset| == w.offset
    && LeValue(length) == r.length && SoundRun(r)
    && match r.lcn
       case None => w.offset == 0
       case Some(l) => w.offset > 0 && Signed(LeValue(offset), w.offset) == l - prev
  }

  lemma EncodedFieldsSpell(r: Run, prev: int, w: Widths)
    requires Fits(r, prev, w)
    ensures Spells(r, prev, w, UintBytes(r.length, w.length), OffsetField(r, prev, w))
  {
    UintBytesValue(r.length, w.length);
    if r.lcn.Some? {
      SintBytesValue(r.lcn.value - prev, w.offset);
    }
  }

  lemma LocatedInPlace(bytes: seq<byte>, pos: nat, r: Run, prev: int, w: Widths, length: seq<byte>, offset: seq<byte>,
                       rest: seq<byte>)
    requires Spells(r, prev, w, length, offset) && 0 <= prev < I64_LIMIT
    requires pos <= |bytes| && bytes[pos..] == offset + rest
    ensures pos + w.offset <= |bytes| && bytes[pos + w.offset..] == rest
    ensures Located(bytes, pos, w.offset, prev, r.length) == Got(r, pos + w.offset, NextLcn(r, prev))
  {
    SplitInPlace(bytes, pos, offset, rest);
  }

  lemma HeaderAndField(bytes: seq<byte>, pos: nat, header: byte, length: seq<byte>, rest: seq<byte>)
    requires pos <= |bytes| && bytes[pos..] == [header] + (length + rest)
    ensures pos + 1 + |length| <= |bytes| && bytes[pos] == header
    ensures bytes[pos + 1..pos + 1 + |length|] == length && bytes[pos + 1 + |length|..] == rest
  {
    assert bytes[pos] == bytes[pos..][0];
    var one: seq<byte> := [header];
    SplitInPlace(bytes, pos, one, length + rest);
    SplitInPlace(bytes, pos + 1, length, rest);
  }

  /** A run decodes from its fields in place. */
  lemma FieldsInPlace(bytes: seq<byte>, pos: nat, r: Run, prev: int, w: Widths, length: seq<byte>, offset: seq<byte>,
                      rest: seq<byte>)
    requires Spells(r, prev, w, length, offset) && 0 <= prev < I64_LIMIT
    requires pos <= |bytes| && bytes[pos..] == [w.offset * 16 + w.length] + (length + (offset + rest))
    ensures
      var next := pos + 1 + w.length + w.offset;
      && next <= |bytes| && bytes[next..] == rest
      && PieceAt(bytes, pos, prev) == Got(r, next, NextLcn(r, prev))
  {
    HeaderAndField(bytes, pos, w.offset * 16 + w.length, length, offset + rest);
    var at := pos + 1 + w.length;
    LocatedInPlace(bytes, at, r, prev, w, length, offset, rest);
    PieceFromFields(bytes, pos, prev, w.length, w.offset, r.length);
  }

  /** One encoded run in place decodes to itself. */
  lemma EncodedRunInPlace(bytes: seq<byte>, pos: nat, r: Run, prev: int, w: Widths, rest: seq<byte>)
    requires Fits(r, prev, w) && 0 <= prev < I64_LIMIT
    requires pos <= |bytes| && bytes[pos..] == EncodeRun(r, prev, w) + rest
    ensures
      var next := pos + 1 + w.length + w.offset;
      && next <= |bytes| && bytes[next..] == rest
      && PieceAt(bytes, pos, prev) == Got(r, next, NextLcn(r, prev))
  {
    var header: seq<byte> := [w.offset * 16 + w.length];
    var length, offset := UintBytes(r.length, w.length), OffsetField(r, prev, w);
    Reassociate(header, length + offset, rest);
    Reassociate(length, offset, rest);
    EncodedFieldsSpell(r, prev, w);
    FieldsInPlace(bytes, pos, r, prev, w, length, offset, rest);
  }

  lemma PieceFromFields(bytes: seq<byte>, pos: nat, lcn: int, lenBytes: nat, offBytes: nat, length: u64)
    requires 1 <= lenBytes <= 8 && offBytes <= 8 && 0 < length
    requires pos < |bytes| && bytes[pos] == offBytes * 16 + lenBytes
    requires UintAt(bytes, pos + 1, lenBytes) == Some(length)
    ensures PieceAt(bytes, pos, lcn) == Located(bytes, pos + 1 + lenBytes, offBytes, lcn, length)
  {
    assert bytes[pos] % 16 == lenBytes && bytes[pos] / 16 == offBytes;
  }

  lemma {:induction false} EncodeUnfolds(runs: seq<Run>, prev: int, widths: seq<Widths>, tail: seq<byte>)
    requires AllFit(runs, prev, widths) && runs != []
    ensures Fits(runs[0], prev, widths[0]) && AllFit(runs[1..], NextLcn(runs[0], prev), widths[1..])
    ensures Encode(runs, prev, widths) + tail ==
            EncodeRun(runs[0], prev, widths[0]) + (Encode(runs[1..], NextLcn(runs[0], prev), widths[1..]) + tail)
  {
    Reassociate(EncodeRun(runs[0], prev, widths[0]), Encode(runs[1..], NextLcn(runs[0], prev), widths[1..]), tail);
  }

  lemma FirstRunInPlace(bytes: seq<byte>, pos: nat, runs: seq<Run>, prev: int, widths: seq<Widths>, tail: seq<byte>)
    returns (next: nat)
    requires AllFit(runs, prev, widths) && runs != [] && 0 <= prev < I64_LIMIT
    requires pos <= |bytes| && bytes[pos..] == Encode(runs, prev, widths) + tail
    ensures next <= |bytes| && PieceAt(bytes, pos, prev) == Got(runs[0], next, NextLcn(runs[0], prev))
    ensures 0 <= NextLcn(runs[0], prev) < I64_LIMIT
    ensures AllFit(runs[1..], NextLcn(runs[0], prev), widths[1..])
    ensures bytes[next..] == Encode(runs[1..], NextLcn(runs[0], prev), widths[1..]) + tail
  {
    EncodeUnfolds(runs, prev, widths, tail);
    var w := widths[0];
    var later := Encode(runs[1..], NextLcn(runs[0], prev), widths[1..]);
    EncodedRunInPlace(bytes, pos, runs[0], prev, w, later + tail);
    next := pos + 1 + w.length + w.offset;
  }

  /** The list stops before `tail`: at its end, at a terminator, or at the limit. */
  predicate StopsBefore(tail: seq<byte>, count: nat, budget: nat) {
    count <= budget && (tail == [] || tail[0] == 0 || count == budget)
  }

  function LastLcn(runs: seq<Run>, prev: int): int {
    if runs == [] then prev else LastLcn(runs[1..], NextLcn(runs[0], prev))
  }

  /** From `pos` on the runs stand one behind the other, up to `end`. */
  ghost predicate Leads(at: (nat, int) -> Piece, pos: nat, lcn: int, runs: seq<Run>, end: nat)
    decreases |runs|
  {
    if runs == [] then pos == end
    else
      var p := at(pos, lcn);
      p.Got? && p.run == runs[0] && p.lcn == NextLcn(runs[0], lcn) && Leads(at, p.next, p.lcn, runs[1..], end)
  }

  /** The decoder gets past such runs and goes on behind them. */
  lemma LeadsDecodes(at: (nat, int) -> Piece, pos: nat, lcn: int, runs: seq<Run>, end: nat, budget: nat)
    requires Leads(at, pos, lcn, runs, end) && |runs| <= budget
    ensures DecodeBy(at, pos, lcn, budget) == Prepend(runs, DecodeBy(at, end, LastLcn(runs, lcn), budget - |runs|))
    decreases |runs|
  {
    if runs == [] {
      PrependNothing(DecodeBy(at, pos, lcn, budget));
    } else {
      var p := at(pos, lcn);
      LeadsDecodes(at, p.next, p.lcn, runs[1..], end, budget - 1);
      assert [runs[0]] + runs[1..] == runs;
      PrependTwice([runs[0]], runs[1..], DecodeBy(at, end, LastLcn(runs, lcn), budget - |runs|));
    }
  }

  lemma {:induction false} EncodedLeads(bytes: seq<byte>, pos: nat, runs: seq<Run>, prev: int, widths: seq<Widths>,
                                        tail: seq<byte>, at: (nat, int) -> Piece, end: nat)
    requires AllFit(runs, prev, widths) && 0 <= prev < I64_LIMIT && at == Pieces(bytes) && end + |tail| == |bytes|
    requires pos <= |bytes| && bytes[pos..] == Encode(runs, prev, widths) + tail
    ensures Leads(at, pos, prev, runs, end)
    decreases |runs|
  {
    if runs == [] {
      assert |bytes[pos..]| == |tail|;
    } else {
      var next := FirstRunInPlace(bytes, pos, runs, prev, widths, tail);
      EncodedLeads(bytes, next, runs[1..], NextLcn(runs[0], prev), widths[1..], tail, at, end);
      assert at(pos, prev) == Got(runs[0], next, NextLcn(runs[0], prev));
    }
  }

  lemma WholeInPlace(a: seq<byte>, b: seq<byte>)
    ensures (a + b)[0..] == a + b && |a| + |b| == |a + b|
  {
  }

  lemma NothingMore(front: seq<byte>, tail: seq<byte>, lcn: int, count: nat, budget: nat)
    requires StopsBefore(tail, count, budget)
    ensures DecodeFrom(front + tail, |front|, lcn, budget - count) == Ok([])
  {
    if tail != [] {
      assert (front + tail)[|front|] == tail[0];
    }
    assert count < budget ==> Pieces(front + tail)(|front|, lcn) == End;
  }

  lemma {:induction false} LeadsToNothing(at: (nat, int) -> Piece, runs: seq<Run>, end: nat, budget: nat)
    requires Leads(at, 0, 0, runs, end) && |runs| <= budget
    requires DecodeBy(at, end, LastLcn(runs, 0), budget - |runs|) == Ok([])
    ensures DecodeBy(at, 0, 0, budget) == Ok(runs)
  {
    LeadsDecodes(at, 0, 0, runs, end, budget);
    assert runs + [] == runs;
  }

  lemma {:induction false} EncodingDecodes(runs: seq<Run>, widths: seq<Widths>, budget: nat, tail: seq<byte>)
    requires AllFit(runs, 0, widths) && StopsBefore(tail, |runs|, budget)
    ensures DecodeFrom(Encode(runs, 0, widths) + tail, 0, 0, budget) == Ok(runs)
  {
    var front := Encode(runs, 0, widths);
    WholeInPlace(front, tail);
    EncodedLeads(front + tail, 0, runs, 0, widths, tail, Pieces(front + tail), |front|);
    NothingMore(front, tail, LastLcn(runs, 0), |runs|, budget);
    LeadsToNothing(Pieces(front + tail), runs, |front|, budget);
  }

  /** Encoding with any sufficient widths, a terminator and arbitrary bytes behind it decodes back. */
  lemma {:induction false} RunlistRoundTrip(runs: seq<Run>, widths: seq<Widths>, junk: seq<byte>)
    requires AllFit(runs, 0, widths) && |runs| <= MAX_RUNS
    ensures DecodeFrom(Encode(runs, 0, widths) + [0] + junk, 0, 0, MAX_RUNS) == Ok(runs)
  {
    Reassociate(Encode(runs, 0, widths), [0], junk);
    EncodingDecodes(runs, widths, MAX_RUNS, [0] + junk);
  }

  // ----- Nothing else decodes -----

  lemma {:induction false} SignedBytes(s: seq<byte>)
    requires s != []
    ensures
      var n, d := |s|, Signed(LeValue(s), |s|);
      0 - Pow2(8 * n - 1) <= d < Pow2(8 * n - 1) && SintBytes(d, n) == s
  {
    LeValueBound(s);
    assert Pow2(8 * |s|) == 2 * Pow2(8 * |s| - 1);
    ValueBytes(s);
  }

  lemma {:induction false} OffsetIsSpelled(s: seq<byte>, there: int, lcn: int)
    requires s != [] && there == lcn + Signed(LeValue(s), |s|)
    ensures 0 - Pow2(8 * |s| - 1) <= there - lcn < Pow2(8 * |s| - 1) && SintBytes(there - lcn, |s|) == s
  {
    SignedBytes(s);
  }

  lemma {:induction false} LengthIsSpelled(s: seq<byte>)
    ensures LeValue(s) < Pow2(8 * |s|) && UintBytes(LeValue(s), |s|) == s
  {
    LeValueBound(s);
    ValueBytes(s);
  }

  /** A located run, its length field `length` standing in front of `pos`, is one that fits. */
  lemma {:induction false} LocatedIsSpelled(bytes: seq<byte>, pos: nat, w: Widths, lcn: int, length: seq<byte>,
                                            run: Run, next: nat, there: int)
    requires 1 <= w.length <= 8 && w.offset <= 8 && pos <= |bytes|
    requires |length| == w.length && 0 < LeValue(length) <= U64_MAX
    requires Located(bytes, pos, w.offset, lcn, LeValue(length)) == Got(run, next, there)
    ensures Fits(run, lcn, w) && there == NextLcn(run, lcn) && next == pos + w.offset <= |bytes|
    ensures UintBytes(run.length, w.length) == length && OffsetField(run, lcn, w) == bytes[pos..next]
  {
    LengthIsSpelled(length);
    if w.offset == 0 {
      assert bytes[pos..next] == [];
    } else {
      OffsetIsSpelled(bytes[pos..pos + w.offset], run.lcn.value, lcn);
    }
  }

  lemma PieceIsEncoded(bytes: seq<byte>, pos: nat, lcn: int, run: Run, next: nat, there: int) returns (w: Widths)
    requires PieceAt(bytes, pos, lcn) == Got(run, next, there)
    ensures Fits(run, lcn, w) && there == NextLcn(run, lcn) && pos < next <= |bytes|
    ensures bytes[pos..] == EncodeRun(run, lcn, w) + bytes[next..]
  {
    w := Widths(bytes[pos] % 16, bytes[pos] / 16);
    var at := pos + 1 + w.length;
    UintIsU64(bytes, pos + 1, w.length);
    LocatedIsSpelled(bytes, at, w, lcn, bytes[pos + 1..at], run, next, there);
    ThreeParts(bytes, pos, at, next);
  }

  lemma ThreeParts(bytes: seq<byte>, pos: nat, at: nat, next: nat)
    requires pos < at <= next <= |bytes|
    ensures bytes[pos..] == [bytes[pos]] + (bytes[pos + 1..at] + bytes[at..next]) + bytes[next..]
  {
  }

  lemma DecodedIsEncoding(bytes: seq<byte>, pos: nat, lcn: int, budget: nat)
    returns (widths: seq<Widths>, tail: seq<byte>)
    requires pos <= |bytes| && DecodeFrom(bytes, pos, lcn, budget).Ok?
    ensures
      var runs := DecodeFrom(bytes, pos, lcn, budget).value;
      && StopsBefore(tail, |runs|, budget) && AllFit(runs, lcn, widths)
      && bytes[pos..] == Encode(runs, lcn, widths) + tail
    decreases budget
  {
    if budget == 0 || PieceAt(bytes, pos, lcn).End? {
      widths, tail := [], bytes[pos..];
      assert bytes[pos..] == [] + tail;
    } else {
      var p := PieceAt(bytes, pos, lcn);
      var w := PieceIsEncoded(bytes, pos, lcn, p.run, p.next, p.lcn);
      widths, tail := DecodedIsEncoding(bytes, p.next, p.lcn, budget - 1);
      var later := DecodeFrom(bytes, p.next, p.lcn, budget - 1).value;
      widths := OneMoreEncoded(bytes, pos, lcn, p.run, w, p.next, later, widths, tail);
    }
  }

  lemma OneMoreEncoded(bytes: seq<byte>, pos: nat, lcn: int, run: Run, w: Widths, next: nat, runs: seq<Run>,
                       ws: seq<Widths>, tail: seq<byte>)
    returns (widths: seq<Widths>)
    requires pos < next <= |bytes| && Fits(run, lcn, w) && bytes[pos..] == EncodeRun(run, lcn, w) + bytes[next..]
    requires AllFit(runs, NextLcn(run, lcn), ws) && bytes[next..] == Encode(runs, NextLcn(run, lcn), ws) + tail
    ensures AllFit([run] + runs, lcn, widths) && bytes[pos..] == Encode([run] + runs, lcn, widths) + tail
  {
    widths := [w] + ws;
    EncodeOneMore(run, lcn, w, runs, ws, tail);
  }

  lemma {:induction false} EncodeOneMore(run: Run, lcn: int, w: Widths, runs: seq<Run>, ws: seq<Widths>,
                                         tail: seq<byte>)
    requires Fits(run, lcn, w) && AllFit(runs, NextLcn(run, lcn), ws)
    ensures AllFit([run] + runs, lcn, [w] + ws)
    ensures Encode([run] + runs, lcn, [w] + ws) + tail ==
            EncodeRun(run, lcn, w) + (Encode(runs, NextLcn(run, lcn), ws) + tail)
  {
    assert ([run] + runs)[1..] == runs && ([w] + ws)[1..] == ws;
    Reassociate(EncodeRun(run, lcn, w), Encode(runs, NextLcn(run, lcn), ws), tail);
  }

  /** The bytes are an encoding of the runs, up to where the list stops. */
  ghost predicate IsEncoding(bytes: seq<byte>, runs: seq<Run>, widths: seq<Widths>, tail: seq<byte>) {
    AllFit(runs, 0, widths) && StopsBefore(tail, |runs|, 0x10_0000) && bytes == Encode(runs, 0, widths) + tail
  }

  /** Exactly the encodings of a list decode to it: with a terminator, without one, or 2^20 runs long. */
  lemma DecodesIff(bytes: seq<byte>, runs: seq<Run>)
    ensures DecodeFrom(bytes, 0, 0, MAX_RUNS) == Ok(runs) <==>
            exists widths, tail :: IsEncoding(bytes, runs, widths, tail)
  {
    assert bytes[0..] == bytes;
    if DecodeFrom(bytes, 0, 0, MAX_RUNS) == Ok(runs) {
      var widths, tail := DecodedIsEncoding(bytes, 0, 0, MAX_RUNS);
      assert IsEncoding(bytes, runs, widths, tail);
    }
    if widths, tail :| IsEncoding(bytes, runs, widths, tail) {
      EncodingDecodes(runs, widths, MAX_RUNS, tail);
    }
  }

  /** Eight bytes are always enough, so every sound list has an encoding. */
  lemma EightBytesSuffice(runs: seq<Run>, prev: int) returns (widths: seq<Widths>)
    requires 0 <= prev < I64_LIMIT && forall i :: 0 <= i < |runs| ==> SoundRun(runs[i])
    ensures AllFit(runs, prev, widths)
    decreases |runs|
  {
    Pow2Of64();
    if runs == [] {
      widths := [];
    } else {
      assert SoundRun(runs[0]);
      var rest := EightBytesSuffice(runs[1..], NextLcn(runs[0], prev));
      widths := [Widths(8, if runs[0].lcn.None? then 0 else 8)] + rest;
      assert widths[1..] == rest;
    }
  }
}
