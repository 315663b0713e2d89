/** Carving USN records out of raw bytes (core/src/usn/carver.rs). */
module UsnCarver {
  import opened Wrappers
  import opened Bytes
  import opened Bits
  import opened Layout
  import opened StreamScan
  import opened UsnReader
  import opened UsnJournal
  import opened GridScan

  const V2_MIN_SIZE: nat := 0x3C
  const V3_MIN_SIZE: nat := 0x4C
  const FILETIME_2000: int := 125_911_584_000_000_000
  const FILETIME_2030: int := 135_379_776_000_000_000

  datatype CarvedRecord<R> = CarvedRecord(offset: nat, record: R)

  datatype CarvingStats = CarvingStats(
    bytesScanned: nat, candidatesExamined: nat, recordsCarved: nat,
    rejectedTimestamp: nat, rejectedStructure: nat)

  /** Where a record version keeps the fields the carver looks at. */
  datatype Fields = Fields(minSize: nat, nameLength: nat, nameOffset: nat, nameStart: nat, timestamp: nat)

  const V2_FIELDS := Fields(V2_MIN_SIZE, 0x38, 0x3A, 0x3C, 0x20)
  const V3_FIELDS := Fields(V3_MIN_SIZE, 0x48, 0x4A, 0x4C, 0x30)

  function LeI64(data: seq<byte>, offset: nat): int {
    var v := LeU64(data, offset);
    if v < 0x8000_0000_0000_0000 then v else v - 0x1_0000_0000_0000_0000
  }

  datatype Verdict<R> = Accepted(record: R) | BadTimestamp | BadStructure

  predicate NameFits(d: seq<byte>, f: Fields) {
    var nameLength := LeU16(d, f.nameLength);
    && LeU16(d, f.nameOffset) == f.nameStart
    && f.nameStart + nameLength <= |d|
    && nameLength != 0 && nameLength % 2 == 0
  }

  /** The filter a candidate record has to pass. */
  function Judge<R>(d: seq<byte>, f: Fields, parse: seq<byte> -> Option<R>): Verdict<R> {
    if !NameFits(d, f) then BadStructure
    else if !(FILETIME_2000 <= LeI64(d, f.timestamp) <= FILETIME_2030) then BadTimestamp
    else match parse(d)
      case Some(r) => Accepted(r)
      case None => BadStructure
  }

  /** `try_carve_v2` and `try_carve_v3`, which differ in their field offsets only. */
  method TryCarve<R>(data: seq<byte>, offset: nat, recordLen: nat, f: Fields, parse: seq<byte> -> Option<R>,
                     stats: CarvingStats)
    returns (carved: Option<CarvedRecord<R>>, after: CarvingStats)
    requires offset + recordLen <= |data|
    ensures
      match Judge(data[offset..offset + recordLen], f, parse)
      case Accepted(r) => carved == Some(CarvedRecord(offset, r)) && after == stats
      case BadTimestamp => carved == None && after == stats.(rejectedTimestamp := stats.rejectedTimestamp + 1)
      case BadStructure => carved == None && after == stats.(rejectedStructure := stats.rejectedStructure + 1)
  {
    var recordData := data[offset..offset + recordLen];
    var filenameLength := LeU16(recordData, f.nameLength);
    var filenameOffset := LeU16(recordData, f.nameOffset);
    after := stats;
    carved := None;
    if filenameOffset != f.nameStart {
      after := stats.(rejectedStructure := stats.rejectedStructure + 1);
      return;
    }
    if filenameOffset + filenameLength > recordLen {
      after := stats.(rejectedStructure := stats.rejectedStructure + 1);
      return;
    }
    if filenameLength == 0 || filenameLength % 2 != 0 {
      after := stats.(rejectedStructure := stats.rejectedStructure + 1);
      return;
    }
    var timestamp := LeI64(recordData, f.timestamp);
    if !(FILETIME_2000 <= timestamp <= FILETIME_2030) {
      after := stats.(rejectedTimestamp := stats.rejectedTimestamp + 1);
      return;
    }
    match parse(recordData) {
      case Some(r) => carved := Some(CarvedRecord(offset, r));
      case None => after := stats.(rejectedStructure := stats.rejectedStructure + 1);
    }
  }

  /** The verdict at `pos`, `None` where the bytes there are not even a candidate. */
  function Candidate<R>(ps: Parsers<R>, s: seq<byte>, pos: nat): Option<Verdict<R>> {
    if pos + 8 > |s| || s[pos..pos + 4] == [0, 0, 0, 0] then None
    else
      var len := LeU32(s, pos);
      var version := LeU16(s, pos + 4);
      if version == 2 && V2_MIN_SIZE <= len <= MAX_RECORD && pos + len <= |s| then
        Some(Judge(s[pos..pos + len], V2_FIELDS, ps.v2))
      else if version == 3 && V3_MIN_SIZE <= len <= MAX_RECORD && pos + len <= |s| then
        Some(Judge(s[pos..pos + len], V3_FIELDS, ps.v3))
      else None
  }

  predicate Carvable<R>(ps: Parsers<R>, s: seq<byte>, pos: nat) {
    Candidate(ps, s, pos).Some? && Candidate(ps, s, pos).value.Accepted?
  }

  lemma CarvableSize<R>(ps: Parsers<R>, s: seq<byte>, pos: nat)
    requires Carvable(ps, s, pos)
    ensures 8 <= LeU32(s, pos) && pos + LeU32(s, pos) <= |s|
  {
  }

  // ----- Acceptance, said with the bytes -----

  /** 100 ns intervals from 1601-01-01 to the first day of `year`, by the Gregorian calendar. */
  function YearStart(year: nat): int {
    var n := year - 1601;
    (365 * n + n / 4 - n / 100 + n / 400) * 864_000_000_000
  }

  /** The window opens with the year 2000; it closes 48000 seconds into the year 2030, at 13:20. */
  lemma WindowInYears()
    ensures FILETIME_2000 == YearStart(2000) && FILETIME_2030 == YearStart(2030) + 48_000 * 10_000_000
  {
  }

  /** A record of `fixed` bytes stands at `pos`, with a name behind them that ends inside the record. */
  predicate NameStands(s: seq<byte>, pos: nat, fixed: nat, lengthAt: nat, offsetAt: nat) {
    var len, nameLength := LeU32(s, pos), LeU16(s, pos + lengthAt);
    && fixed <= len <= 65536 && pos + len <= |s|
    && LeU16(s, pos + offsetAt) == fixed
    && 0 < nameLength && nameLength % 2 == 0 && fixed + nameLength <= len
  }

  /** From the year 2000 to 13:20 on the first day of 2030. */
  predicate InWindow(time: nat) {
    YearStart(2000) <= time <= YearStart(2030) + 480_000_000_000
  }

  predicate RecordStands(s: seq<byte>, pos: nat, fixed: nat, lengthAt: nat, offsetAt: nat, timeAt: nat) {
    NameStands(s, pos, fixed, lengthAt, offsetAt) && InWindow(LeU64(s, pos + timeAt))
  }

  lemma FieldInRecord(s: seq<byte>, pos: nat, len: nat, at: nat, n: nat)
    requires pos + len <= |s| && at + n <= len
    ensures LeAt(s[pos..pos + len], at, n) == LeAt(s, pos + at, n)
  {
    SliceOfSlice(s, pos, pos + len, at, at + n);
  }

  lemma LeU64Fits(s: seq<byte>, at: nat)
    ensures LeU64(s, at) <= U64_MAX
  {
    if at + 8 <= |s| {
      LeValueBound(s[at..at + 8]);
      Pow2Of64();
    }
  }

  /** The filter's verdict on the record that starts at `pos`. */
  lemma JudgedByBytes<R>(s: seq<byte>, pos: nat, len: nat, f: Fields, parse: seq<byte> -> Option<R>)
    requires len == LeU32(s, pos) && pos + len <= |s| && f.minSize == f.nameStart <= len <= 65536
    requires f.nameLength + 2 <= f.minSize && f.nameOffset + 2 <= f.minSize && f.timestamp + 8 <= f.minSize
    ensures
      var d := s[pos..pos + len];
      && (Judge(d, f, parse).Accepted? <==>
          RecordStands(s, pos, f.minSize, f.nameLength, f.nameOffset, f.timestamp) && parse(d).Some?)
      && (Judge(d, f, parse).Accepted? ==> parse(d) == Some(Judge(d, f, parse).record))
      && (Judge(d, f, parse).BadTimestamp? <==>
          NameStands(s, pos, f.minSize, f.nameLength, f.nameOffset) && !InWindow(LeU64(s, pos + f.timestamp)))
  {
    FieldInRecord(s, pos, len, f.nameLength, 2);
    FieldInRecord(s, pos, len, f.nameOffset, 2);
    FieldInRecord(s, pos, len, f.timestamp, 8);
    LeU64Fits(s, pos + f.timestamp);
    WindowInYears();
  }

  /** The length in bytes 0 to 3, the version in bytes 4 and 5. */
  predicate Heads(s: seq<byte>, pos: nat, version: nat) {
    pos + 8 <= |s| && s[pos..pos + 4] != [0, 0, 0, 0] && LeU16(s, pos + 4) == version
  }

  function Claimed(s: seq<byte>, pos: nat): seq<byte> {
    if pos + LeU32(s, pos) <= |s| then s[pos..pos + LeU32(s, pos)] else []
  }

  /**
   Exactly these bytes are carved: a version 2 record with its name length at 0x38, name offset
   at 0x3A and time at 0x20, or a version 3 record with them at 0x48, 0x4A and 0x30, if it parses.
   */
  lemma CarvableIff<R>(ps: Parsers<R>, s: seq<byte>, pos: nat)
    ensures
      var v2 := Heads(s, pos, 2) && RecordStands(s, pos, 0x3C, 0x38, 0x3A, 0x20) && ps.v2(Claimed(s, pos)).Some?;
      var v3 := Heads(s, pos, 3) && RecordStands(s, pos, 0x4C, 0x48, 0x4A, 0x30) && ps.v3(Claimed(s, pos)).Some?;
      HitAt(ps, s, pos) ==
      if v2 then Some(Hit(ps.v2(Claimed(s, pos)).value, LeU32(s, pos)))
      else if v3 then Some(Hit(ps.v3(Claimed(s, pos)).value, LeU32(s, pos)))
      else None
  {
    var len := LeU32(s, pos);
    if pos + len <= |s| && 0x3C <= len <= 65536 {
      JudgedByBytes(s, pos, len, V2_FIELDS, ps.v2);
    }
    if pos + len <= |s| && 0x4C <= len <= 65536 {
      JudgedByBytes(s, pos, len, V3_FIELDS, ps.v3);
    }
  }

  datatype Hit<R> = Hit(record: R, size: RecordLength)

  function HitAt<R>(ps: Parsers<R>, s: seq<byte>, pos: nat): Option<Hit<R>> {
    if Carvable(ps, s, pos) then
      CarvableSize(ps, s, pos);
      Some(Hit(Candidate(ps, s, pos).value.record, LeU32(s, pos)))
    else None
  }

  function Hits<R>(ps: Parsers<R>, s: seq<byte>): nat -> Option<Hit<R>> {
    (pos: nat) => HitAt(ps, s, pos)
  }

  /** Take what `hits` offers, step a word otherwise. */
  function CarveBy<R>(hits: nat -> Option<Hit<R>>, limit: nat, pos: nat): seq<CarvedRecord<R>>
    decreases limit - pos
  {
    if pos + 8 > limit then []
    else match hits(pos)
      case None => CarveBy(hits, limit, pos + 8)
      case Some(hit) => [CarvedRecord(pos, hit.record)] + CarveBy(hits, limit, pos + Align8(hit.size))
  }

  /** The records from `pos` on. */
  function CarveFrom<R>(ps: Parsers<R>, s: seq<byte>, pos: nat): seq<CarvedRecord<R>> {
    CarveBy(Hits(ps, s), |s|, pos)
  }

  /** Where the scan goes from `pos`. */
  function NextPosition<R>(ps: Parsers<R>, s: seq<byte>, pos: nat): (next: nat)
    ensures pos < next
  {
    if Carvable(ps, s, pos) then
      CarvableSize(ps, s, pos);
      pos + Align8(LeU32(s, pos))
    else pos + 8
  }

  /** How many of the positions the scan stops at, from `pos` on, have a verdict of the given kind. */
  function Tally<R>(ps: Parsers<R>, s: seq<byte>, pos: nat, kind: Verdict<R> -> bool): nat
    decreases |s| - pos
  {
    if pos + 8 > |s| then 0
    else
      var here := Candidate(ps, s, pos);
      (if here.Some? && kind(here.value) then 1 else 0) + Tally(ps, s, NextPosition(ps, s, pos), kind)
  }

  function AnyVerdict<R>(): Verdict<R> -> bool {
    (v: Verdict<R>) => true
  }

  function IsBadTimestamp<R>(): Verdict<R> -> bool {
    (v: Verdict<R>) => v.BadTimestamp?
  }

  function IsBadStructure<R>(): Verdict<R> -> bool {
    (v: Verdict<R>) => v.BadStructure?
  }

  /** `after` is `stats` with one more candidate of verdict `v`, if there was one. */
  predicate CountsVerdict<R>(stats: CarvingStats, v: Option<Verdict<R>>, after: CarvingStats) {
    after == if v.None? then stats else stats.(
      candidatesExamined := stats.candidatesExamined + 1,
      rejectedTimestamp := stats.rejectedTimestamp + (if v.value.BadTimestamp? then 1 else 0),
      rejectedStructure := stats.rejectedStructure + (if v.value.BadStructure? then 1 else 0))
  }

  /** The counters of `stats`, with what lies from `pos` on added, come to those of the whole scan. */
  predicate CountedSoFar<R>(ps: Parsers<R>, s: seq<byte>, pos: nat, stats: CarvingStats) {
    && stats.candidatesExamined + Tally(ps, s, pos, AnyVerdict()) == Tally(ps, s, 0, AnyVerdict())
    && stats.rejectedTimestamp + Tally(ps, s, pos, IsBadTimestamp()) == Tally(ps, s, 0, IsBadTimestamp())
    && stats.rejectedStructure + Tally(ps, s, pos, IsBadStructure()) == Tally(ps, s, 0, IsBadStructure())
  }

  lemma CountedStep<R>(ps: Parsers<R>, s: seq<byte>, pos: nat, stats: CarvingStats, after: CarvingStats)
    requires pos + 8 <= |s| && CountedSoFar(ps, s, pos, stats)
    requires CountsVerdict(stats, Candidate(ps, s, pos), after)
    ensures CountedSoFar(ps, s, NextPosition(ps, s, pos), after)
  {
  }

  lemma CarveStep<R>(ps: Parsers<R>, s: seq<byte>, pos: nat, results: seq<CarvedRecord<R>>)
    requires pos + 8 <= |s|
    ensures
      var rest := CarveFrom(ps, s, NextPosition(ps, s, pos));
      results + CarveFrom(ps, s, pos) ==
      if Carvable(ps, s, pos) then results + [CarvedRecord(pos, Candidate(ps, s, pos).value.record)] + rest
      else results + rest
  {
  }

  /** Everything before `offset` is carved and counted. */
  ghost predicate Progress<R>(ps: Parsers<R>, s: seq<byte>, offset: nat, results: seq<CarvedRecord<R>>,
                              stats: CarvingStats) {
    && stats.bytesScanned == |s|
    && stats.candidatesExamined == |results| + stats.rejectedTimestamp + stats.rejectedStructure
    && CountedSoFar(ps, s, offset, stats)
    && results + CarveFrom(ps, s, offset) == CarveFrom(ps, s, 0)
  }

  method CarveUsnRecords<R>(ps: Parsers<R>, data: seq<byte>)
    returns (results: seq<CarvedRecord<R>>, stats: CarvingStats)
    ensures results == CarveFrom(ps, data, 0)
    ensures stats.bytesScanned == |data| && stats.recordsCarved == |results|
    ensures stats.candidatesExamined == |results| + stats.rejectedTimestamp + stats.rejectedStructure
    ensures stats.candidatesExamined == Tally(ps, data, 0, AnyVerdict())
    ensures stats.rejectedTimestamp == Tally(ps, data, 0, IsBadTimestamp())
    ensures stats.rejectedStructure == Tally(ps, data, 0, IsBadStructure())
  {
    results := [];
    stats := CarvingStats(|data|, 0, 0, 0, 0);
    var offset := 0;
    while offset + 8 <= |data|
      invariant 0 <= offset
      invariant Progress(ps, data, offset, results, stats)
      decreases |data| + 8 - offset
    {
      offset, results, stats := CarveOne(ps, data, offset, results, stats);
    }
    stats := stats.(recordsCarved := |results|);
  }

  lemma ProgressStep<R>(ps: Parsers<R>, s: seq<byte>, offset: nat, results: seq<CarvedRecord<R>>, stats: CarvingStats,
                        more: seq<CarvedRecord<R>>, after: CarvingStats)
    requires offset + 8 <= |s| && Progress(ps, s, offset, results, stats)
    requires CountsVerdict(stats, Candidate(ps, s, offset), after)
    requires more == if Carvable(ps, s, offset)
                     then results + [CarvedRecord(offset, Candidate(ps, s, offset).value.record)] else results
    ensures Progress(ps, s, NextPosition(ps, s, offset), more, after)
  {
    CountedStep(ps, s, offset, stats, after);
    CarveStep(ps, s, offset, results);
  }

  /** One turn of the loop. */
  method CarveOne<R>(ps: Parsers<R>, data: seq<byte>, offset: nat, results: seq<CarvedRecord<R>>, stats: CarvingStats)
    returns (next: nat, more: seq<CarvedRecord<R>>, after: CarvingStats)
    requires offset + 8 <= |data| && Progress(ps, data, offset, results, stats)
    ensures offset < next && Progress(ps, data, next, more, after)
  {
    var carved: Option<CarvedRecord<R>>;
    carved, after := Examine(ps, data, offset, stats);
    if carved.Some? {
      more := results + [carved.value];
      next := offset + Align8(LeU32(data, offset));
    } else {
      more := results;
      next := offset + 8;
    }
    ProgressStep(ps, data, offset, results, stats, more, after);
    assert next == NextPosition(ps, data, offset);
  }

  /** One position of the scan; every candidate is counted once, as carved or as rejected. */
  method Examine<R>(ps: Parsers<R>, data: seq<byte>, offset: nat, stats: CarvingStats)
    returns (carved: Option<CarvedRecord<R>>, after: CarvingStats)
    requires offset + 8 <= |data|
    ensures carved.Some? == Carvable(ps, data, offset)
    ensures carved.Some? ==> carved.value == CarvedRecord(offset, Candidate(ps, data, offset).value.record)
    ensures CountsVerdict(stats, Candidate(ps, data, offset), after)
  {
    carved, after := None, stats;
    if data[offset..offset + 4] == [0, 0, 0, 0] {
      return;
    }
    var recordLen := LeU32(data, offset);
    var majorVersion := LeU16(data, offset + 4);
    if majorVersion == 2 && V2_MIN_SIZE <= recordLen <= MAX_RECORD && offset + recordLen <= |data| {
      after := stats.(candidatesExamined := stats.candidatesExamined + 1);
      carved, after := TryCarve(data, offset, recordLen, V2_FIELDS, ps.v2, after);
    } else if majorVersion == 3 && V3_MIN_SIZE <= recordLen <= MAX_RECORD && offset + recordLen <= |data| {
      after := stats.(candidatesExamined := stats.candidatesExamined + 1);
      carved, after := TryCarve(data, offset, recordLen, V3_FIELDS, ps.v3, after);
    }
  }

  // ----- Arbitrary bytes -----

  /** The bytes a carved record takes up, padding included; zero where nothing is carvable. */
  function Taken<R>(ps: Parsers<R>, s: seq<byte>, p: nat): nat {
    if Carvable(ps, s, p) then Align8(LeU32(s, p)) else 0
  }

  ghost predicate CarvedAt<R>(ps: Parsers<R>, s: seq<byte>, out: seq<CarvedRecord<R>>, offsets: seq<nat>) {
    && |out| == |offsets|
    && forall i :: 0 <= i < |out| ==>
         out[i].offset == offsets[i] && Candidate(ps, s, offsets[i]) == Some(Accepted(out[i].record))
  }

  lemma CarvedAtCons<R>(ps: Parsers<R>, s: seq<byte>, first: CarvedRecord<R>, out: seq<CarvedRecord<R>>,
                        offsets: seq<nat>)
    requires Candidate(ps, s, first.offset) == Some(Accepted(first.record)) && CarvedAt(ps, s, out, offsets)
    ensures CarvedAt(ps, s, [first] + out, [first.offset] + offsets)
  {
  }

  lemma {:induction false} CarveIsGridScan<R>(ps: Parsers<R>, s: seq<byte>, pos: nat)
    ensures CarvedAt(ps, s, CarveFrom(ps, s, pos), Offsets(p => Taken(ps, s, p), 8, |s|, pos))
    decreases |s| - pos
  {
    if pos + 8 <= |s| {
      if Carvable(ps, s, pos) {
        CarvableSize(ps, s, pos);
        var next := pos + Align8(LeU32(s, pos));
        CarveIsGridScan(ps, s, next);
        CarvedAtCons(ps, s, CarvedRecord(pos, Candidate(ps, s, pos).value.record),
                     CarveFrom(ps, s, next), Offsets(p => Taken(ps, s, p), 8, |s|, next));
      } else {
        CarveIsGridScan(ps, s, pos + 8);
      }
    }
  }

  /**
   On any bytes the carved spans are aligned, in bounds, increasing and disjoint, and every
   carvable position on the grid is carved or lies inside a span that was.
   */
  lemma CarvedSpans<R>(ps: Parsers<R>, s: seq<byte>)
    ensures
      var out := CarveFrom(ps, s, 0);
      var take := (p: nat) => Taken(ps, s, p);
      && Tidy(take, 8, |s|, 0, seq(|out|, i requires 0 <= i < |out| => out[i].offset))
      && forall i :: 0 <= i < |out| ==>
           && out[i].offset + LeU32(s, out[i].offset) <= |s|
           && Candidate(ps, s, out[i].offset) == Some(Accepted(out[i].record))
  {
    var out := CarveFrom(ps, s, 0);
    var take := (p: nat) => Taken(ps, s, p);
    CarveIsGridScan(ps, s, 0);
    assert seq(|out|, i requires 0 <= i < |out| => out[i].offset) == Offsets(take, 8, |s|, 0);
    assert OnGrid(take);
    OffsetsAreTidy(take, 8, |s|, 0);
    forall i | 0 <= i < |out|
      ensures out[i].offset + LeU32(s, out[i].offset) <= |s|
    {
      CarvableSize(ps, s, out[i].offset);
    }
  }

  // ----- Well-formed journals -----

  /** A journal record the carver would accept. */
  predicate PassesFilter<R>(ps: Parsers<R>, item: Item) {
    item.Record? ==>
      || (LeU16(item.bytes, 4) == 2 && V2_MIN_SIZE <= |item.bytes| && Judge(item.bytes, V2_FIELDS, ps.v2).Accepted?)
      || (LeU16(item.bytes, 4) == 3 && V3_MIN_SIZE <= |item.bytes| && Judge(item.bytes, V3_FIELDS, ps.v3).Accepted?)
  }

  function RecordsOf<R>(carved: seq<CarvedRecord<R>>): seq<R> {
    if carved == [] then [] else [carved[0].record] + RecordsOf(carved[1..])
  }

  /** A journal record the filter accepts is carved where it stands, as the reader decodes it. */
  lemma CandidateInPlace<R>(ps: Parsers<R>, s: seq<byte>, pos: nat, item: Item)
    requires item.Record? && WellFormed(item) && PassesFilter(ps, item)
    requires SightAt(s, pos) == Whole(|item.bytes|) && s[pos..pos + |item.bytes|] == item.bytes
    ensures Carvable(ps, s, pos)
    ensures Entry(ps, item.bytes) == Some(Candidate(ps, s, pos).value.record)
  {
    SliceOfSlice(s, pos, pos + |item.bytes|, 4, 6);
    LeAtSlice(s, pos + 4, item.bytes, 4, 2);
    if s[pos..pos + 4] == [0, 0, 0, 0] {
      assert s[pos..pos + 4] == Zeroes(4);
      LeValueZero(s[pos..pos + 4]);
    }
  }

  lemma GapIsNoHit<R>(ps: Parsers<R>, s: seq<byte>, pos: nat)
    requires pos + 8 <= |s| && ZeroWord(s, pos)
    ensures HitAt(ps, s, pos) == None
  {
    assert s[pos..pos + 4] == [0, 0, 0, 0];
  }

  /** The item as `hits` offers it. */
  predicate Offered<R(==)>(hits: nat -> Option<Hit<R>>, ps: Parsers<R>, limit: nat, pos: nat, item: Item) {
    && pos + 8 <= limit
    && if item.Gap? then hits(pos) == None
       else
         && hits(pos).Some? && Entry(ps, item.bytes) == Some(hits(pos).value.record)
         && |ItemImage(item)| == Align8(hits(pos).value.size)
  }

  ghost function Offering<R>(hits: nat -> Option<Hit<R>>, ps: Parsers<R>, limit: nat): (nat, Item) -> bool {
    (pos: nat, item: Item) => Offered(hits, ps, limit, pos, item)
  }

  lemma {:induction false} OfferedIsDecoded<R>(hits: nat -> Option<Hit<R>>, ps: Parsers<R>, limit: nat, pos: nat,
                                               items: seq<Item>)
    requires Along(Offering(hits, ps, limit), limit, pos, items)
    ensures RecordsOf(CarveBy(hits, limit, pos)) == Decoded(ps, items)
    decreases |items|
  {
    if items != [] {
      var next := pos + |ItemImage(items[0])|;
      assert Offered(hits, ps, limit, pos, items[0]);
      OfferedIsDecoded(hits, ps, limit, next, items[1..]);
      if items[0].Record? {
        assert CarveBy(hits, limit, pos)[1..] == CarveBy(hits, limit, next);
      }
    }
  }

  /** What an item that passes the filter looks like to the carver. */
  lemma ItemOffered<R>(ps: Parsers<R>, s: seq<byte>, pos: nat, item: Item)
    requires WellFormed(item) && PassesFilter(ps, item) && ItemAt(s, pos, item)
    ensures Offered(Hits(ps, s), ps, |s|, pos, item)
  {
    ItemSeen(s, pos, item);
    if item.Gap? {
      GapIsNoHit(ps, s, pos);
    } else {
      CandidateInPlace(ps, s, pos, item);
    }
  }

  lemma {:induction false} PlacedIsCarved<R>(at: (nat, Item) -> bool, hits: nat -> Option<Hit<R>>, ps: Parsers<R>,
                                             limit: nat, pos: nat, items: seq<Item>)
    requires Along(at, limit, pos, items) && Implies(at, Offering(hits, ps, limit), items)
    ensures RecordsOf(CarveBy(hits, limit, pos)) == Decoded(ps, items)
  {
    AlongImplies(at, Offering(hits, ps, limit), limit, pos, items);
    OfferedIsDecoded(hits, ps, limit, pos, items);
  }

  lemma AllOffered<R>(ps: Parsers<R>, s: seq<byte>, items: seq<Item>)
    requires forall item :: item in items ==> WellFormed(item) && PassesFilter(ps, item)
    ensures Implies(Places(s), Offering(Hits(ps, s), ps, |s|), items)
  {
    forall p, item | item in items && Places(s)(p, item)
      ensures Offering(Hits(ps, s), ps, |s|)(p, item)
    {
      ItemOffered(ps, s, p, item);
    }
  }

  /** On a journal whose records pass the filter, carving and streaming give the same records. */
  lemma {:induction false} CarverAgreesWithReader<R>(ps: Parsers<R>, items: seq<Item>)
    requires forall item :: item in items ==> WellFormed(item) && PassesFilter(ps, item)
    ensures RecordsOf(CarveFrom(ps, Image(items), 0)) == Scan(ps, Image(items), 0, 0)
  {
    var s := Image(items);
    assert s[0..] == s + [];
    ImageIsPlaced(s, 0, items, []);
    PlacedJournalCarves(ps, s, items);
    PlacedJournalDecodes(ps, s, items);
  }

  lemma {:induction false} PlacedJournalCarves<R>(ps: Parsers<R>, s: seq<byte>, items: seq<Item>)
    requires Along(Places(s), |s|, 0, items)
    requires forall item :: item in items ==> WellFormed(item) && PassesFilter(ps, item)
    ensures RecordsOf(CarveFrom(ps, s, 0)) == Decoded(ps, items)
  {
    AllOffered(ps, s, items);
    PlacedIsCarved(Places(s), Hits(ps, s), ps, |s|, 0, items);
  }
}
