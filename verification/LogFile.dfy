/** `$LogFile` records and the walk over a record page (core/src/logfile/mod.rs). */
module LogFile {
  import opened Bytes
  import opened Bits
  import opened GridScan
  import opened Layout
  import opened Sequences
  import opened SeqSort

  /** The operations the model tells apart; every other code is carried as it is. */
  datatype LogOp = CompensationLogRecord | CommitTransaction | ForgetTransaction | Other(code: nat)

  function LogOpFromU16(code: nat): LogOp {
    if code == 0x01 then CompensationLogRecord
    else if code == 0x1A then CommitTransaction
    else if code == 0x1B then ForgetTransaction
    else Other(code)
  }

  /** The code that stands in the log for an operation. */
  function Code(op: LogOp): nat {
    match op
    case CompensationLogRecord => 0x01
    case CommitTransaction => 0x1A
    case ForgetTransaction => 0x1B
    case Other(code) => code
  }

  /** Other operations have codes of their own. */
  predicate ProperOp(op: LogOp) {
    op.Other? ==> op.code !in {0x01, 0x1A, 0x1B}
  }

  /** Operations and codes translate into each other without loss. */
  lemma CodesRoundTrip(op: LogOp, code: nat)
    ensures ProperOp(op) ==> LogOpFromU16(Code(op)) == op
    ensures ProperOp(LogOpFromU16(code)) && Code(LogOpFromU16(code)) == code
  {
  }

  datatype LogRecord = LogRecord(
    pageOffset: nat, thisLsn: nat, clientPreviousLsn: nat, clientUndoNextLsn: nat,
    recordType: nat, transactionId: nat, redoOp: LogOp, undoOp: LogOp,
    targetAttribute: nat, mftClusterIndex: nat, targetVcn: nat)

  const LFS_HEADER_LEN: nat := 0x30
  const PAGE_HEADER_LEN: nat := 0x40

  /** The fields of the record at `off`, reported under page offset `at`. */
  function RecordFields(data: seq<byte>, off: nat, at: nat): LogRecord {
    LogRecord(at, LeU64(data, off), LeU64(data, off + 0x08), LeU64(data, off + 0x10),
              LeU32(data, off + 0x20), LeU32(data, off + 0x24),
              LogOpFromU16(LeU16(data, off + 0x30)), LogOpFromU16(LeU16(data, off + 0x32)),
              LeU16(data, off + 0x3C), LeU16(data, off + 0x44), LeU64(data, off + 0x48))
  }

  predicate Plausible(data: seq<byte>, off: nat) {
    && LeU64(data, off) != 0
    && LeU64(data, off) <= LeU64(data, 0x08)
    && (LeU32(data, off + 0x20) == 1 || LeU32(data, off + 0x20) == 2)
    && LeU16(data, off + 0x30) <= 0x22
    && off + LFS_HEADER_LEN + LeU32(data, off + 0x18) <= |data|
  }

  /** The aligned size of the record at `off`, zero where the bytes are no plausible record. */
  function Span(data: seq<byte>, off: nat): nat {
    if Plausible(data, off) then Align8(LFS_HEADER_LEN + LeU32(data, off + 0x18)) else 0
  }

  function PageEnd(data: seq<byte>): nat {
    Min(LeU16(data, 0x18), |data|)
  }

  function SpanIn(data: seq<byte>): nat -> nat {
    (p: nat) => Span(data, p)
  }

  function RecordIn(data: seq<byte>): nat -> LogRecord {
    (p: nat) => RecordFields(data, p, p)
  }

  /** Where the walk from `off` finds records. */
  function Found(data: seq<byte>, off: nat, end: nat): seq<nat> {
    Offsets(SpanIn(data), LFS_HEADER_LEN, end, off)
  }

  function Walk(data: seq<byte>): seq<LogRecord> {
    Map(RecordIn(data), Found(data, PAGE_HEADER_LEN, PageEnd(data)))
  }

  /** `parse_log_records`. */
  method ParseLogRecords(data: seq<byte>) returns (records: seq<LogRecord>)
    ensures records == Walk(data)
  {
    AgreesWithItself(SpanIn(data), PageEnd(data));
    AgreesWithItself(RecordIn(data), PageEnd(data));
    records := ParsePage(data, SpanIn(data), RecordIn(data));
  }

  /** The loop; the ghosts tell span and fields of the record at a position. */
  method ParsePage(data: seq<byte>, ghost take: nat -> nat, ghost rec: nat -> LogRecord) returns (records: seq<LogRecord>)
    requires AgreeBelow(take, SpanIn(data), PageEnd(data)) && AgreeBelow(rec, RecordIn(data), PageEnd(data))
    ensures records == Map(rec, Offsets(take, LFS_HEADER_LEN, PageEnd(data), PAGE_HEADER_LEN))
  {
    var end := PageEnd(data);
    records := [];
    var off := PAGE_HEADER_LEN;
    ghost var all := Map(rec, Offsets(take, LFS_HEADER_LEN, end, PAGE_HEADER_LEN));
    while off + LFS_HEADER_LEN <= end
      invariant 0 <= off && WalkedTo(take, rec, end, off, records, all)
      decreases end + 8 - off
    {
      off, records := ParseOne(data, off, records, take, rec, all);
    }
    assert records + [] == records;
  }

  /** One turn of the loop: a record taken, or a word stepped over. */
  method ParseOne(data: seq<byte>, off: nat, records: seq<LogRecord>, ghost take: nat -> nat, ghost rec: nat -> LogRecord,
                  ghost all: seq<LogRecord>)
    returns (next: nat, more: seq<LogRecord>)
    requires AgreeBelow(take, SpanIn(data), PageEnd(data)) && AgreeBelow(rec, RecordIn(data), PageEnd(data))
    requires off + LFS_HEADER_LEN <= PageEnd(data) && WalkedTo(take, rec, PageEnd(data), off, records, all)
    ensures off < next && WalkedTo(take, rec, PageEnd(data), next, more, all)
  {
    AgreeAt(take, SpanIn(data), PageEnd(data), off);
    AgreeAt(rec, RecordIn(data), PageEnd(data), off);
    WalkedStep(take, rec, PageEnd(data), off, records, all);
    if !Plausible(data, off) {
      return off + 8, records;
    }
    var clientDataLength := LeU32(data, off + 0x18);
    more := records + [RecordFields(data, off, off)];
    var advance := Align8(LFS_HEADER_LEN + clientDataLength);
    next := off + (if advance >= 8 then advance else 8);
  }

  /** Everything found before `off` is in `records`. */
  ghost predicate WalkedTo(take: nat -> nat, rec: nat -> LogRecord, end: nat, off: nat, records: seq<LogRecord>,
                           all: seq<LogRecord>) {
    records + Map(rec, Offsets(take, LFS_HEADER_LEN, end, off)) == all
  }

  lemma WalkedStep(take: nat -> nat, rec: nat -> LogRecord, end: nat, off: nat, records: seq<LogRecord>,
                   all: seq<LogRecord>)
    requires off + LFS_HEADER_LEN <= end && WalkedTo(take, rec, end, off, records, all)
    ensures take(off) > 0 ==> WalkedTo(take, rec, end, off + take(off), records + [rec(off)], all)
    ensures take(off) == 0 ==> WalkedTo(take, rec, end, off + 8, records, all)
  {
    if take(off) > 0 {
      var later := Offsets(take, LFS_HEADER_LEN, end, off + take(off));
      MapCons(rec, off, later);
      Reassociate(records, [rec(off)], Map(rec, later));
    }
  }

  // ----- Any page -----

  /** A record of the page, with everything that makes its bytes a plausible one. */
  predicate Genuine(data: seq<byte>, r: LogRecord) {
    && r == RecordFields(data, r.pageOffset, r.pageOffset)
    && 1 <= r.thisLsn <= LeU64(data, 0x08)
    && (r.recordType == 1 || r.recordType == 2)
    && Code(r.redoOp) <= 0x22
    && r.pageOffset + 0x30 + LeU32(data, r.pageOffset + 0x18) <= |data|
  }

  lemma PlausibleIsGenuine(data: seq<byte>, p: nat)
    requires SpanIn(data)(p) > 0
    ensures Genuine(data, RecordIn(data)(p)) && RecordIn(data)(p).pageOffset == p
  {
    CodesRoundTrip(CommitTransaction, LeU16(data, p + 0x30));
  }

  ghost predicate AllGenuine(data: seq<byte>, records: seq<LogRecord>) {
    forall i :: 0 <= i < |records| ==> Genuine(data, records[i])
  }

  function PageOffsets(records: seq<LogRecord>): seq<nat> {
    seq(|records|, i requires 0 <= i < |records| => records[i].pageOffset)
  }

  /**
   On any page the reported records are plausible, 8-aligned, inside the page and in increasing,
   disjoint spans, and no plausible record outside those spans is missed.
   */
  lemma WalkedSpans(data: seq<byte>)
    ensures AllGenuine(data, Walk(data))
    ensures Tidy(SpanIn(data), LFS_HEADER_LEN, PageEnd(data), PAGE_HEADER_LEN, PageOffsets(Walk(data)))
  {
    assert OnGrid(SpanIn(data));
    OffsetsAreTidy(SpanIn(data), LFS_HEADER_LEN, PageEnd(data), PAGE_HEADER_LEN);
    FoundAreGenuine(data, SpanIn(data), RecordIn(data), Found(data, PAGE_HEADER_LEN, PageEnd(data)));
  }

  lemma FoundAreGenuine(data: seq<byte>, take: nat -> nat, rec: nat -> LogRecord, offsets: seq<nat>)
    requires take == SpanIn(data) && rec == RecordIn(data)
    requires forall i :: 0 <= i < |offsets| ==> take(offsets[i]) > 0
    ensures AllGenuine(data, Map(rec, offsets)) && PageOffsets(Map(rec, offsets)) == offsets
  {
    forall i | 0 <= i < |offsets|
      ensures Genuine(data, rec(offsets[i])) && rec(offsets[i]).pageOffset == offsets[i]
    {
      PlausibleIsGenuine(data, offsets[i]);
    }
  }

  /** The bytes at `p` make a plausible record, said with offsets into the page. */
  predicate LooksLikeRecord(data: seq<byte>, p: nat) {
    && 1 <= LeU64(data, p) <= LeU64(data, 0x08)
    && (LeU32(data, p + 0x20) == 1 || LeU32(data, p + 0x20) == 2)
    && LeU16(data, p + 0x30) <= 0x22
    && p + 0x30 + LeU32(data, p + 0x18) <= |data|
  }

  /** Position `p` lies in the aligned span of record `r`. */
  predicate LiesAcross(data: seq<byte>, r: LogRecord, p: nat) {
    r.pageOffset <= p < r.pageOffset + Align8(0x30 + LeU32(data, r.pageOffset + 0x18))
  }

  /** No position on the grid that looks like a record is passed over, unless a record lies across it. */
  lemma NoRecordMissed(data: seq<byte>, p: nat)
    requires 0x40 <= p && p % 8 == 0 && p + 0x30 <= LeU16(data, 0x18) && LooksLikeRecord(data, p)
    ensures exists i :: 0 <= i < |Walk(data)| && LiesAcross(data, Walk(data)[i], p)
  {
    WalkedSpans(data);
    CoveredAcross(data, Walk(data), SpanIn(data), p);
  }

  lemma CoveredAcross(data: seq<byte>, out: seq<LogRecord>, take: nat -> nat, p: nat)
    requires take == SpanIn(data) && LooksLikeRecord(data, p)
    requires 0x40 <= p && p % 8 == 0 && p + 0x30 <= PageEnd(data)
    requires Tidy(take, LFS_HEADER_LEN, PageEnd(data), PAGE_HEADER_LEN, PageOffsets(out))
    ensures exists i :: 0 <= i < |out| && LiesAcross(data, out[i], p)
  {
    assert take(p) > 0;
    assert Covered(take, PageOffsets(out), p);
    var i :| 0 <= i < |PageOffsets(out)| && PageOffsets(out)[i] <= p < PageOffsets(out)[i] + take(PageOffsets(out)[i]);
    assert take(out[i].pageOffset) > 0;
    assert LiesAcross(data, out[i], p);
  }

  // ----- Pages laid out by the log file service -----

  /** A record as it is written: large enough for its fixed part, within the page's LSN range. */
  predicate Written(item: Item, lastLsn: nat) {
    item.Record? ==>
      && |item.bytes| >= LFS_HEADER_LEN + 0x20
      && LeU32(item.bytes, 0x18) == |item.bytes| - LFS_HEADER_LEN
      && 1 <= LeU64(item.bytes, 0) <= lastLsn
      && (LeU32(item.bytes, 0x20) == 1 || LeU32(item.bytes, 0x20) == 2)
      && LeU16(item.bytes, 0x30) <= 0x22
      && |item.bytes| + |item.padding| == Align8(|item.bytes|)
  }

  predicate AllWritten(items: seq<Item>, lastLsn: nat) {
    forall item :: item in items ==> Written(item, lastLsn)
  }

  /** The record that an item at page offset `off` holds. */
  function Writing(): (nat, Item) -> LogRecord {
    (off: nat, item: Item) => if item.Gap? then RecordFields([], 0, off) else RecordFields(item.bytes, 0, off)
  }

  function RecordedBy(written: (nat, Item) -> LogRecord, items: seq<Item>, off: nat): seq<LogRecord> {
    if items == [] then []
    else
      var next := off + |ItemImage(items[0])|;
      if items[0].Gap? then RecordedBy(written, items[1..], next)
      else [written(off, items[0])] + RecordedBy(written, items[1..], next)
  }

  /** The records of a layout that starts at page offset `off`. */
  function Recorded(items: seq<Item>, off: nat): seq<LogRecord> {
    RecordedBy(Writing(), items, off)
  }

  /** A field of a record is read the same in place. */
  lemma FieldInPlace(data: seq<byte>, off: nat, bytes: seq<byte>, at: nat, n: nat)
    requires off + |bytes| <= |data| && data[off..off + |bytes|] == bytes && at + n <= |bytes|
    ensures LeAt(data, off + at, n) == LeAt(bytes, at, n)
  {
    SliceOfSlice(data, off, off + |bytes|, at, at + n);
  }

  lemma RecordInPlace(data: seq<byte>, off: nat, bytes: seq<byte>)
    requires off + |bytes| <= |data| && data[off..off + |bytes|] == bytes && |bytes| >= 0x50
    ensures RecordFields(data, off, off) == RecordFields(bytes, 0, off)
    ensures LeU32(data, off + 0x18) == LeU32(bytes, 0x18)
    ensures LeU16(data, off + 0x30) == LeU16(bytes, 0x30)
  {
    FieldInPlace(data, off, bytes, 0, 8);
    FieldInPlace(data, off, bytes, 0x08, 8);
    FieldInPlace(data, off, bytes, 0x10, 8);
    FieldInPlace(data, off, bytes, 0x18, 4);
    FieldInPlace(data, off, bytes, 0x20, 4);
    FieldInPlace(data, off, bytes, 0x24, 4);
    FieldInPlace(data, off, bytes, 0x30, 2);
    FieldInPlace(data, off, bytes, 0x32, 2);
    FieldInPlace(data, off, bytes, 0x3C, 2);
    FieldInPlace(data, off, bytes, 0x44, 2);
    FieldInPlace(data, off, bytes, 0x48, 8);
  }

  /** Page offsets of the records of a layout. */
  function RecordOffsets(items: seq<Item>, off: nat): seq<nat> {
    if items == [] then []
    else
      var next := off + |ItemImage(items[0])|;
      if items[0].Gap? then RecordOffsets(items[1..], next) else [off] + RecordOffsets(items[1..], next)
  }

  /** A written record in place is plausible, with the span it was written with; a gap is not. */
  lemma ItemInPlace(data: seq<byte>, off: nat, item: Item)
    requires Written(item, LeU64(data, 0x08))
    requires ItemAt(data, off, item)
    ensures item.Gap? ==> Span(data, off) == 0
    ensures item.Record? ==> Span(data, off) == |ItemImage(item)|
    ensures item.Record? ==> RecordFields(data, off, off) == RecordFields(item.bytes, 0, off)
  {
    if item.Gap? {
      LeValueZero(data[off..off + 8]);
    } else {
      RecordBytesAt(data, off, item);
      RecordInPlace(data, off, item.bytes);
    }
  }

  /** The item's span and decoded fields are those it was written with. */
  predicate AgreesAt(take: nat -> nat, rec: nat -> LogRecord, written: (nat, Item) -> LogRecord, off: nat, item: Item) {
    if item.Gap? then take(off) == 0
    else take(off) == |ItemImage(item)| >= LFS_HEADER_LEN && rec(off) == written(off, item)
  }

  function Agreeing(take: nat -> nat, rec: nat -> LogRecord, written: (nat, Item) -> LogRecord): (nat, Item) -> bool {
    (off: nat, item: Item) => AgreesAt(take, rec, written, off, item)
  }

  lemma {:induction false} AgreeingOffsets(take: nat -> nat, rec: nat -> LogRecord, written: (nat, Item) -> LogRecord,
                                           items: seq<Item>, off: nat, limit: nat, end: nat)
    requires Along(Agreeing(take, rec, written), limit, off, items) && limit <= end < limit + LFS_HEADER_LEN
    ensures Offsets(take, LFS_HEADER_LEN, end, off) == RecordOffsets(items, off)
    decreases |items|
  {
    if items != [] {
      var next := off + |ItemImage(items[0])|;
      assert AgreesAt(take, rec, written, off, items[0]);
      AlongForward(Agreeing(take, rec, written), limit, next, items[1..]);
      AgreeingOffsets(take, rec, written, items[1..], next, limit, end);
      if items[0].Gap? {
        assert next == off + 8;
        OffsetsPastWord(take, LFS_HEADER_LEN, end, off);
      } else {
        OffsetsHere(take, LFS_HEADER_LEN, end, off);
      }
    }
  }

  lemma {:induction false} AgreeingRecords(take: nat -> nat, rec: nat -> LogRecord, written: (nat, Item) -> LogRecord,
                                           items: seq<Item>, off: nat, limit: nat)
    requires Along(Agreeing(take, rec, written), limit, off, items)
    ensures Map(rec, RecordOffsets(items, off)) == RecordedBy(written, items, off)
    decreases |items|
  {
    if items != [] {
      var next := off + |ItemImage(items[0])|;
      assert AgreesAt(take, rec, written, off, items[0]);
      AgreeingRecords(take, rec, written, items[1..], next, limit);
      if items[0].Record? {
        MapCons(rec, off, RecordOffsets(items[1..], next));
      }
    }
  }

  lemma MapCons(rec: nat -> LogRecord, p: nat, s: seq<nat>)
    ensures Map(rec, [p] + s) == [rec(p)] + Map(rec, s)
  {
  }

  lemma AllAgree(data: seq<byte>, items: seq<Item>)
    requires AllWritten(items, LeU64(data, 0x08))
    ensures Implies(Places(data), Agreeing(SpanIn(data), RecordIn(data), Writing()), items)
  {
    forall p, item | item in items && Places(data)(p, item)
      ensures Agreeing(SpanIn(data), RecordIn(data), Writing())(p, item)
    {
      ItemInPlace(data, p, item);
    }
  }

  lemma PageHeaderInPlace(header: seq<byte>, body: seq<byte>)
    requires |header| == PAGE_HEADER_LEN
    ensures LeU64(header + body, 0x08) == LeU64(header, 0x08) && LeU16(header + body, 0x18) == LeU16(header, 0x18)
  {
    var data := header + body;
    assert data[0..|header|] == header;
    FieldInPlace(data, 0, header, 0x08, 8);
    FieldInPlace(data, 0, header, 0x18, 2);
  }

  lemma {:induction false} PageIsRecorded(header: seq<byte>, items: seq<Item>, rest: seq<byte>)
    requires |header| == PAGE_HEADER_LEN
    requires AllWritten(items, LeU64(header, 0x08))
    requires |header| + |Image(items)| <= LeU16(header, 0x18) < |header| + |Image(items)| + LFS_HEADER_LEN
    requires LeU16(header, 0x18) <= |header + (Image(items) + rest)|
    ensures Walk(header + (Image(items) + rest)) == Recorded(items, PAGE_HEADER_LEN)
  {
    var data := header + (Image(items) + rest);
    PageHeaderInPlace(header, Image(items) + rest);
    ImageIsPlaced(data, PAGE_HEADER_LEN, items, rest);
    AllAgree(data, items);
    PlacedIsRecorded(Places(data), SpanIn(data), RecordIn(data), Writing(), items, PAGE_HEADER_LEN, |data| - |rest|,
                     PageEnd(data));
  }

  lemma {:induction false} PlacedIsRecorded(at: (nat, Item) -> bool, take: nat -> nat, rec: nat -> LogRecord,
                                            written: (nat, Item) -> LogRecord, items: seq<Item>, off: nat, limit: nat, end: nat)
    requires Along(at, limit, off, items) && Implies(at, Agreeing(take, rec, written), items)
    requires limit <= end < limit + LFS_HEADER_LEN
    ensures Map(rec, Offsets(take, LFS_HEADER_LEN, end, off)) == RecordedBy(written, items, off)
  {
    AlongImplies(at, Agreeing(take, rec, written), limit, off, items);
    AgreeingOffsets(take, rec, written, items, off, limit, end);
    AgreeingRecords(take, rec, written, items, off, limit);
  }

  // ----- Records and their bytes -----

  predicate Fits(v: nat, n: nat) {
    v < Pow2(8 * n)
  }

  /** `v` stands at `at` as a little-endian field of `n` bytes. */
  predicate FieldIs(bytes: seq<byte>, at: nat, v: nat, n: nat) {
    Fits(v, n) && at + n <= |bytes| && bytes[at..at + n] == UintBytes(v, n)
  }

  lemma FieldIsRead(bytes: seq<byte>, at: nat, v: nat, n: nat)
    requires FieldIs(bytes, at, v, n)
    ensures LeAt(bytes, at, n) == v
  {
    UintBytesValue(v, n);
  }

  /** The fields of the record's header, `more` bytes of client data following it. */
  predicate SpellsHeader(bytes: seq<byte>, r: LogRecord) {
    && FieldIs(bytes, 0x00, r.thisLsn, 8)
    && FieldIs(bytes, 0x08, r.clientPreviousLsn, 8)
    && FieldIs(bytes, 0x10, r.clientUndoNextLsn, 8)
    && 0x30 <= |bytes| && FieldIs(bytes, 0x18, |bytes| - 0x30, 4)
    && FieldIs(bytes, 0x20, r.recordType, 4)
    && FieldIs(bytes, 0x24, r.transactionId, 4)
  }

  /** The fields of its client data. */
  predicate SpellsClient(bytes: seq<byte>, r: LogRecord) {
    && FieldIs(bytes, 0x30, Code(r.redoOp), 2)
    && FieldIs(bytes, 0x32, Code(r.undoOp), 2)
    && FieldIs(bytes, 0x3C, r.targetAttribute, 2)
    && FieldIs(bytes, 0x44, r.mftClusterIndex, 2)
    && FieldIs(bytes, 0x48, r.targetVcn, 8)
  }

  /** The bytes of a log record: every field at its place, whatever stands between them. */
  predicate Spells(bytes: seq<byte>, r: LogRecord) {
    ProperOp(r.redoOp) && ProperOp(r.undoOp) && SpellsHeader(bytes, r) && SpellsClient(bytes, r)
  }

  lemma HeaderIsRead(bytes: seq<byte>, r: LogRecord)
    requires SpellsHeader(bytes, r)
    ensures LeU64(bytes, 0) == r.thisLsn && LeU64(bytes, 0x08) == r.clientPreviousLsn
    ensures LeU64(bytes, 0x10) == r.clientUndoNextLsn && LeU32(bytes, 0x18) == |bytes| - 0x30
    ensures LeU32(bytes, 0x20) == r.recordType && LeU32(bytes, 0x24) == r.transactionId
  {
    FieldIsRead(bytes, 0x00, r.thisLsn, 8);
    FieldIsRead(bytes, 0x08, r.clientPreviousLsn, 8);
    FieldIsRead(bytes, 0x10, r.clientUndoNextLsn, 8);
    FieldIsRead(bytes, 0x18, |bytes| - 0x30, 4);
    FieldIsRead(bytes, 0x20, r.recordType, 4);
    FieldIsRead(bytes, 0x24, r.transactionId, 4);
  }

  lemma ClientIsRead(bytes: seq<byte>, r: LogRecord)
    requires SpellsClient(bytes, r)
    ensures LeU16(bytes, 0x30) == Code(r.redoOp) && LeU16(bytes, 0x32) == Code(r.undoOp)
    ensures LeU16(bytes, 0x3C) == r.targetAttribute && LeU16(bytes, 0x44) == r.mftClusterIndex
    ensures LeU64(bytes, 0x48) == r.targetVcn
  {
    FieldIsRead(bytes, 0x30, Code(r.redoOp), 2);
    FieldIsRead(bytes, 0x32, Code(r.undoOp), 2);
    FieldIsRead(bytes, 0x3C, r.targetAttribute, 2);
    FieldIsRead(bytes, 0x44, r.mftClusterIndex, 2);
    FieldIsRead(bytes, 0x48, r.targetVcn, 8);
  }

  /** The item is the record `r` at page offset `off`, as a page with this last LSN may hold it. */
  predicate Logged(item: Item, r: LogRecord, off: nat, lastLsn: nat) {
    && item.Record? && Spells(item.bytes, r) && r.pageOffset == off
    && |item.bytes| + |item.padding| == Align8(|item.bytes|)
    && 1 <= r.thisLsn <= lastLsn && (r.recordType == 1 || r.recordType == 2) && Code(r.redoOp) <= 0x22
  }

  lemma LoggedIsWritten(item: Item, r: LogRecord, off: nat, lastLsn: nat)
    requires Logged(item, r, off, lastLsn)
    ensures Written(item, lastLsn) && Writing()(off, item) == r
  {
    HeaderIsRead(item.bytes, r);
    ClientIsRead(item.bytes, r);
    CodesRoundTrip(r.redoOp, 0);
    CodesRoundTrip(r.undoOp, 0);
  }

  function LoggedAs(lastLsn: nat): (nat, Item, LogRecord) -> bool {
    (off: nat, item: Item, r: LogRecord) => Logged(item, r, off, lastLsn)
  }

  /** From `off` on, the items that are not gaps are the records, in order, as `shows` tells. */
  predicate HoldBy(shows: (nat, Item, LogRecord) -> bool, items: seq<Item>, records: seq<LogRecord>, off: nat)
    decreases |items|
  {
    if items == [] then records == []
    else if items[0].Gap? then HoldBy(shows, items[1..], records, off + |ItemImage(items[0])|)
    else
      && records != [] && shows(off, items[0], records[0])
      && HoldBy(shows, items[1..], records[1..], off + |ItemImage(items[0])|)
  }

  predicate Holds(items: seq<Item>, records: seq<LogRecord>, off: nat, lastLsn: nat) {
    HoldBy(LoggedAs(lastLsn), items, records, off)
  }

  function WrittenUpTo(lastLsn: nat): Item -> bool {
    (item: Item) => Written(item, lastLsn)
  }

  /** An item that is a record fits and is written as that record; so does a gap. */
  ghost predicate Yields(shows: (nat, Item, LogRecord) -> bool, fits: Item -> bool, written: (nat, Item) -> LogRecord) {
    && (forall off, item, r :: shows(off, item, r) ==> fits(item) && written(off, item) == r)
    && forall item: Item :: item.Gap? ==> fits(item)
  }

  lemma {:induction false} HeldByIsRecorded(shows: (nat, Item, LogRecord) -> bool, fits: Item -> bool, written: (nat, Item) -> LogRecord,
                                            items: seq<Item>, records: seq<LogRecord>, off: nat)
    requires HoldBy(shows, items, records, off) && Yields(shows, fits, written)
    ensures (forall item :: item in items ==> fits(item)) && RecordedBy(written, items, off) == records
    decreases |items|
  {
    if items != [] {
      var next := off + |ItemImage(items[0])|;
      if items[0].Gap? {
        HeldByIsRecorded(shows, fits, written, items[1..], records, next);
      } else {
        HeldByIsRecorded(shows, fits, written, items[1..], records[1..], next);
      }
    }
  }

  lemma HeldIsRecorded(items: seq<Item>, records: seq<LogRecord>, off: nat, lastLsn: nat)
    requires Holds(items, records, off, lastLsn)
    ensures AllWritten(items, lastLsn) && Recorded(items, off) == records
  {
    LoggedYields(LoggedAs(lastLsn), WrittenUpTo(lastLsn), Writing(), lastLsn);
    HeldByIsRecorded(LoggedAs(lastLsn), WrittenUpTo(lastLsn), Writing(), items, records, off);
    forall item | item in items
      ensures Written(item, lastLsn)
    {
      assert WrittenUpTo(lastLsn)(item);
    }
  }

  lemma LoggedYields(shows: (nat, Item, LogRecord) -> bool, fits: Item -> bool, written: (nat, Item) -> LogRecord,
                     lastLsn: nat)
    requires shows == LoggedAs(lastLsn) && fits == WrittenUpTo(lastLsn) && written == Writing()
    ensures Yields(shows, fits, written)
  {
    forall off, item, r | shows(off, item, r)
      ensures fits(item) && written(off, item) == r
    {
      LoggedIsWritten(item, r, off, lastLsn);
    }
  }

  /**
   A page laid out from zero words and padded records, with its last LSN and its free offset in the
   header, yields exactly those records.
   */
  lemma {:induction false} PageRoundTrip(header: seq<byte>, items: seq<Item>, records: seq<LogRecord>,
                                         rest: seq<byte>, lastLsn: nat, free: nat)
    requires |header| == 0x40 && FieldIs(header, 0x08, lastLsn, 8) && FieldIs(header, 0x18, free, 2)
    requires Holds(items, records, 0x40, lastLsn)
    requires 0x40 + |Image(items)| <= free < 0x40 + |Image(items)| + 0x30
    requires free <= |header + (Image(items) + rest)|
    ensures Walk(header + (Image(items) + rest)) == records
  {
    FieldIsRead(header, 0x08, lastLsn, 8);
    FieldIsRead(header, 0x18, free, 2);
    HeldIsRecorded(items, records, 0x40, lastLsn);
    PageIsRecorded(header, items, rest);
  }

  /** The fields of a record fit their places. */
  predicate Encodable(r: LogRecord) {
    && ProperOp(r.redoOp) && ProperOp(r.undoOp)
    && Fits(r.thisLsn, 8) && Fits(r.clientPreviousLsn, 8) && Fits(r.clientUndoNextLsn, 8)
    && Fits(r.recordType, 4) && Fits(r.transactionId, 4) && Fits(Code(r.redoOp), 2) && Fits(Code(r.undoOp), 2)
    && Fits(r.targetAttribute, 2) && Fits(r.mftClusterIndex, 2) && Fits(r.targetVcn, 8)
  }

  datatype Field = Field(at: nat, value: nat, width: nat)

  /** Each field starts behind the one before it. */
  predicate Spaced(fields: seq<Field>, pos: nat) {
    forall i :: 0 <= i < |fields| ==> Bound(fields, pos, i) <= fields[i].at
  }

  function Bound(fields: seq<Field>, pos: nat, i: nat): nat
    requires i < |fields|
  {
    if i == 0 then pos else fields[i - 1].at + fields[i - 1].width
  }

  /** The fields from position `pos` on, zeroes between them. */
  function Lay(fields: seq<Field>, pos: nat): seq<byte> {
    if fields == [] || fields[0].at < pos then []
    else
      var f := fields[0];
      Zeroes(f.at - pos) + UintBytes(f.value, f.width) + Lay(fields[1..], f.at + f.width)
  }

  lemma SpacedTail(fields: seq<Field>, pos: nat)
    requires Spaced(fields, pos) && fields != []
    ensures pos <= fields[0].at && Spaced(fields[1..], fields[0].at + fields[0].width)
  {
    assert Bound(fields, pos, 0) == pos;
    var rest := fields[1..];
    forall i | 0 <= i < |rest|
      ensures Bound(rest, fields[0].at + fields[0].width, i) <= rest[i].at
    {
      assert rest[i] == fields[i + 1];
      assert Bound(rest, fields[0].at + fields[0].width, i) == Bound(fields, pos, i + 1);
    }
  }

  /** Everything before field `i` reaches up to its place. */
  lemma LaidSplits(fields: seq<Field>, pos: nat, i: nat) returns (front: seq<byte>, back: seq<byte>)
    requires Spaced(fields, pos) && i < |fields|
    ensures Lay(fields, pos) == front + UintBytes(fields[i].value, fields[i].width) + back
    ensures pos + |front| == fields[i].at
    decreases i
  {
    SpacedTail(fields, pos);
    var f := fields[0];
    var rest := fields[1..];
    if i == 0 {
      front, back := Zeroes(f.at - pos), Lay(rest, f.at + f.width);
    } else {
      var first := Zeroes(f.at - pos) + UintBytes(f.value, f.width);
      front, back := LaidSplits(rest, f.at + f.width, i - 1);
      Regroup(first, front, UintBytes(fields[i].value, fields[i].width), back);
      front := first + front;
    }
  }

  lemma Regroup(a: seq<byte>, b: seq<byte>, c: seq<byte>, d: seq<byte>)
    ensures a + (b + c + d) == a + b + c + d
  {
  }

  lemma {:induction false} LaidLength(fields: seq<Field>, pos: nat)
    requires Spaced(fields, pos) && fields != []
    ensures pos + |Lay(fields, pos)| == fields[|fields| - 1].at + fields[|fields| - 1].width
  {
    var f := fields[0];
    SpacedTail(fields, pos);
    if |fields| == 1 {
      assert fields[1..] == [];
    } else {
      assert fields[1..][|fields[1..]| - 1] == fields[|fields| - 1];
      LaidLength(fields[1..], f.at + f.width);
    }
  }

  function Fields(r: LogRecord, dataLength: nat): seq<Field> {
    [Field(0x00, r.thisLsn, 8), Field(0x08, r.clientPreviousLsn, 8), Field(0x10, r.clientUndoNextLsn, 8),
     Field(0x18, dataLength, 4), Field(0x20, r.recordType, 4), Field(0x24, r.transactionId, 4),
     Field(0x30, Code(r.redoOp), 2), Field(0x32, Code(r.undoOp), 2), Field(0x3C, r.targetAttribute, 2),
     Field(0x44, r.mftClusterIndex, 2), Field(0x48, r.targetVcn, 8)]
  }

  /** The bytes of a record with `more` behind its fixed part, zeroes where no field is. */
  function EncodeRecord(r: LogRecord, more: seq<byte>): seq<byte> {
    Lay(Fields(r, 0x20 + |more|), 0) + more
  }

  lemma FieldsAreSpaced(r: LogRecord, dataLength: nat)
    ensures Spaced(Fields(r, dataLength), 0)
  {
  }

  lemma {:induction false} FieldStands(fields: seq<Field>, more: seq<byte>, i: nat, at: nat, v: nat, n: nat)
    requires Spaced(fields, 0) && i < |fields| && fields[i] == Field(at, v, n) && Fits(v, n)
    ensures FieldIs(Lay(fields, 0) + more, at, v, n)
  {
    var front, back := LaidSplits(fields, 0, i);
    FieldBetween(front, v, n, back, more);
  }

  lemma {:induction false} FieldBetween(front: seq<byte>, v: nat, n: nat, back: seq<byte>, more: seq<byte>)
    requires Fits(v, n)
    ensures FieldIs(front + UintBytes(v, n) + back + more, |front|, v, n)
  {
    assert (front + UintBytes(v, n) + back + more)[|front|..|front| + n] == UintBytes(v, n);
  }

  lemma {:induction false} FieldsSpellHeader(r: LogRecord, fields: seq<Field>, more: seq<byte>)
    requires Encodable(r) && Fits(0x20 + |more|, 4) && fields == Fields(r, 0x20 + |more|) && Spaced(fields, 0)
    requires |Lay(fields, 0)| == 0x50
    ensures SpellsHeader(Lay(fields, 0) + more, r)
  {
    FieldStands(fields, more, 0, 0x00, r.thisLsn, 8);
    FieldStands(fields, more, 1, 0x08, r.clientPreviousLsn, 8);
    FieldStands(fields, more, 2, 0x10, r.clientUndoNextLsn, 8);
    FieldStands(fields, more, 3, 0x18, 0x20 + |more|, 4);
    FieldStands(fields, more, 4, 0x20, r.recordType, 4);
    FieldStands(fields, more, 5, 0x24, r.transactionId, 4);
  }

  lemma {:induction false} FieldsSpellClient(r: LogRecord, fields: seq<Field>, more: seq<byte>)
    requires Encodable(r) && fields == Fields(r, 0x20 + |more|) && Spaced(fields, 0)
    ensures SpellsClient(Lay(fields, 0) + more, r)
  {
    FieldStands(fields, more, 6, 0x30, Code(r.redoOp), 2);
    FieldStands(fields, more, 7, 0x32, Code(r.undoOp), 2);
    FieldStands(fields, more, 8, 0x3C, r.targetAttribute, 2);
    FieldStands(fields, more, 9, 0x44, r.mftClusterIndex, 2);
    FieldStands(fields, more, 10, 0x48, r.targetVcn, 8);
  }

  /** Every record whose fields fit has bytes, so the round trip is about all of them. */
  lemma EncodedSpells(r: LogRecord, more: seq<byte>)
    requires Encodable(r) && Fits(0x20 + |more|, 4)
    ensures Spells(EncodeRecord(r, more), r) && |EncodeRecord(r, more)| == 0x50 + |more|
  {
    var fields := Fields(r, 0x20 + |more|);
    FieldsAreSpaced(r, 0x20 + |more|);
    LaidLength(fields, 0);
    FieldsSpellHeader(r, fields, more);
    FieldsSpellClient(r, fields, more);
  }
}
