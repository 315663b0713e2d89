/** Well-formed change journals, and what the streaming reader yields on them. */
module UsnJournal {
  import opened Wrappers
  import opened Bytes
  import opened Layout
  import opened StreamScan
  import opened UsnReader

  /** A record as the decoder of its version takes it; any other version is passed over. */
  function Entry<R>(ps: Parsers<R>, record: seq<byte>): Option<R> {
    match LeU16(record, 4)
    case 2 => ps.v2(record)
    case 3 => ps.v3(record)
    case _ => None
  }

  /**
   The scan of the whole stream, with no buffer in sight: wherever 8 to 65536 bytes are claimed and
   there, a record; a word stepped over elsewhere.
   */
  function PlainScan<R>(ps: Parsers<R>, s: seq<byte>, pos: nat): seq<R>
    decreases |s| - pos
  {
    if pos + 8 > |s| then []
    else
      var len := LeU32(s, pos);
      if 8 <= len <= 65536 && pos + len <= |s| then
        Emit(Entry(ps, s[pos..pos + len]), PlainScan(ps, s, pos + Align8(len)))
      else PlainScan(ps, s, pos + 8)
  }

  lemma CutIsEntry<R>(ps: Parsers<R>, s: seq<byte>, pos: nat, len: nat)
    requires pos + len <= |s|
    ensures Decoding(ps, s)(pos, len) == Entry(ps, s[pos..pos + len])
  {
    DecodesAt(ps, s, pos, len);
    assert ParseRecord(ps, s[pos..pos + len]) == Entry(ps, s[pos..pos + len]);
  }

  /** What the reader sees at a position, said with the bytes. */
  lemma SightsAre<R>(ps: Parsers<R>, s: seq<byte>, pos: nat)
    ensures
      var len := LeU32(s, pos);
      if pos + 8 > |s| then Sights(s)(pos) == End
      else if 8 <= len <= 65536 && pos + len <= |s| then
        Sights(s)(pos) == Whole(len) && Decoding(ps, s)(pos, len) == Entry(ps, s[pos..pos + len])
      else Sights(s)(pos) == Word || Sights(s)(pos) == CutOff
  {
    if pos + 8 <= |s| && ZeroWord(s, pos) {
      assert s[pos..pos + 4] == Zeroes(4);
      LeValueZero(s[pos..pos + 4]);
    }
    if pos + LeU32(s, pos) <= |s| {
      CutIsEntry(ps, s, pos, LeU32(s, pos));
    }
  }

  lemma {:induction false} PlainScanBy<R>(ps: Parsers<R>, s: seq<byte>, pos: nat, look: Look, cut: Cutter<R>)
    requires look == Sights(s) && cut == Decoding(ps, s)
    ensures PlainBy(look, cut, |s|, pos) == PlainScan(ps, s, pos)
    decreases |s| - pos
  {
    SightsAre(ps, s, pos);
    if pos + 8 <= |s| {
      var len := LeU32(s, pos);
      PlainScanBy(ps, s, if 8 <= len <= 65536 && pos + len <= |s| then pos + Align8(len) else pos + 8, look, cut);
    }
  }

  /** No record the scan meets claims more bytes than the stream has left. */
  predicate NoOverrun(s: seq<byte>, pos: nat) {
    NoOverrunBy(Sights(s), |s|, pos)
  }

  /** There is a record of a version the reader decodes. */
  function Decodable(s: seq<byte>): (nat, nat) -> bool {
    (pos: nat, len: nat) =>
      pos + len <= |s| && (LeU16(s[pos..pos + len], 4) == 2 || LeU16(s[pos..pos + len], 4) == 3)
  }

  /** Where a reader at `pos` that has `loaded` bytes gives up, nothing it should have decoded is left. */
  predicate NothingLost(s: seq<byte>, pos: nat, loaded: nat) {
    NothingLostBy(Sights(s), Decodable(s), |s|, pos, loaded)
  }

  // ----- Which streams are read whole -----

  lemma DecodedIsDecodable<R>(ps: Parsers<R>, s: seq<byte>)
    ensures Marks(Decodable(s), Decoding(ps, s))
  {
  }

  lemma TotalDecodesAll<R>(ps: Parsers<R>, s: seq<byte>)
    requires forall record :: ps.v2(record).Some? && ps.v3(record).Some?
    ensures DecodesAll(Decodable(s), Decoding(ps, s))
  {
  }

  /** Without overruns the buffer is invisible: records that straddle refills come out whole. */
  lemma {:induction false} ReaderIsPlainScan<R>(ps: Parsers<R>, s: seq<byte>, pos: nat, loaded: nat)
    requires NoOverrun(s, pos)
    ensures Scan(ps, s, pos, loaded) == PlainScan(ps, s, pos)
  {
    NoOverrunNothingLost(Sights(s), Decodable(s), |s|, pos, loaded);
    DecodedIsDecodable(ps, s);
    ScanAgreesIff(Sights(s), Decoding(ps, s), Decodable(s), |s|, pos, loaded);
    PlainScanBy(ps, s, pos, Sights(s), Decoding(ps, s));
  }

  /**
   A fresh reader yields every record of the stream, whatever the record decoder, if and only if
   nothing decodable is left where it gives up.
   */
  lemma {:induction false} ReadsWholeStreamIff<R(!new)>(s: seq<byte>, some: R)
    ensures (forall ps: Parsers<R> :: Scan(ps, s, 0, 0) == PlainScan(ps, s, 0)) <==> NothingLost(s, 0, 0)
  {
    var total := Parsers(_ => Some(some), _ => Some(some));
    DecodedIsDecodable(total, s);
    TotalDecodesAll(total, s);
    ScanAgreesIff(Sights(s), Decoding(total, s), Decodable(s), |s|, 0, 0);
    PlainScanBy(total, s, 0, Sights(s), Decoding(total, s));
    assert Scan(total, s, 0, 0) == PlainScan(total, s, 0) ==> NothingLost(s, 0, 0);
    if NothingLost(s, 0, 0) {
      forall ps: Parsers<R>
        ensures Scan(ps, s, 0, 0) == PlainScan(ps, s, 0)
      {
        DecodedIsDecodable(ps, s);
        ScanAgreesIff(Sights(s), Decoding(ps, s), Decodable(s), |s|, 0, 0);
        PlainScanBy(ps, s, 0, Sights(s), Decoding(ps, s));
      }
    }
  }

  /**
   Eight bytes that claim a record of 65535, then a whole version 2 record: the reader gives up
   at the claim and never sees the record.
   */
  lemma {:induction false} OverrunHidesRecord<R>(ps: Parsers<R>, s: seq<byte>)
    requires s == [0xFF, 0xFF, 0, 0, 0, 0, 0, 0] + [64, 0, 0, 0, 2, 0, 0, 0] + Zeroes(56)
    requires ps.v2(s[8..72]).Some?
    ensures Scan(ps, s, 0, 0) == []
    ensures PlainScan(ps, s, 0) == [ps.v2(s[8..72]).value]
  {
    assert LeU32(s, 0) == 65535 by {
      assert s[0..4] == [255, 255, 0, 0];
      FourBytes(s[0..4]);
    }
    assert LeU32(s, 8) == 64 by {
      assert s[8..12] == [64, 0, 0, 0];
      FourBytes(s[8..12]);
    }
    assert LeU16(s[8..72], 4) == 2 by {
      SliceOfSlice(s, 8, 72, 4, 6);
      var version: seq<byte> := [2, 0];
      assert s[12..14] == version && version[1..] == [0] && version[1..][1..] == [];
      assert LeValue(version[1..]) == 0;
    }
    assert SightAt(s, 0) == CutOff && SightAt(s, 8) == Whole(64);
    HeadHidesRecord(Sights(s), Decoding(ps, s), 64);
    DecodesAt(ps, s, 8, 64);
    assert ParseRecord(ps, s[8..72]) == ps.v2(s[8..72]);
    PlainScanBy(ps, s, 0, Sights(s), Decoding(ps, s));
  }

  lemma {:induction false} HeadHidesRecord<R>(look: Look, cut: Cutter<R>, len: RecordLength)
    requires len % 8 == 0 && 8 + len <= BUF_SIZE
    requires look(0) == CutOff && look(8) == Whole(len)
    ensures ScanBy(look, cut, 8 + len, 0, 0) == []
    ensures PlainBy(look, cut, 8 + len, 0) == Emit(cut(8, len), [])
  {
    PlainPastWord(look, cut, 8 + len, 0);
    PlainPastRecord(look, cut, 8 + len, 8, len);
  }

  lemma {:induction false} FourBytes(b: seq<byte>)
    requires |b| == 4
    ensures LeValue(b) == b[0] as int + 256 * (b[1] as int + 256 * (b[2] as int + 256 * b[3] as int))
  {
    assert b[1..][1..] == b[2..] && b[2..][1..] == b[3..] && b[3..][1..] == [];
    assert LeValue(b[3..]) == b[3] + 256 * LeValue([]);
    assert LeValue(b[2..]) == b[2] + 256 * LeValue(b[3..]);
    assert LeValue(b[1..]) == b[1] + 256 * LeValue(b[2..]);
  }

  // ----- Journals -----

  predicate WellFormed(item: Item) {
    item.Record? ==>
      && 8 <= |item.bytes| <= 65536 && LeU32(item.bytes, 0) == |item.bytes|
      && |item.bytes| + |item.padding| == Align8(|item.bytes|)
  }

  /** The parseable records of a journal, in order. */
  function Decoded<R>(ps: Parsers<R>, items: seq<Item>): seq<R> {
    if items == [] then []
    else if items[0].Gap? then Decoded(ps, items[1..])
    else Emit(Entry(ps, items[0].bytes), Decoded(ps, items[1..]))
  }

  /** A record in place is recognised, with the length and bytes it was written with. */
  lemma RecordInPlace(s: seq<byte>, pos: nat, item: Item)
    requires item.Record? && WellFormed(item)
    requires ItemAt(s, pos, item)
    ensures pos + 8 <= |s| && IsHead(s, pos) && LeU32(s, pos) == |item.bytes|
    ensures s[pos..pos + |item.bytes|] == item.bytes
  {
    RecordBytesAt(s, pos, item);
    SliceOfSlice(s, pos, pos + |item.bytes|, 0, 4);
    if ZeroWord(s, pos) {
      assert s[pos..pos + 4] == Zeroes(4);
      LeValueZero(s[pos..pos + 4]);
    }
  }

  lemma GapInPlace(s: seq<byte>, pos: nat)
    requires pos + 8 <= |s| && s[pos..pos + 8] == Zeroes(8)
    ensures ZeroWord(s, pos)
  {
    var word := s[pos..pos + 8];
    assert word[0] == word[1] == word[2] == word[3] == word[4] == word[5] == word[6] == word[7] == 0;
  }

  /** The item stands at `pos`, recognisable for what it is. */
  predicate Seen(s: seq<byte>, pos: nat, item: Item) {
    if item.Gap? then pos + 8 <= |s| && ZeroWord(s, pos)
    else 8 <= |item.bytes| && SightAt(s, pos) == Whole(|item.bytes|) && s[pos..pos + |item.bytes|] == item.bytes
  }

  lemma ItemSeen(s: seq<byte>, pos: nat, item: Item)
    requires WellFormed(item) && ItemAt(s, pos, item)
    ensures Seen(s, pos, item)
  {
    if item.Gap? {
      GapInPlace(s, pos);
    } else {
      RecordInPlace(s, pos, item);
    }
  }

  /** The item as `look` and `cut` show it. */
  predicate Shown<R(==)>(look: Look, cut: Cutter<R>, ps: Parsers<R>, limit: nat, pos: nat, item: Item) {
    && pos < limit
    && if item.Gap? then look(pos) == Word
       else
         && 8 <= |item.bytes| && |ItemImage(item)| == Align8(|item.bytes|)
         && look(pos) == Whole(|item.bytes|) && cut(pos, |item.bytes|) == Entry(ps, item.bytes)
  }

  ghost function Showing<R>(look: Look, cut: Cutter<R>, ps: Parsers<R>, limit: nat): (nat, Item) -> bool {
    (pos: nat, item: Item) => Shown(look, cut, ps, limit, pos, item)
  }

  lemma {:induction false} ShownIsDecoded<R>(look: Look, cut: Cutter<R>, ps: Parsers<R>, limit: nat, pos: nat,
                                             items: seq<Item>)
    requires Along(Showing(look, cut, ps, limit), limit, pos, items)
    ensures NoOverrunBy(look, limit, pos) && PlainBy(look, cut, limit, pos) == Decoded(ps, items)
    decreases |items|
  {
    if items != [] {
      assert Shown(look, cut, ps, limit, pos, items[0]);
      ShownIsDecoded(look, cut, ps, limit, pos + |ItemImage(items[0])|, items[1..]);
    }
  }

  lemma PlacedIsShown<R>(ps: Parsers<R>, s: seq<byte>, pos: nat, item: Item)
    requires WellFormed(item) && ItemAt(s, pos, item)
    ensures Shown(Sights(s), Decoding(ps, s), ps, |s|, pos, item)
  {
    ItemSeen(s, pos, item);
    if item.Record? {
      CutIsEntry(ps, s, pos, |item.bytes|);
    }
  }

  lemma {:induction false} PlacedIsScanned<R>(at: (nat, Item) -> bool, look: Look, cut: Cutter<R>, has: (nat, nat) -> bool,
                                              ps: Parsers<R>, limit: nat, items: seq<Item>)
    requires Along(at, limit, 0, items) && Implies(at, Showing(look, cut, ps, limit), items)
    requires Marks(has, cut)
    ensures ScanBy(look, cut, limit, 0, 0) == Decoded(ps, items)
  {
    AlongImplies(at, Showing(look, cut, ps, limit), limit, 0, items);
    ShownIsDecoded(look, cut, ps, limit, 0, items);
    NoOverrunNothingLost(look, has, limit, 0, 0);
    ScanAgreesIff(look, cut, has, limit, 0, 0);
  }

  lemma AllShown<R>(ps: Parsers<R>, s: seq<byte>, items: seq<Item>)
    requires forall item :: item in items ==> WellFormed(item)
    ensures Implies(Places(s), Showing(Sights(s), Decoding(ps, s), ps, |s|), items)
  {
    forall p, item | item in items && Places(s)(p, item)
      ensures Showing(Sights(s), Decoding(ps, s), ps, |s|)(p, item)
    {
      PlacedIsShown(ps, s, p, item);
    }
  }

  /** Every parseable record of a well-formed journal, in order and each once. */
  lemma {:induction false} ReaderDecodesJournal<R>(ps: Parsers<R>, items: seq<Item>)
    requires forall item :: item in items ==> WellFormed(item)
    ensures Scan(ps, Image(items), 0, 0) == Decoded(ps, items)
  {
    var s := Image(items);
    assert s[0..] == s + [];
    ImageIsPlaced(s, 0, items, []);
    PlacedJournalDecodes(ps, s, items);
  }

  lemma {:induction false} PlacedJournalDecodes<R>(ps: Parsers<R>, s: seq<byte>, items: seq<Item>)
    requires Along(Places(s), |s|, 0, items) && forall item :: item in items ==> WellFormed(item)
    ensures Scan(ps, s, 0, 0) == Decoded(ps, items)
  {
    AllShown(ps, s, items);
    DecodedIsDecodable(ps, s);
    PlacedIsScanned(Places(s), Sights(s), Decoding(ps, s), Decodable(s), ps, |s|, items);
  }

  /** Calling `next` until it reports the end. */
  method Drain<R>(reader: UsnJournalReader<R>) returns (out: seq<R>)
    requires reader.Valid()
    modifies reader, reader.buf
    ensures reader.Valid() && out == old(reader.Pending()) && reader.Pending() == []
  {
    out := [];
    ghost var rest := reader.Pending();
    while true
      invariant reader.Valid() && reader.Pending() == rest
      invariant out + rest == old(reader.Pending())
      decreases |rest|
    {
      var r := reader.Next();
      if r.None? {
        break;
      }
      FirstMovesOver(out, rest);
      rest := rest[1..];
      out := out + [r.value];
    }
  }

  lemma FirstMovesOver<T>(a: seq<T>, b: seq<T>)
    requires b != []
    ensures a + b == (a + [b[0]]) + b[1..]
  {
  }

  method ReadAll<R>(source: seq<byte>, ps: Parsers<R>) returns (out: seq<R>)
    ensures out == Scan(ps, source, 0, 0)
  {
    var reader := new UsnJournalReader(source, ps);
    out := Drain(reader);
  }
}
