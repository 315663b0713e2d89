/**
 The streaming USN journal reader (core/src/usn/reader.rs): a 64 KiB buffer that is compacted and
 refilled while records are cut out of it.

 The source delivers every byte asked for, or the rest of the stream; record decoding is a
 parameter.
 */
module UsnReader {
  import opened Wrappers
  import opened Bytes
  import opened Sequences
  import opened StreamScan

  const MAX_RECORD: nat := 65536

  /** `parse_usn_record_v2` and `parse_usn_record_v3`, `None` where they report an error. */
  datatype Parsers<R> = Parsers(v2: seq<byte> -> Option<R>, v3: seq<byte> -> Option<R>)

  function ParseRecord<R>(ps: Parsers<R>, record: seq<byte>): Option<R> {
    var version := LeU16(record, 4);
    if version == 2 then ps.v2(record)
    else if version == 3 then ps.v3(record)
    else None
  }

  predicate ZeroWord(s: seq<byte>, pos: nat)
    requires pos + 8 <= |s|
  {
    && s[pos] == 0 && s[pos + 1] == 0 && s[pos + 2] == 0 && s[pos + 3] == 0
    && s[pos + 4] == 0 && s[pos + 5] == 0 && s[pos + 6] == 0 && s[pos + 7] == 0
  }

  /** A record head whose claimed length is plausible. */
  predicate IsHead(s: seq<byte>, pos: nat)
    requires pos + 8 <= |s|
  {
    !ZeroWord(s, pos) && 8 <= LeU32(s, pos) <= MAX_RECORD
  }

  function SightAt(s: seq<byte>, pos: nat): (v: Sight)
    ensures v.Whole? ==> pos + v.len <= |s|
    ensures !v.End? ==> pos + 8 <= |s|
  {
    if pos + 8 > |s| then End
    else if !IsHead(s, pos) then Word
    else if pos + LeU32(s, pos) > |s| then CutOff
    else Whole(LeU32(s, pos))
  }

  function Sights(s: seq<byte>): Look {
    (pos: nat) => SightAt(s, pos)
  }

  function Decoding<R>(ps: Parsers<R>, s: seq<byte>): Cutter<R> {
    (pos: nat, len: nat) => if pos + len <= |s| then ParseRecord(ps, s[pos..pos + len]) else None
  }

  lemma DecodesAt<R>(ps: Parsers<R>, s: seq<byte>, pos: nat, len: nat)
    requires pos + len <= |s|
    ensures Decoding(ps, s)(pos, len) == ParseRecord(ps, s[pos..pos + len])
  {
  }

  /** What the reader yields from `pos` on, with `loaded` bytes of the stream read so far. */
  function Scan<R>(ps: Parsers<R>, s: seq<byte>, pos: nat, loaded: nat): seq<R> {
    ScanBy(Sights(s), Decoding(ps, s), |s|, pos, loaded)
  }

  class UsnJournalReader<R> {
    const source: seq<byte>
    const ps: Parsers<R>
    ghost const look: Look
    const buf: array<byte>
    var bufLen: nat
    var bufOffset: nat
    var streamPos: nat
    var done: bool

    ghost predicate Valid()
      reads this, buf
    {
      && AgreeBelow(look, Sights(source), |source|)
      && buf.Length == BUF_SIZE
      && bufLen <= BUF_SIZE && bufLen <= streamPos <= |source|
      && Holds(bufLen, streamPos)
      && bufOffset % 8 == 0 && bufOffset < bufLen + 8
      && (streamPos < |source| ==> bufOffset <= bufLen && (bufLen == 0 || bufLen == BUF_SIZE))
    }

    /** The first `len` buffer bytes are the stream bytes that end at `end`. */
    ghost predicate Holds(len: nat, end: nat)
      requires len <= buf.Length && len <= end <= |source|
      reads buf
    {
      forall i :: 0 <= i < len ==> buf[i] == source[end - len + i]
    }

    /** The stream offset of the next unread byte. */
    ghost function Pos(): nat
      requires Valid()
      reads this, buf
    {
      streamPos - bufLen + bufOffset
    }

    /** The records from `pos` on, once `loaded` bytes are read. */
    ghost function From(pos: nat, loaded: nat): seq<R> {
      ScanBy(look, Decoding(ps, source), |source|, pos, loaded)
    }

    /** The records still to come. */
    ghost function Pending(): seq<R>
      requires Valid()
      reads this, buf
    {
      if done then [] else From(Pos(), streamPos)
    }

    constructor (source: seq<byte>, ps: Parsers<R>)
      ensures Valid() && fresh(buf)
      ensures this.source == source && this.ps == ps
      ensures Pending() == Scan(ps, source, 0, 0)
    {
      this.source := source;
      this.ps := ps;
      look := Sights(source);
      AgreesWithItself(Sights(source), |source|);
      buf := new byte[BUF_SIZE](_ => 0);
      bufLen, bufOffset, streamPos, done := 0, 0, 0, false;
    }

    /** Move unread bytes to the front; they are dropped if the cursor is at the buffer start. */
    method Compact()
      requires Valid()
      modifies this`bufLen, this`bufOffset, buf
      ensures bufOffset == 0
      ensures bufLen == if 0 < old(bufOffset) < old(bufLen) then old(bufLen) - old(bufOffset) else 0
      ensures bufLen < BUF_SIZE
      ensures Holds(bufLen, streamPos)
    {
      if bufOffset > 0 && bufOffset < bufLen {
        var remaining := bufLen - bufOffset;
        forall i | 0 <= i < remaining {
          buf[i] := buf[bufOffset + i];
        }
        bufLen := remaining;
      } else {
        bufLen := 0;
      }
      bufOffset := 0;
    }

    /** One read of the source into the free space behind the unread bytes. */
    method ReadMore()
      requires buf.Length == BUF_SIZE && bufLen < BUF_SIZE && bufLen <= streamPos < |source|
      requires Holds(bufLen, streamPos)
      modifies this`bufLen, this`streamPos, buf
      ensures bufLen <= BUF_SIZE && bufLen <= streamPos <= |source|
      ensures streamPos - bufLen == old(streamPos) - old(bufLen)
      ensures streamPos == Refill(|source|, streamPos - bufLen) > old(streamPos)
      ensures Holds(bufLen, streamPos)
    {
      var space := BUF_SIZE - bufLen;
      var n := if space <= |source| - streamPos then space else |source| - streamPos;
      forall i | 0 <= i < n {
        buf[bufLen + i] := source[streamPos + i];
      }
      bufLen := bufLen + n;
      streamPos := streamPos + n;
    }

    method FillBuffer() returns (more: bool)
      requires Valid()
      modifies this, buf
      ensures Valid()
      ensures more == (old(streamPos) < |source|)
      ensures !more ==> done && bufLen == old(bufLen) && bufOffset == old(bufOffset) && streamPos == old(streamPos)
      ensures more ==> done == old(done) && bufOffset == 0 && streamPos > old(streamPos)
      ensures more ==> Pos() == if 0 < old(bufOffset) < old(bufLen) then old(Pos()) else old(streamPos)
      ensures more ==> streamPos == Refill(|source|, Pos())
    {
      if streamPos >= |source| {
        done := true;
        return false;
      }
      Compact();
      ReadMore();
      more := true;
    }

    /** Bytes of the buffer are the bytes of the stream. */
    lemma InBuffer(n: nat)
      requires Valid() && bufOffset + n <= bufLen
      ensures Pos() + n <= streamPos
      ensures buf[bufOffset..bufOffset + n] == source[Pos()..Pos() + n]
    {
      var held, there := buf[bufOffset..bufOffset + n], source[Pos()..Pos() + n];
      forall i | 0 <= i < n
        ensures held[i] == there[i]
      {
        assert buf[bufOffset + i] == source[streamPos - bufLen + (bufOffset + i)];
      }
    }

    predicate AtZeroWord()
      requires Valid() && bufOffset + 8 <= bufLen
      reads this, buf
      ensures AtZeroWord() == (Pos() + 8 <= |source| && ZeroWord(source, Pos()))
    {
      && buf[bufOffset] == 0 && buf[bufOffset + 1] == 0 && buf[bufOffset + 2] == 0 && buf[bufOffset + 3] == 0
      && buf[bufOffset + 4] == 0 && buf[bufOffset + 5] == 0 && buf[bufOffset + 6] == 0 && buf[bufOffset + 7] == 0
    }

    method SkipWord()
      requires Valid() && !done && bufOffset + 8 <= bufLen && look(Pos()) == Word
      modifies this`bufOffset
      ensures Valid() && Pos() == old(Pos()) + 8 && bufOffset == old(bufOffset) + 8 && Pending() == old(Pending())
    {
      ScansPastWord(look, Decoding(ps, source), |source|, Pos(), streamPos);
      bufOffset := bufOffset + 8;
    }

    /** Steps over the zero words that are in the buffer. */
    method SkipBufferedZeros()
      requires Valid() && !done
      modifies this`bufOffset
      ensures Valid() && Pos() >= old(Pos()) && Pending() == old(Pending())
      ensures bufOffset + 8 <= bufLen ==> Pos() + 8 <= |source| && !ZeroWord(source, Pos())
    {
      while bufOffset + 8 <= bufLen
        invariant Valid() && Pos() >= old(Pos()) && Pending() == old(Pending())
      {
        if !AtZeroWord() {
          return;
        }
        AgreeAt(look, Sights(source), |source|, Pos());
        SkipWord();
      }
    }

    /** Running short of a word, the reader is at the end of the stream or may refill. */
    lemma RefillKeeps()
      requires Valid() && !done && bufOffset + 8 > bufLen
      ensures streamPos == |source| ==> Pending() == []
      ensures Pending() == From(Pos(), Refill(|source|, Pos()))
    {
      if Pos() < |source| {
        AgreeAt(look, Sights(source), |source|, Pos());
      }
      ScansAfterRefill(look, Decoding(ps, source), |source|, Pos(), streamPos);
    }

    /** Stops in front of the next word that is not zero. */
    method SkipZeros() returns (found: bool)
      requires Valid() && !done
      modifies this, buf
      ensures Valid() && Pos() >= old(Pos())
      ensures found ==> !done && Pending() == old(Pending())
      ensures found ==> bufOffset + 8 <= bufLen && Pos() + 8 <= |source| && !ZeroWord(source, Pos())
      ensures !found ==> done && old(Pending()) == []
    {
      ghost var pending := Pending();
      while true
        invariant Valid() && !done && Pos() >= old(Pos())
        invariant Pending() == pending
        decreases |source| - streamPos
      {
        SkipBufferedZeros();
        if bufOffset + 8 <= bufLen {
          return true;
        }
        RefillKeeps();
        var more := FillBuffer();
        if !more {
          return false;
        }
      }
    }

    method RecordLength() returns (n: nat)
      requires Valid() && bufOffset + 8 <= bufLen
      ensures Pos() + 8 <= |source| && n == LeU32(source, Pos())
    {
      n := LeU32(buf[..], bufOffset);
      InBuffer(4);
      assert buf[..][bufOffset..bufOffset + 4] == buf[bufOffset..bufOffset + 4];
    }

    /** What the length field says about the sight. */
    lemma SeesRecord(recordLen: nat)
      requires Valid() && Pos() + 8 <= |source| && !ZeroWord(source, Pos()) && recordLen == LeU32(source, Pos())
      ensures !(8 <= recordLen <= MAX_RECORD) ==> look(Pos()) == Word
      ensures 8 <= recordLen <= MAX_RECORD ==>
                look(Pos()) == if Pos() + recordLen <= |source| then Whole(recordLen) else CutOff
    {
      AgreeAt(look, Sights(source), |source|, Pos());
    }

    /** Brings the whole record into the buffer; failing that, the reader moves on by a word. */
    method HoldRecord(recordLen: nat) returns (ok: bool)
      requires Valid() && !done
      requires bufOffset + 8 <= bufLen && Pos() + 8 <= |source| && !ZeroWord(source, Pos())
      requires recordLen == LeU32(source, Pos())
      modifies this, buf
      ensures Valid() && Pending() == old(Pending())
      ensures ok ==> !done && Pos() == old(Pos()) && bufOffset + recordLen <= bufLen
      ensures ok ==> 8 <= recordLen && look(Pos()) == Whole(recordLen)
      ensures !ok ==> Pos() == old(Pos()) + 8
    {
      SeesRecord(recordLen);
      if !(8 <= recordLen <= MAX_RECORD) {
        SkipWord();
        return false;
      }
      ok := true;
      if bufOffset + recordLen > bufLen {
        ok := RefillRecord(recordLen);
      }
    }

    /** A record that is not in the buffer yet: refill, and give it up if that is not enough. */
    method RefillRecord(recordLen: nat) returns (ok: bool)
      requires Valid() && !done
      requires bufOffset + 8 <= bufLen < bufOffset + recordLen && recordLen <= MAX_RECORD
      requires look(Pos()) == if Pos() + recordLen <= |source| then Whole(recordLen) else CutOff
      modifies this, buf
      ensures Valid() && Pending() == old(Pending())
      ensures ok ==> !done && Pos() == old(Pos()) && bufOffset + recordLen <= bufLen
      ensures !ok ==> Pos() == old(Pos()) + 8
    {
      LongRecordKeeps(recordLen);
      var more := FillBuffer();
      ok := more && bufOffset + recordLen <= bufLen;
      if !ok {
        bufOffset := bufOffset + 8;
      }
    }

    lemma LongRecordKeeps(recordLen: nat)
      requires Valid() && !done
      requires bufOffset + 8 <= bufLen < bufOffset + recordLen && recordLen <= MAX_RECORD
      requires look(Pos()) == if Pos() + recordLen <= |source| then Whole(recordLen) else CutOff
      ensures Pending() ==
              if Pos() + recordLen <= |source| then From(Pos(), Refill(|source|, Pos()))
              else if streamPos == |source| then []
              else From(Pos() + 8, Refill(|source|, Pos()))
    {
      if Pos() + recordLen <= |source| {
        ScansStraddling(look, Decoding(ps, source), |source|, Pos(), streamPos, recordLen);
      } else {
        ScansOverrun(look, Decoding(ps, source), |source|, Pos(), streamPos);
      }
    }

    /** Cuts the record out and steps over its padding. */
    method CutRecord(recordLen: nat) returns (r: Option<R>)
      requires Valid() && !done
      requires 8 <= recordLen && look(Pos()) == Whole(recordLen) && bufOffset + recordLen <= bufLen
      modifies this`bufOffset
      ensures Valid() && Pos() > old(Pos())
      ensures old(Pending()) == Emit(r, Pending())
    {
      PendingFromRecord(recordLen);
      var recordData := TakeBytes(recordLen);
      r := ParseRecord(ps, recordData);
    }

    lemma PendingFromRecord(recordLen: nat)
      requires Valid() && !done
      requires 8 <= recordLen && look(Pos()) == Whole(recordLen) && bufOffset + recordLen <= bufLen
      ensures Pos() + recordLen <= |source|
      ensures Pending() == Emit(ParseRecord(ps, source[Pos()..Pos() + recordLen]),
                                From(Pos() + Align8(recordLen), streamPos))
    {
      DecodesAt(ps, source, Pos(), recordLen);
      ScansRecord(look, Decoding(ps, source), |source|, Pos(), streamPos, recordLen);
    }

    method TakeBytes(recordLen: nat) returns (recordData: seq<byte>)
      requires Valid() && 8 <= recordLen && bufOffset + recordLen <= bufLen
      modifies this`bufOffset
      ensures Valid() && Pos() == old(Pos()) + Align8(recordLen)
      ensures old(Pos()) + recordLen <= |source| && recordData == source[old(Pos())..old(Pos()) + recordLen]
    {
      InBuffer(recordLen);
      recordData := buf[bufOffset..bufOffset + recordLen];
      bufOffset := bufOffset + Align8(recordLen);
    }

    /** In front of a non-zero word, or at the end of the journal. */
    method Locate() returns (found: bool)
      requires Valid() && !done
      modifies this, buf
      ensures Valid() && Pos() >= old(Pos())
      ensures found ==> !done && Pending() == old(Pending())
      ensures found ==> bufOffset + 8 <= bufLen && Pos() + 8 <= |source| && !ZeroWord(source, Pos())
      ensures !found ==> done && old(Pending()) == []
    {
      if bufOffset >= bufLen {
        RefillKeeps();
        var more := FillBuffer();
        if !more {
          return false;
        }
      }
      found := SkipZeros();
    }

    /** The next decoded record, and exactly the rest left to come. */
    method Next() returns (r: Option<R>)
      requires Valid()
      modifies this, buf
      ensures Valid()
      ensures old(Pending()) == [] ==> r == None && Pending() == []
      ensures old(Pending()) != [] ==> r == Some(old(Pending())[0]) && Pending() == old(Pending())[1..]
      decreases |source| + 8 - Pos()
    {
      if done {
        return None;
      }
      var found := Locate();
      if !found {
        return None;
      }
      var recordLen := RecordLength();
      var held := HoldRecord(recordLen);
      if !held {
        r := Next();
        return;
      }
      r := CutRecord(recordLen);
      if r.None? {
        r := Next();
      }
    }
  }
}
