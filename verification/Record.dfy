/** The update-sequence fixup of MFT records and log pages (`apply_fixup` in core/src/record.rs). */
module Record {
  import opened Wrappers
  import opened Bytes
  import opened Errors

  const HEADER_LEN: nat := 0x30
  const USA_OFFSET: nat := 4
  const USA_COUNT: nat := 6
  const USIZE_MAX: nat := 0xFFFF_FFFF_FFFF_FFFF

  function Word(lo: int, hi: int): int {
    lo + 256 * hi
  }

  function WordAt(s: seq<byte>, p: nat): nat
    requires p + 2 <= |s|
  {
    Word(s[p], s[p + 1])
  }

  /** Where the update sequence array is and how many sectors it protects. */
  datatype Usa = Usa(offset: nat, sectors: nat)

  function ReadUsa(s: seq<byte>, ss: nat): (r: Result<Usa, NtfsError>)
    ensures r.Ok? ==> Usable(s, ss, r.value)
  {
    if |s| < HEADER_LEN then Err(TooShort(HEADER_LEN, |s|))
    else if ss < 2 then Err(BadUpdateSequence("sector size smaller than 2 bytes"))
    else
      var offset, count := WordAt(s, USA_OFFSET), WordAt(s, USA_COUNT);
      if count == 0 then Err(BadUpdateSequence("usa_count is zero"))
      else if offset + count * 2 > |s| then Err(BadUpdateSequence("usa extends past record"))
      else if (count - 1) * ss > USIZE_MAX then Err(BadUpdateSequence("sector span overflow"))
      else if (count - 1) * ss > |s| then Err(BadUpdateSequence("fixup sectors exceed record size"))
      else Ok(Usa(offset, count - 1))
  }

  predicate Usable(s: seq<byte>, ss: nat, u: Usa) {
    ss >= 2 && u.offset + 2 + 2 * u.sectors <= |s| && u.sectors * ss <= |s|
  }

  /** What the header must say for a record of `size` bytes to be fixed up. */
  predicate Bounds(size: nat, ss: nat, offset: nat, count: nat) {
    && 0x30 <= size && 2 <= ss && 1 <= count
    && offset + 2 * count <= size
    && (count - 1) * ss <= size && (count - 1) * ss <= USIZE_MAX
  }

  lemma WordIsLittleEndian(s: seq<byte>, p: nat)
    requires p + 2 <= |s|
    ensures WordAt(s, p) == LeU16(s, p)
  {
    var two := s[p..p + 2];
    assert two[1..] == [s[p + 1]] && two[1..][1..] == [];
    assert LeValue(two[1..]) == s[p + 1];
  }

  /** The array and the sectors are those of the two 16-bit words at bytes 4 and 6, within bounds. */
  lemma UsaIsRead(s: seq<byte>, ss: nat)
    ensures ReadUsa(s, ss).Ok? <==> Bounds(|s|, ss, LeU16(s, 4), LeU16(s, 6))
    ensures ReadUsa(s, ss).Ok? ==> ReadUsa(s, ss).value == Usa(LeU16(s, 4), LeU16(s, 6) - 1)
    ensures ReadUsa(s, ss).Err? ==> Fixed(s, ss) == (s, Err(ReadUsa(s, ss).error))
    ensures ReadUsa(s, ss) == Err(TooShort(0x30, |s|)) <==> |s| < 0x30
    ensures ReadUsa(s, ss).Err? && |s| >= 0x30 ==> ReadUsa(s, ss).error.BadUpdateSequence?
  {
    if |s| >= 0x30 {
      WordIsLittleEndian(s, 4);
      WordIsLittleEndian(s, 6);
    }
  }

  /** Where the last two bytes of sector `i` are. */
  function TailOf(ss: nat, i: nat): nat
    requires ss >= 2
  {
    assert (i + 1) * ss >= ss;
    (i + 1) * ss - 2
  }

  /** The positions of the two bytes at the end of each protected sector. */
  function Tails(ss: nat, n: nat): (t: seq<nat>)
    requires ss >= 2
    ensures |t| == n
  {
    if n == 0 then []
    else
      assert n * ss >= ss;
      Tails(ss, n - 1) + [n * ss - 2]
  }

  /** Two-byte fields that lie between `from` and `to`, one after the other. */
  ghost predicate Spread(t: seq<nat>, from: int, to: int) {
    && (forall m :: 0 <= m < |t| ==> from <= t[m] && t[m] + 2 <= to)
    && (forall i, m :: 0 <= i < m < |t| ==> t[i] + 2 <= t[m])
  }

  lemma {:induction false} TailsSpread(ss: nat, n: nat)
    requires ss >= 2
    ensures Spread(Tails(ss, n), ss - 2, n * ss)
  {
    if n > 0 {
      TailsSpread(ss, n - 1);
      assert n * ss == (n - 1) * ss + ss && (n - 1) * ss >= 0;
    }
  }

  lemma {:induction false} TailAt(ss: nat, n: nat, i: nat)
    requires ss >= 2 && i < n
    ensures Tails(ss, n)[i] == TailOf(ss, i) == (i + 1) * ss - 2
  {
    if i < n - 1 {
      TailAt(ss, n - 1, i);
    }
  }

  /** Two single-byte copies, in the order the source makes them. */
  function Copy(s: seq<byte>, from: nat, to: nat): (r: seq<byte>)
    requires from + 2 <= |s| && to + 2 <= |s|
    ensures |r| == |s|
  {
    var once := s[to := s[from]];
    once[to + 1 := once[from + 1]]
  }

  /** The slot of the array that holds the bytes displaced from sector `i`. */
  function Slot(usa: nat, i: nat): nat {
    usa + 2 + 2 * i
  }

  /** The loop from sector `i` on: the buffer it leaves and its verdict. */
  function FixFrom(s: seq<byte>, t: seq<nat>, usa: nat, usn: nat, i: nat): (r: (seq<byte>, Result<(), NtfsError>))
    requires i <= |t| && Slot(usa, |t|) <= |s| && forall m :: 0 <= m < |t| ==> t[m] + 2 <= |s|
    ensures |r.0| == |s|
    decreases |t| - i
  {
    if i == |t| then (s, Ok(()))
    else if WordAt(s, t[i]) != usn then (s, Err(FixupMismatch(i, usn, WordAt(s, t[i]))))
    else FixFrom(Copy(s, Slot(usa, i), t[i]), t, usa, usn, i + 1)
  }

  function Fixed(s: seq<byte>, ss: nat): (r: (seq<byte>, Result<(), NtfsError>))
    ensures |r.0| == |s|
  {
    match ReadUsa(s, ss)
    case Err(e) => (s, Err(e))
    case Ok(u) =>
      TailsSpread(ss, u.sectors);
      FixFrom(s, Tails(ss, u.sectors), u.offset, WordAt(s, u.offset), 0)
  }

  /** `apply_fixup`, in place. */
  method ApplyFixup(buf: array<byte>, sectorSize: nat) returns (r: Result<(), NtfsError>)
    modifies buf
    ensures (buf[..], r) == Fixed(old(buf[..]), sectorSize)
  {
    ghost var s := buf[..];
    if buf.Length < HEADER_LEN {
      return Err(TooShort(HEADER_LEN, buf.Length));
    }
    if sectorSize < 2 {
      return Err(BadUpdateSequence("sector size smaller than 2 bytes"));
    }
    var usaOffset := Word(buf[USA_OFFSET], buf[USA_OFFSET + 1]);
    var usaCount := Word(buf[USA_COUNT], buf[USA_COUNT + 1]);
    if usaCount == 0 {
      return Err(BadUpdateSequence("usa_count is zero"));
    }
    if usaOffset + usaCount * 2 > buf.Length {
      return Err(BadUpdateSequence("usa extends past record"));
    }
    var fixupSectors := usaCount - 1;
    var span := fixupSectors * sectorSize;
    if span > USIZE_MAX {
      return Err(BadUpdateSequence("sector span overflow"));
    }
    if span > buf.Length {
      return Err(BadUpdateSequence("fixup sectors exceed record size"));
    }
    assert ReadUsa(s, sectorSize) == Ok(Usa(usaOffset, fixupSectors));
    var usn := Word(buf[usaOffset], buf[usaOffset + 1]);
    TailsSpread(sectorSize, fixupSectors);
    r := RestoreTails(buf, sectorSize, usaOffset, fixupSectors, usn, Tails(sectorSize, fixupSectors));
  }

  method RestoreTails(buf: array<byte>, sectorSize: nat, usaOffset: nat, fixupSectors: nat, usn: nat, ghost t: seq<nat>)
    returns (r: Result<(), NtfsError>)
    requires sectorSize >= 2 && t == Tails(sectorSize, fixupSectors)
    requires Slot(usaOffset, fixupSectors) <= buf.Length && forall m :: 0 <= m < |t| ==> t[m] + 2 <= buf.Length
    modifies buf
    ensures (buf[..], r) == FixFrom(old(buf[..]), t, usaOffset, usn, 0)
  {
    ghost var goal := FixFrom(buf[..], t, usaOffset, usn, 0);
    for i := 0 to fixupSectors
      invariant goal == FixFrom(buf[..], t, usaOffset, usn, i)
    {
      TailAt(sectorSize, fixupSectors, i);
      var tail := (i + 1) * sectorSize - 2;
      var found := Word(buf[tail], buf[tail + 1]);
      if found != usn {
        return Err(FixupMismatch(i, usn, found));
      }
      var original := usaOffset + 2 + i * 2;
      ghost var before := buf[..];
      buf[tail] := buf[original];
      buf[tail + 1] := buf[original + 1];
      assert buf[..] == Copy(before, original, tail);
    }
    r := Ok(());
  }

  // ----- What it restores -----

  /** The array lies behind the header fields that describe it and before the first sector tail. */
  predicate Clear(ss: nat, u: Usa) {
    8 <= u.offset && Slot(u.offset, u.sectors) + 2 <= ss
  }

  /** The fields of an array and of the tails behind it, all inside `s`. */
  ghost predicate Framed(s: seq<byte>, t: seq<nat>, usa: nat) {
    Slot(usa, |t|) <= |s| && Spread(t, Slot(usa, |t|), |s|)
  }

  lemma {:induction false} ClearIsFramed(s: seq<byte>, ss: nat, u: Usa)
    requires Usable(s, ss, u) && Clear(ss, u)
    ensures Framed(s, Tails(ss, u.sectors), u.offset)
  {
    TailsSpread(ss, u.sectors);
  }

  /** The first sector from `i` on whose tail is not the USN, or the number of sectors. */
  ghost function FirstTorn(s: seq<byte>, t: seq<nat>, usn: nat, i: nat): (k: nat)
    requires i <= |t| && forall m :: 0 <= m < |t| ==> t[m] + 2 <= |s|
    ensures i <= k <= |t|
    ensures forall m :: i <= m < k ==> WordAt(s, t[m]) == usn
    ensures k < |t| ==> WordAt(s, t[k]) != usn
    decreases |t| - i
  {
    if i == |t| || WordAt(s, t[i]) != usn then i else FirstTorn(s, t, usn, i + 1)
  }

  ghost predicate IsTail(t: seq<nat>, i: nat, k: nat, j: nat)
    requires k <= |t|
  {
    exists m :: i <= m < k && (j == t[m] || j == t[m] + 1)
  }

  /** `r` is `s` with the tails of sectors `i..k` taken from the array, and nothing else changed. */
  ghost predicate Restored(s: seq<byte>, r: seq<byte>, t: seq<nat>, usa: nat, i: nat, k: nat)
    requires Framed(s, t, usa) && k <= |t|
  {
    && |r| == |s|
    && (forall m :: i <= m < k ==> r[t[m]] == s[Slot(usa, m)] && r[t[m] + 1] == s[Slot(usa, m) + 1])
    && (forall j {:trigger IsTail(t, i, k, j)} :: 0 <= j < |s| && !IsTail(t, i, k, j) ==> r[j] == s[j])
  }

  /** `c` is `s` with sector `i` restored. */
  ghost predicate OneRestored(s: seq<byte>, c: seq<byte>, t: seq<nat>, usa: nat, i: nat)
    requires Framed(s, t, usa) && i < |t|
  {
    && |c| == |s|
    && c[t[i]] == s[Slot(usa, i)] && c[t[i] + 1] == s[Slot(usa, i) + 1]
    && forall j :: 0 <= j < |s| && j != t[i] && j != t[i] + 1 ==> c[j] == s[j]
  }

  lemma SameTorn(s: seq<byte>, c: seq<byte>, t: seq<nat>, usa: nat, usn: nat, i: nat)
    requires Framed(s, t, usa) && i < |t| && OneRestored(s, c, t, usa, i)
    ensures FirstTorn(c, t, usn, i + 1) == FirstTorn(s, t, usn, i + 1)
  {
    assert forall m :: i < m < |t| ==> WordAt(c, t[m]) == WordAt(s, t[m]);
  }

  /** Restoring one sector touches neither the array nor any other tail. */
  lemma RestoredStep(s: seq<byte>, c: seq<byte>, r: seq<byte>, t: seq<nat>, usa: nat, i: nat, k: nat)
    requires Framed(s, t, usa) && i < k <= |t| && OneRestored(s, c, t, usa, i)
    requires Restored(c, r, t, usa, i + 1, k)
    ensures Restored(s, r, t, usa, i, k)
  {
    forall m | i <= m < k
      ensures r[t[m]] == s[Slot(usa, m)] && r[t[m] + 1] == s[Slot(usa, m) + 1]
    {
      if m == i {
        assert !IsTail(t, i + 1, k, t[i]) && !IsTail(t, i + 1, k, t[i] + 1);
      } else {
        assert c[Slot(usa, m)] == s[Slot(usa, m)] && c[Slot(usa, m) + 1] == s[Slot(usa, m) + 1];
      }
    }
    forall j | 0 <= j < |s| && !IsTail(t, i, k, j)
      ensures r[j] == s[j]
    {
      assert !IsTail(t, i + 1, k, j);
      assert j != t[i] && j != t[i] + 1;
    }
  }

  lemma {:induction false} FixFromRestores(s: seq<byte>, t: seq<nat>, usa: nat, usn: nat, i: nat)
    requires Framed(s, t, usa) && i <= |t|
    ensures
      var k := FirstTorn(s, t, usn, i);
      && Restored(s, FixFrom(s, t, usa, usn, i).0, t, usa, i, k)
      && FixFrom(s, t, usa, usn, i).1 == if k == |t| then Ok(()) else Err(FixupMismatch(k, usn, WordAt(s, t[k])))
    decreases |t| - i
  {
    if i < |t| && WordAt(s, t[i]) == usn {
      var c := Copy(s, Slot(usa, i), t[i]);
      assert OneRestored(s, c, t, usa, i);
      SameTorn(s, c, t, usa, usn, i);
      FixFromRestores(c, t, usa, usn, i + 1);
      RestoredStep(s, c, FixFrom(c, t, usa, usn, i + 1).0, t, usa, i, FirstTorn(s, t, usn, i + 1));
    }
  }

  /** What `Fixed` promises of a record whose array `u` is clear of the tails. */
  ghost predicate FixupCorrect(s: seq<byte>, ss: nat, u: Usa)
    requires Usable(s, ss, u) && Framed(s, Tails(ss, u.sectors), u.offset)
  {
    var t, usn := Tails(ss, u.sectors), WordAt(s, u.offset);
    var k := FirstTorn(s, t, usn, 0);
    && Restored(s, Fixed(s, ss).0, t, u.offset, 0, k)
    && Fixed(s, ss).1 == if k == u.sectors then Ok(()) else Err(FixupMismatch(k, usn, WordAt(s, t[k])))
  }

  lemma {:induction false} FixedIsCorrect(s: seq<byte>, ss: nat)
    requires ReadUsa(s, ss).Ok? && Clear(ss, ReadUsa(s, ss).value)
    ensures Framed(s, Tails(ss, ReadUsa(s, ss).value.sectors), ReadUsa(s, ss).value.offset)
    ensures FixupCorrect(s, ss, ReadUsa(s, ss).value)
  {
    var u := ReadUsa(s, ss).value;
    ClearIsFramed(s, ss, u);
    FixFromRestores(s, Tails(ss, u.sectors), u.offset, WordAt(s, u.offset), 0);
  }

  /** The tail of sector `i` is the USN. */
  predicate TailMatches(s: seq<byte>, ss: nat, offset: nat, i: nat)
    requires ss >= 2
  {
    LeU16(s, TailOf(ss, i)) == LeU16(s, offset)
  }

  /** The bytes of `r` at the tail of sector `i` are those the array keeps for it. */
  predicate TailIsOriginal(s: seq<byte>, r: seq<byte>, ss: nat, offset: nat, i: nat)
    requires ss >= 2
  {
    var tail, original := TailOf(ss, i), offset + 2 + 2 * i;
    && tail + 2 <= |r| && original + 2 <= |s|
    && r[tail] == s[original] && r[tail + 1] == s[original + 1]
  }

  /** Byte `j` is no tail of one of the first `k` sectors. */
  ghost predicate OutsideTails(ss: nat, k: nat, j: nat)
    requires ss >= 2
  {
    forall i :: 0 <= i < k ==> j != TailOf(ss, i) && j != TailOf(ss, i) + 1
  }

  /** Sectors before `k` are restored, and nothing else has changed. */
  ghost predicate RestoredBefore(s: seq<byte>, r: seq<byte>, ss: nat, offset: nat, k: nat)
    requires ss >= 2
  {
    && |r| == |s|
    && (forall i :: 0 <= i < k ==> TailIsOriginal(s, r, ss, offset, i))
    && (forall j :: 0 <= j < |s| && OutsideTails(ss, k, j) ==> r[j] == s[j])
  }

  /**
   A record whose header names an array at `offset` of `count` words, clear of the tails.  Fixup
   succeeds exactly when every protected tail is the USN, the first word of the array; sector k of
   `count - 1` is the first whose tail is not, and then it is named.  Either way the sectors before
   it are restored, and nothing else changes.
   */
  lemma FixupMeaning(s: seq<byte>, ss: nat, offset: nat, count: nat) returns (k: nat)
    requires LeU16(s, 4) == offset && LeU16(s, 6) == count && Bounds(|s|, ss, offset, count)
    requires 8 <= offset && offset + 2 * count + 2 <= ss
    ensures k <= count - 1 && RestoredBefore(s, Fixed(s, ss).0, ss, offset, k)
    ensures forall i :: 0 <= i < k ==> TailMatches(s, ss, offset, i)
    ensures k < count - 1 ==> !TailMatches(s, ss, offset, k)
    ensures Fixed(s, ss).1 ==
            if k == count - 1 then Ok(()) else Err(FixupMismatch(k, LeU16(s, offset), LeU16(s, TailOf(ss, k))))
  {
    UsaIsRead(s, ss);
    FixedIsCorrect(s, ss);
    var n := count - 1;
    var t := Tails(ss, n);
    WordIsLittleEndian(s, offset);
    k := FirstTorn(s, t, WordAt(s, offset), 0);
    forall i | 0 <= i < n
      ensures t[i] == TailOf(ss, i) && WordAt(s, t[i]) == LeU16(s, TailOf(ss, i))
    {
      TailAt(ss, n, i);
      WordIsLittleEndian(s, t[i]);
    }
    RestoredIsSpelled(s, Fixed(s, ss).0, ss, offset, n, k);
  }

  lemma {:induction false} RestoredIsSpelled(s: seq<byte>, r: seq<byte>, ss: nat, offset: nat, n: nat, k: nat)
    requires ss >= 2 && k <= n && Framed(s, Tails(ss, n), offset) && Restored(s, r, Tails(ss, n), offset, 0, k)
    ensures RestoredBefore(s, r, ss, offset, k)
  {
    var t := Tails(ss, n);
    forall i | 0 <= i < k
      ensures t[i] == TailOf(ss, i) && TailIsOriginal(s, r, ss, offset, i)
    {
      TailAt(ss, n, i);
    }
    forall j | 0 <= j < |s| && OutsideTails(ss, k, j)
      ensures r[j] == s[j]
    {
      assert !IsTail(t, 0, k, j);
    }
  }

  // ----- Protection -----

  /** Saves the tail of one sector in the array and overwrites it with the USN. */
  function ProtectSector(s: seq<byte>, t: seq<nat>, usa: nat, lo: byte, hi: byte, i: nat): (r: seq<byte>)
    requires i < |t| && Slot(usa, |t|) <= |s| && t[i] + 2 <= |s|
    ensures |r| == |s|
  {
    Copy(s, t[i], Slot(usa, i))[t[i] := lo][t[i] + 1 := hi]
  }

  function ProtectTo(s: seq<byte>, t: seq<nat>, usa: nat, lo: byte, hi: byte, k: nat): (r: seq<byte>)
    requires k <= |t| && Slot(usa, |t|) <= |s| && forall m :: 0 <= m < |t| ==> t[m] + 2 <= |s|
    ensures |r| == |s|
  {
    if k == 0 then s[usa := lo][usa + 1 := hi]
    else ProtectSector(ProtectTo(s, t, usa, lo, hi, k - 1), t, usa, lo, hi, k - 1)
  }

  /** What NTFS writes to disk: every tail displaced into the array, the USN in its place. */
  function Protect(s: seq<byte>, ss: nat, u: Usa, lo: byte, hi: byte): (p: seq<byte>)
    requires Usable(s, ss, u)
    ensures |p| == |s|
  {
    TailsSpread(ss, u.sectors);
    ProtectTo(s, Tails(ss, u.sectors), u.offset, lo, hi, u.sectors)
  }

  ghost predicate InArray(usa: nat, n: nat, j: nat) {
    usa <= j < Slot(usa, n)
  }

  /** `p` is `s` with the first `k` sectors protected. */
  ghost predicate ProtectedTo(s: seq<byte>, p: seq<byte>, t: seq<nat>, usa: nat, lo: byte, hi: byte, k: nat)
    requires Framed(s, t, usa) && k <= |t|
  {
    && |p| == |s|
    && p[usa] == lo && p[usa + 1] == hi
    && (forall m :: 0 <= m < k ==> p[t[m]] == lo && p[t[m] + 1] == hi)
    && (forall m :: 0 <= m < k ==> p[Slot(usa, m)] == s[t[m]] && p[Slot(usa, m) + 1] == s[t[m] + 1])
    && (forall j {:trigger IsTail(t, 0, k, j)} ::
          0 <= j < |s| && !InArray(usa, |t|, j) && !IsTail(t, 0, k, j) ==> p[j] == s[j])
  }

  lemma ProtectSectorBytes(p: seq<byte>, t: seq<nat>, usa: nat, lo: byte, hi: byte, k: nat, j: nat)
    requires k < |t| && Slot(usa, |t|) <= t[k] && t[k] + 2 <= |p| && j < |p|
    ensures
      ProtectSector(p, t, usa, lo, hi, k)[j] ==
      if j == t[k] then lo
      else if j == t[k] + 1 then hi
      else if j == Slot(usa, k) then p[t[k]]
      else if j == Slot(usa, k) + 1 then p[t[k] + 1]
      else p[j]
  {
  }

  lemma ProtectedStep(s: seq<byte>, p: seq<byte>, t: seq<nat>, usa: nat, lo: byte, hi: byte, n: nat)
    requires Framed(s, t, usa) && 0 < n <= |t| && ProtectedTo(s, p, t, usa, lo, hi, n - 1)
    ensures ProtectedTo(s, ProtectSector(p, t, usa, lo, hi, n - 1), t, usa, lo, hi, n)
  {
    var k := n - 1;
    var q := ProtectSector(p, t, usa, lo, hi, k);
    assert !IsTail(t, 0, k, t[k]) && !IsTail(t, 0, k, t[k] + 1);
    assert p[t[k]] == s[t[k]] && p[t[k] + 1] == s[t[k] + 1];
    ProtectSectorBytes(p, t, usa, lo, hi, k, usa);
    ProtectSectorBytes(p, t, usa, lo, hi, k, usa + 1);
    forall m | 0 <= m < n
      ensures q[t[m]] == lo && q[t[m] + 1] == hi
    {
      ProtectSectorBytes(p, t, usa, lo, hi, k, t[m]);
      ProtectSectorBytes(p, t, usa, lo, hi, k, t[m] + 1);
    }
    forall m | 0 <= m < n
      ensures q[Slot(usa, m)] == s[t[m]] && q[Slot(usa, m) + 1] == s[t[m] + 1]
    {
      ProtectSectorBytes(p, t, usa, lo, hi, k, Slot(usa, m));
      ProtectSectorBytes(p, t, usa, lo, hi, k, Slot(usa, m) + 1);
    }
    forall j | 0 <= j < |s| && !InArray(usa, |t|, j) && !IsTail(t, 0, n, j)
      ensures q[j] == s[j]
    {
      assert !IsTail(t, 0, k, j);
      assert j != t[k] && j != t[k] + 1;
      ProtectSectorBytes(p, t, usa, lo, hi, k, j);
    }
  }

  lemma UsnWritten(s: seq<byte>, t: seq<nat>, usa: nat, lo: byte, hi: byte)
    requires Framed(s, t, usa)
    ensures ProtectedTo(s, s[usa := lo][usa + 1 := hi], t, usa, lo, hi, 0)
  {
  }

  lemma NextProtected(s: seq<byte>, t: seq<nat>, usa: nat, lo: byte, hi: byte, k: nat)
    requires Framed(s, t, usa) && 0 < k <= |t|
    requires ProtectedTo(s, ProtectTo(s, t, usa, lo, hi, k - 1), t, usa, lo, hi, k - 1)
    ensures ProtectedTo(s, ProtectTo(s, t, usa, lo, hi, k), t, usa, lo, hi, k)
  {
    var p := ProtectTo(s, t, usa, lo, hi, k - 1);
    ProtectedStep(s, p, t, usa, lo, hi, k);
    assert ProtectTo(s, t, usa, lo, hi, k) == ProtectSector(p, t, usa, lo, hi, k - 1);
  }

  lemma {:induction false} ProtectIsProtected(s: seq<byte>, t: seq<nat>, usa: nat, lo: byte, hi: byte, k: nat)
    requires Framed(s, t, usa) && k <= |t|
    ensures ProtectedTo(s, ProtectTo(s, t, usa, lo, hi, k), t, usa, lo, hi, k)
  {
    if k == 0 {
      UsnWritten(s, t, usa, lo, hi);
    } else {
      ProtectIsProtected(s, t, usa, lo, hi, k - 1);
      NextProtected(s, t, usa, lo, hi, k);
    }
  }

  lemma HeaderKept(s: seq<byte>, p: seq<byte>, t: seq<nat>, usa: nat, lo: byte, hi: byte)
    requires Framed(s, t, usa) && 8 <= usa && ProtectedTo(s, p, t, usa, lo, hi, |t|)
    ensures forall j :: 0 <= j < 8 ==> p[j] == s[j]
  {
    forall j | 0 <= j < 8
      ensures p[j] == s[j]
    {
      assert !IsTail(t, 0, |t|, j);
    }
  }

  lemma TailRestored(s: seq<byte>, p: seq<byte>, r: seq<byte>, t: seq<nat>, usa: nat, lo: byte, hi: byte, m: nat)
    requires Framed(s, t, usa) && ProtectedTo(s, p, t, usa, lo, hi, |t|) && m < |t|
    requires Restored(p, r, t, usa, 0, |t|)
    ensures r[t[m]] == s[t[m]] && r[t[m] + 1] == s[t[m] + 1]
  {
    assert r[t[m]] == p[Slot(usa, m)] && p[Slot(usa, m)] == s[t[m]];
    assert r[t[m] + 1] == p[Slot(usa, m) + 1] && p[Slot(usa, m) + 1] == s[t[m] + 1];
  }

  lemma OthersRestored(s: seq<byte>, p: seq<byte>, r: seq<byte>, t: seq<nat>, usa: nat, lo: byte, hi: byte, j: nat)
    requires Framed(s, t, usa) && ProtectedTo(s, p, t, usa, lo, hi, |t|)
    requires Restored(p, r, t, usa, 0, |t|)
    requires j < |s| && !InArray(usa, |t|, j) && !IsTail(t, 0, |t|, j)
    ensures r[j] == s[j]
  {
    assert r[j] == p[j];
  }

  lemma ByteRestored(s: seq<byte>, p: seq<byte>, r: seq<byte>, t: seq<nat>, usa: nat, lo: byte, hi: byte, j: nat)
    requires Framed(s, t, usa) && ProtectedTo(s, p, t, usa, lo, hi, |t|)
    requires Restored(p, r, t, usa, 0, |t|)
    requires j < |s| && !InArray(usa, |t|, j)
    ensures r[j] == s[j]
  {
    if IsTail(t, 0, |t|, j) {
      var m :| 0 <= m < |t| && (j == t[m] || j == t[m] + 1);
      TailRestored(s, p, r, t, usa, lo, hi, m);
    } else {
      OthersRestored(s, p, r, t, usa, lo, hi, j);
    }
  }

  lemma {:induction false} ProtectedIsWhole(s: seq<byte>, ss: nat, u: Usa, p: seq<byte>, t: seq<nat>, lo: byte,
                                            hi: byte)
    requires ReadUsa(s, ss) == Ok(u) && t == Tails(ss, u.sectors) && 8 <= u.offset
    requires Framed(s, t, u.offset) && ProtectedTo(s, p, t, u.offset, lo, hi, |t|)
    ensures ReadUsa(p, ss) == Ok(u)
    ensures FirstTorn(p, t, WordAt(p, u.offset), 0) == u.sectors
  {
    HeaderKept(s, p, t, u.offset, lo, hi);
    SameHeaderSameUsa(s, p, ss);
    NoneTorn(p, t, lo, hi, 0);
  }

  lemma SameHeaderSameUsa(s: seq<byte>, p: seq<byte>, ss: nat)
    requires |p| == |s| && (|s| >= 8 ==> forall j :: 0 <= j < 8 ==> p[j] == s[j])
    ensures ReadUsa(p, ss) == ReadUsa(s, ss)
  {
    if |s| >= HEADER_LEN {
      assert WordAt(p, USA_OFFSET) == WordAt(s, USA_OFFSET) && WordAt(p, USA_COUNT) == WordAt(s, USA_COUNT);
    }
  }

  lemma {:induction false} NoneTorn(p: seq<byte>, t: seq<nat>, lo: byte, hi: byte, i: nat)
    requires i <= |t| && forall m :: 0 <= m < |t| ==> t[m] + 2 <= |p| && p[t[m]] == lo && p[t[m] + 1] == hi
    ensures FirstTorn(p, t, Word(lo, hi), i) == |t|
  {
    assert forall m :: 0 <= m < |t| ==> WordAt(p, t[m]) == Word(lo, hi);
  }

  /**
   A record whose header names an array at `offset` of `count` words: protecting its `count - 1`
   sectors and fixing it up again succeeds and gives back every byte outside the array itself.
   */
  lemma FixupInvertsProtection(s: seq<byte>, ss: nat, offset: nat, count: nat, lo: byte, hi: byte)
    requires LeU16(s, 4) == offset && LeU16(s, 6) == count && Bounds(|s|, ss, offset, count)
    requires 8 <= offset && offset + 2 * count + 2 <= ss
    ensures
      var p := Protect(s, ss, Usa(offset, count - 1), lo, hi);
      && Fixed(p, ss).1 == Ok(())
      && (forall j :: 0 <= j < |s| && !(offset <= j < offset + 2 * count) ==> Fixed(p, ss).0[j] == s[j])
  {
    var u := Usa(offset, count - 1);
    var t, p := Tails(ss, u.sectors), Protect(s, ss, u, lo, hi);
    UsaIsRead(s, ss);
    ClearIsFramed(s, ss, u);
    ProtectIsProtected(s, t, u.offset, lo, hi, u.sectors);
    ProtectedIsWhole(s, ss, u, p, t, lo, hi);
    FixedIsCorrect(p, ss);
    forall j | 0 <= j < |s| && !(offset <= j < offset + 2 * count)
      ensures Fixed(p, ss).0[j] == s[j]
    {
      ByteRestored(s, p, Fixed(p, ss).0, t, u.offset, lo, hi, j);
    }
  }

  /** On the disk every protected sector ends in the USN, and the array holds what stood there. */
  lemma ProtectionMeaning(s: seq<byte>, ss: nat, offset: nat, count: nat, lo: byte, hi: byte)
    requires Bounds(|s|, ss, offset, count) && 8 <= offset && offset + 2 * count + 2 <= ss
    ensures
      var p := Protect(s, ss, Usa(offset, count - 1), lo, hi);
      && p[offset] == lo && p[offset + 1] == hi
      && (forall i :: 0 <= i < count - 1 ==> TailMatches(p, ss, offset, i) && TailIsOriginal(p, s, ss, offset, i))
  {
    var u := Usa(offset, count - 1);
    var t, p := Tails(ss, u.sectors), Protect(s, ss, u, lo, hi);
    ClearIsFramed(s, ss, u);
    ProtectIsProtected(s, t, offset, lo, hi, u.sectors);
    WordIsLittleEndian(p, offset);
    forall i | 0 <= i < count - 1
      ensures TailMatches(p, ss, offset, i) && TailIsOriginal(p, s, ss, offset, i)
    {
      TailAt(ss, u.sectors, i);
      WordIsLittleEndian(p, t[i]);
      assert p[Slot(offset, i)] == s[t[i]] && p[Slot(offset, i) + 1] == s[t[i] + 1];
    }
  }
}
