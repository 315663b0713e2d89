/** Bytes and little-endian reads (core/src/bytes.rs): out-of-range reads yield zero. */
module Bytes {

  type byte = b: int | 0 <= b < 256

  const U64_MAX: nat := 0xFFFF_FFFF_FFFF_FFFF

  type u64 = x: int | 0 <= x <= U64_MAX

  function Min(a: nat, b: nat): nat {
    if a <= b then a else b
  }

  /** The unsigned value of a little-endian byte string. */
  function LeValue(s: seq<byte>): nat {
    if s == [] then 0 else s[0] + 256 * LeValue(s[1..])
  }

  function LeAt(data: seq<byte>, offset: nat, n: nat): nat {
    if offset + n <= |data| then LeValue(data[offset..offset + n]) else 0
  }

  function LeU16(data: seq<byte>, offset: nat): nat {
    LeAt(data, offset, 2)
  }

  function LeU32(data: seq<byte>, offset: nat): nat {
    LeAt(data, offset, 4)
  }

  function LeU64(data: seq<byte>, offset: nat): nat {
    LeAt(data, offset, 8)
  }

  function Zeroes(n: nat): (s: seq<byte>) {
    seq(n, _ => 0)
  }

  /** `(n + 7) & !7`. */
  function Align8(n: nat): (r: nat)
    ensures n <= r < n + 8 && r % 8 == 0
  {
    (n + 7) / 8 * 8
  }

  /** A read depends only on the bytes it covers. */
  lemma LeAtSlice(a: seq<byte>, i: nat, b: seq<byte>, j: nat, n: nat)
    requires i + n <= |a| && j + n <= |b| && a[i..i + n] == b[j..j + n]
    ensures LeAt(a, i, n) == LeAt(b, j, n)
  {
  }

  lemma {:induction false} LeValueZero(s: seq<byte>)
    ensures LeValue(s) == 0 <==> s == Zeroes(|s|)
  {
    if s != [] {
      LeValueZero(s[1..]);
      assert s == Zeroes(|s|) <==> s[0] == 0 && s[1..] == Zeroes(|s| - 1) by {
        assert s == [s[0]] + s[1..];
        assert Zeroes(|s|) == [0] + Zeroes(|s| - 1);
      }
    }
  }

  /** The two parts of a concatenation, found in place. */
  lemma SplitInPlace(s: seq<byte>, pos: nat, a: seq<byte>, b: seq<byte>)
    requires pos <= |s| && s[pos..] == a + b
    ensures pos + |a| <= |s| && s[pos..pos + |a|] == a && s[pos + |a|..] == b
  {
    assert |s[pos..]| == |a| + |b|;
    assert s[pos..pos + |a|] == s[pos..][..|a|];
    assert s[pos + |a|..] == s[pos..][|a|..];
  }

  lemma SliceOfSlice(s: seq<byte>, a: nat, b: nat, c: nat, d: nat)
    requires a <= b <= |s| && c <= d <= b - a
    ensures s[a..b][c..d] == s[a + c..a + d]
  {
    assert |s[a..b][c..d]| == d - c == |s[a + c..a + d]|;
    assert forall i :: 0 <= i < d - c ==> s[a..b][c..d][i] == s[a + c..a + d][i];
  }
}
