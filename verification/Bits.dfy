/** Shifts and bitwise operators on naturals, as the bit patterns of machine words. */
module Bits {
  import opened Bytes

  function Pow2(n: nat): (p: nat)
    ensures p > 0
  {
    if n == 0 then 1 else 2 * Pow2(n - 1)
  }

  function Or(a: nat, b: nat): nat {
    if a == 0 && b == 0 then 0
    else 2 * Or(a / 2, b / 2) + (if a % 2 == 1 || b % 2 == 1 then 1 else 0)
  }

  function And(a: nat, b: nat): nat {
    if a == 0 || b == 0 then 0
    else 2 * And(a / 2, b / 2) + (if a % 2 == 1 && b % 2 == 1 then 1 else 0)
  }

  lemma Pow2Sum(a: nat, b: nat)
    ensures Pow2(a + b) == Pow2(a) * Pow2(b)
  {
    if a > 0 {
      Pow2Sum(a - 1, b);
    }
  }

  lemma {:induction false} Pow2Monotone(a: nat, b: nat)
    requires a <= b
    ensures Pow2(a) <= Pow2(b)
  {
    if a < b {
      Pow2Monotone(a, b - 1);
    }
  }

  lemma {:induction false} OrZero(a: nat)
    ensures Or(a, 0) == a && Or(0, a) == a
  {
    if a > 0 {
      OrZero(a / 2);
    }
  }

  lemma HalfOfShift(b: nat, k: nat)
    requires k > 0
    ensures (b * Pow2(k)) / 2 == b * Pow2(k - 1) && (b * Pow2(k)) % 2 == 0
  {
    assert b * Pow2(k) == 2 * (b * Pow2(k - 1));
  }

  /** Bits that do not meet add up. */
  lemma {:induction false} OrDisjoint(a: nat, b: nat, k: nat)
    requires a < Pow2(k)
    ensures Or(a, b * Pow2(k)) == a + b * Pow2(k)
  {
    if k == 0 {
      assert b * Pow2(0) == b;
      OrZero(b);
    } else if a == 0 && b * Pow2(k) == 0 {
    } else {
      HalfOfShift(b, k);
      OrDisjoint(a / 2, b, k - 1);
      assert b * Pow2(k) == 2 * (b * Pow2(k - 1));
    }
  }

  /** The top bit of a `k + 1`-bit number. */
  lemma {:induction false} AndTopBit(v: nat, k: nat)
    requires v < Pow2(k + 1)
    ensures And(v, Pow2(k)) != 0 <==> v >= Pow2(k)
  {
    if k > 0 && v > 0 {
      AndTopBit(v / 2, k - 1);
    } else if v > 0 {
      assert v == 1;
      assert And(1, 1) == 1;
    }
  }

  lemma {:induction false} LeValueSnoc(s: seq<byte>, b: byte)
    ensures LeValue(s + [b]) == LeValue(s) + b * Pow2(8 * |s|)
  {
    if s == [] {
      assert s + [b] == [b];
      assert LeValue([b]) == b + 256 * LeValue([b][1..]);
    } else {
      LeValueSnoc(s[1..], b);
      assert (s + [b])[1..] == s[1..] + [b];
      Pow2Sum(8, 8 * (|s| - 1));
      Pow2Of8();
      assert 256 * (b * Pow2(8 * (|s| - 1))) == b * Pow2(8 * |s|);
    }
  }

  lemma Pow2Of8()
    ensures Pow2(8) == 256
  {
    assert Pow2(4) == 16;
  }

  lemma {:induction false} LeValueBound(s: seq<byte>)
    ensures LeValue(s) < Pow2(8 * |s|)
  {
    if s != [] {
      LeValueBound(s[1..]);
      Pow2Sum(8, 8 * (|s| - 1));
      Pow2Of8();
    }
  }

  lemma Pow2Of64()
    ensures Pow2(63) == 0x8000_0000_0000_0000 && Pow2(64) == 0x1_0000_0000_0000_0000
  {
    Pow2Of32();
    Pow2Sum(32, 32);
    assert Pow2(64) == 2 * Pow2(63);
  }

  lemma Pow2Of32()
    ensures Pow2(32) == 0x1_0000_0000
  {
    Pow2Of8();
    Pow2Sum(8, 8);
    Pow2Sum(16, 16);
  }

  /** The `n` bytes of `v`, least significant first. */
  function UintBytes(v: nat, n: nat): (s: seq<byte>)
    ensures |s| == n
  {
    if n == 0 then [] else [v % 256] + UintBytes(v / 256, n - 1)
  }

  lemma {:induction false} UintBytesValue(v: nat, n: nat)
    requires v < Pow2(8 * n)
    ensures LeValue(UintBytes(v, n)) == v
  {
    if n > 0 {
      Pow2Sum(8, 8 * (n - 1));
      Pow2Of8();
      UintBytesValue(v / 256, n - 1);
      assert UintBytes(v, n)[1..] == UintBytes(v / 256, n - 1);
    }
  }

  /** Every byte string is the bytes of its value. */
  lemma {:induction false} ValueBytes(s: seq<byte>)
    ensures UintBytes(LeValue(s), |s|) == s
  {
    if s != [] {
      ValueBytes(s[1..]);
      assert LeValue(s) % 256 == s[0] && LeValue(s) / 256 == LeValue(s[1..]);
    }
  }
}
