/**
 Bytes, bit shifts on unbounded numbers, and the little-endian reading of a run of bytes. A
 C `char*` into a buffer that is only read is an index into a `seq<byte>`; one into a buffer
 that is written is an index into an `array<byte>`.
 */
module Bytes {

  type byte = x: int | 0 <= x < 256

  type uint16 = x: int | 0 <= x < 0x1_0000

  type uint32 = x: int | 0 <= x < 0x1_0000_0000

  datatype Option<+T> = None | Some(value: T)

  lemma ConcatAssociative<T>(a: seq<T>, b: seq<T>, c: seq<T>)
    ensures (a + b) + c == a + (b + c)
  {
  }

  lemma SplitConcat<T>(s: seq<T>, n: nat)
    requires n <= |s|
    ensures s[0..n] + s[n..] == s
  {
  }

  function Pow2(n: nat): (r: nat)
    ensures r > 0
  {
    if n == 0 then 1 else 2 * Pow2(n - 1)
  }

  /** x << k, without a word width. */
  function ShiftL(x: nat, k: nat): nat
  {
    if k == 0 then x else 2 * ShiftL(x, k - 1)
  }

  /** x >> k. */
  function ShiftR(x: nat, k: nat): nat
  {
    if k == 0 then x else ShiftR(x / 2, k - 1)
  }

  /** The value of the k lowest bits of x. */
  function LowBits(x: nat, k: nat): nat
  {
    if k == 0 then 0 else x % 2 + 2 * LowBits(x / 2, k - 1)
  }

  lemma {:induction false} LowBitsBound(x: nat, k: nat)
    ensures LowBits(x, k) < Pow2(k)
    ensures x < Pow2(k) ==> LowBits(x, k) == x
  {
    if k > 0 {
      LowBitsBound(x / 2, k - 1);
    }
  }

  lemma {:induction false} ShiftRBound(x: nat, a: nat, k: nat)
    requires x < Pow2(a + k)
    ensures ShiftR(x, k) < Pow2(a)
  {
    if k > 0 {
      ShiftRBound(x / 2, a, k - 1);
    }
  }

  lemma {:induction false} ShiftRAdd(x: nat, a: nat, b: nat)
    ensures ShiftR(x, a + b) == ShiftR(ShiftR(x, a), b)
  {
    if a > 0 {
      ShiftRAdd(x / 2, a - 1, b);
    }
  }

  /** Splitting the low bits of a number at bit a. */
  lemma {:induction false} LowBitsAdd(x: nat, a: nat, b: nat)
    ensures LowBits(x, a + b) == LowBits(x, a) + ShiftL(LowBits(ShiftR(x, a), b), a)
  {
    if a > 0 {
      LowBitsAdd(x / 2, a - 1, b);
    }
  }

  /** Shifting left makes room for low bits. */
  lemma {:induction false} JoinBits(low: nat, high: nat, k: nat)
    requires low < Pow2(k)
    ensures LowBits(low + ShiftL(high, k), k) == low
    ensures ShiftR(low + ShiftL(high, k), k) == high
  {
    if k > 0 {
      JoinBits(low / 2, high, k - 1);
      assert (low + ShiftL(high, k)) / 2 == low / 2 + ShiftL(high, k - 1);
    }
  }

  lemma {:induction false} ShiftLAdd(x: nat, a: nat, b: nat)
    ensures ShiftL(x, a + b) == ShiftL(ShiftL(x, a), b)
  {
    if b > 0 {
      ShiftLAdd(x, a, b - 1);
    }
  }

  lemma ShiftLByte(x: nat)
    ensures ShiftL(x, 8) == 256 * x
  {
    assert ShiftL(x, 1) == 2 * x;
    assert ShiftL(x, 2) == 4 * x;
    assert ShiftL(x, 4) == 16 * x;
    assert ShiftL(x, 6) == 64 * x;
  }

  lemma ByteBits(low: byte, high: nat)
    ensures LowBits(low + 256 * high, 8) == low
    ensures ShiftR(low + 256 * high, 8) == high
  {
    Pow2Values();
    ShiftLByte(high);
    JoinBits(low, high, 8);
  }

  lemma LowBits32(x: nat)
    ensures LowBits(x, 32) == x % 0x1_0000_0000
  {
    Pow2Values();
    var q := x / 0x1_0000_0000;
    JoinBits(x % 0x1_0000_0000, q, 32);
    ShiftLAdd(q, 8, 8);
    ShiftLAdd(q, 16, 8);
    ShiftLAdd(q, 24, 8);
    ShiftLByte(q);
    ShiftLByte(256 * q);
    ShiftLByte(0x1_0000 * q);
    ShiftLByte(0x100_0000 * q);
  }

  lemma Pow2Values()
    ensures Pow2(8) == 256 && Pow2(16) == 0x1_0000 && Pow2(32) == 0x1_0000_0000
  {
    Pow2Add8(0);
    Pow2Add8(8);
    Pow2Add8(16);
    Pow2Add8(24);
  }

  lemma Pow2Add8(k: nat)
    ensures Pow2(k + 8) == 256 * Pow2(k)
  {
    assert Pow2(k + 2) == 4 * Pow2(k);
    assert Pow2(k + 4) == 4 * Pow2(k + 2);
    assert Pow2(k + 6) == 4 * Pow2(k + 4);
  }

  /** The value of a run of bytes, least significant byte first. */
  function LittleEndian(s: seq<byte>): nat
  {
    if s == [] then 0 else s[0] + 256 * LittleEndian(s[1..])
  }

  /** UNALIGNED_LOAD32 and UNALIGNED_LOAD64 on a little-endian machine. */
  function Load(mem: seq<byte>, p: nat, n: nat): nat
    requires p + n <= |mem|
  {
    LittleEndian(mem[p..p + n])
  }

  lemma {:induction false} LittleEndianBound(s: seq<byte>)
    ensures LittleEndian(s) < Pow2(8 * |s|)
  {
    if s != [] {
      LittleEndianBound(s[1..]);
      Pow2Add8(8 * |s[1..]|);
    }
  }

  lemma LittleEndianCons(s: seq<byte>, j: nat)
    requires 1 <= j <= |s|
    ensures LittleEndian(s) == s[0] + 256 * LittleEndian(s[1..])
    ensures LittleEndian(s[..j]) == s[0] + 256 * LittleEndian(s[1..][..j - 1])
    ensures s[1..][j - 1..] == s[j..]
  {
    assert s[1..][..j - 1] == s[..j][1..];
  }

  /** The low bytes of a value are the value of the low bytes, and so for the high bytes. */
  lemma {:induction false} LittleEndianSplit(s: seq<byte>, j: nat)
    requires j <= |s|
    ensures LowBits(LittleEndian(s), 8 * j) == LittleEndian(s[..j])
    ensures ShiftR(LittleEndian(s), 8 * j) == LittleEndian(s[j..])
  {
    if j == 0 {
      assert s[0..] == s;
    } else {
      hide *;
      var tail := s[1..];
      LittleEndianSplit(tail, j - 1);
      LittleEndianCons(s, j);
      ByteBits(s[0], LittleEndian(tail));
      LowBitsAdd(LittleEndian(s), 8, 8 * (j - 1));
      ShiftRAdd(LittleEndian(s), 8, 8 * (j - 1));
      ShiftLByte(LittleEndian(tail[..j - 1]));
    }
  }

  lemma {:induction false} LittleEndianInjective(s: seq<byte>, t: seq<byte>)
    requires |s| == |t|
    ensures LittleEndian(s) == LittleEndian(t) <==> s == t
  {
    if s != [] {
      LittleEndianInjective(s[1..], t[1..]);
      assert s == [s[0]] + s[1..] && t == [t[0]] + t[1..];
    }
  }
}
