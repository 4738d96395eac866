/**
 Bit scanning and match lengths: `Bits` of snappy-stubs-internal.h and both versions of
 `FindMatchLength` of snappy-internal.h.
 */
module SnappyMatch {
  import opened Bytes

  /** Bitwise exclusive or. */
  function Xor(a: nat, b: nat): nat
    decreases a + b
  {
    if a == 0 && b == 0 then 0 else 2 * Xor(a / 2, b / 2) + (a % 2 + b % 2) % 2
  }

  /** The index of the lowest set bit. */
  function TrailingZeros(n: nat): nat
    requires n > 0
  {
    if n % 2 == 1 then 0 else 1 + TrailingZeros(n / 2)
  }

  lemma {:induction false} XorIsZero(a: nat, b: nat)
    ensures Xor(a, b) == 0 <==> a == b
    decreases a + b
  {
    if a != 0 || b != 0 {
      XorIsZero(a / 2, b / 2);
    }
  }

  /** Trailing zeros of an exclusive or count the low bits on which the operands agree. */
  lemma {:induction false} TrailingZerosOfXor(a: nat, b: nat, k: nat)
    requires a != b
    ensures Xor(a, b) > 0
    ensures TrailingZeros(Xor(a, b)) >= k <==> LowBits(a, k) == LowBits(b, k)
    decreases k
  {
    hide *;
    XorIsZero(a, b);
    XorHalves(a, b);
    ZerosStep(Xor(a, b));
    LowBitsStep(a, k);
    LowBitsStep(b, k);
    if k > 0 && a % 2 == b % 2 {
      TrailingZerosOfXor(a / 2, b / 2, k - 1);
    }
  }

  lemma XorHalves(a: nat, b: nat)
    ensures Xor(a, b) / 2 == Xor(a / 2, b / 2) && (Xor(a, b) % 2 == 0 <==> a % 2 == b % 2)
  {
    hide *;
    XorStep(a, b);
    LastBit(Xor(a / 2, b / 2), a % 2, b % 2);
  }

  lemma XorStep(a: nat, b: nat)
    ensures Xor(a, b) == 2 * Xor(a / 2, b / 2) + (a % 2 + b % 2) % 2
  {
  }

  lemma LastBit(half: nat, i: nat, j: nat)
    requires i < 2 && j < 2
    ensures var n := 2 * half + (i + j) % 2; n / 2 == half && (n % 2 == 0 <==> i == j)
  {
  }

  lemma ZerosStep(n: nat)
    requires n > 0
    ensures n % 2 == 1 ==> TrailingZeros(n) == 0
    ensures n % 2 == 0 ==> n / 2 > 0 && TrailingZeros(n) == 1 + TrailingZeros(n / 2)
  {
  }

  lemma LowBitsStep(n: nat, k: nat)
    ensures LowBits(n, k) == if k == 0 then 0 else n % 2 + 2 * LowBits(n / 2, k - 1)
  {
  }

  /** `ctz(x ^ y) >> 3` is the index of the first differing byte. */
  lemma FirstDifferingByte(s: seq<byte>, t: seq<byte>) returns (j: nat)
    requires |s| == |t| && LittleEndian(s) != LittleEndian(t)
    ensures Xor(LittleEndian(s), LittleEndian(t)) > 0
    ensures j == TrailingZeros(Xor(LittleEndian(s), LittleEndian(t))) / 8 < |s|
    ensures s[..j] == t[..j] && s[j] != t[j]
  {
    hide *;
    var a, b := LittleEndian(s), LittleEndian(t);
    TrailingZerosOfXor(a, b, 0);
    j := TrailingZeros(Xor(a, b)) / 8;
    TrailingZerosOfXor(a, b, 8 * |s|);
    LittleEndianSplit(s, |s|);
    LittleEndianSplit(t, |s|);
    assert s[..|s|] == s && t[..|s|] == t;
    TrailingZerosOfXor(a, b, 8 * j);
    LittleEndianSplit(s, j);
    LittleEndianSplit(t, j);
    LittleEndianInjective(s[..j], t[..j]);
    TrailingZerosOfXor(a, b, 8 * (j + 1));
    LittleEndianSplit(s, j + 1);
    LittleEndianSplit(t, j + 1);
    assert s[..j + 1] == s[..j] + [s[j]] && t[..j + 1] == t[..j] + [t[j]];
  }

  // Bit scanning without compiler builtins.

  lemma {:induction false} TrailingZerosLowBits(n: nat, k: nat)
    requires n > 0
    ensures LowBits(n, k) == 0 <==> TrailingZeros(n) >= k
    ensures LowBits(n, k) > 0 ==> TrailingZeros(LowBits(n, k)) == TrailingZeros(n)
    decreases k
  {
    hide *;
    var low := LowBits(n, k);
    LowBitsStep(n, k);
    ZerosStep(n);
    if k > 0 {
      LowBitsHalves(n, k);
      if n % 2 == 0 {
        TrailingZerosLowBits(n / 2, k - 1);
      }
      if low > 0 {
        ZerosStep(low);
      }
    }
  }

  lemma LowBitsHalves(n: nat, k: nat)
    requires k > 0
    ensures LowBits(n, k) / 2 == LowBits(n / 2, k - 1) && LowBits(n, k) % 2 == n % 2
  {
  }

  lemma {:induction false} TrailingZerosShiftR(n: nat, k: nat)
    requires LowBits(n, k) == 0 && n > 0
    ensures ShiftR(n, k) > 0 && TrailingZeros(n) == k + TrailingZeros(ShiftR(n, k))
    decreases k
  {
    if k > 0 {
      TrailingZerosShiftR(n / 2, k - 1);
    }
  }

  /** A left shift in a w-bit word keeps the lowest set bit unless it falls off the top. */
  lemma {:induction false} TrailingZerosShiftL(n: nat, s: nat, w: nat)
    requires n > 0 && s <= w
    ensures var x := LowBits(ShiftL(n, s), w);
            && (x == 0 <==> TrailingZeros(n) + s >= w)
            && (x > 0 ==> TrailingZeros(x) == TrailingZeros(n) + s)
    decreases s
  {
    if s == 0 {
      TrailingZerosLowBits(n, w);
    } else {
      TrailingZerosShiftL(n, s - 1, w - 1);
      assert ShiftL(n, s) == 2 * ShiftL(n, s - 1);
      assert LowBits(ShiftL(n, s), w) == 2 * LowBits(ShiftL(n, s - 1), w - 1);
    }
  }

  /** The portable FindLSBSetNonZero counts trailing zeros. */
  method FindLSBSetNonZero(word: uint32) returns (rc: int)
    requires word > 0
    ensures rc == TrailingZeros(word)
  {
    TrailingZerosLowBits(word, 32);
    LowBits32(word);
    var n: nat := word;
    rc := 31;
    var i, shift := 4, 16;
    while i >= 0
      invariant -1 <= i <= 4 && shift == [0, 1, 2, 4, 8, 16][i + 1]
      invariant n > 0 && TrailingZeros(n) == TrailingZeros(word) + (31 - rc)
      invariant (if i == -1 then 31 else 32 - 2 * shift) <= TrailingZeros(n) < 32
    {
      TrailingZerosShiftL(n, shift, 32);
      var x := LowBits(ShiftL(n, shift), 32);
      if x != 0 {
        n := x;
        rc := rc - shift;
      }
      shift := shift / 2;
      i := i - 1;
    }
  }

  method FindLSBSetNonZero64(word: nat) returns (rc: int)
    requires 0 < word < Pow2(64)
    ensures rc == TrailingZeros(word)
  {
    Pow2Values();
    var bottombits := LowBits(word, 32);
    TrailingZerosLowBits(word, 32);
    LowBitsBound(word, 32);
    if bottombits == 0 {
      ShiftRBound(word, 32, 32);
      TrailingZerosShiftR(word, 32);
      rc := FindLSBSetNonZero(ShiftR(word, 32));
      rc := rc + 32;
    } else {
      rc := FindLSBSetNonZero(bottombits);
    }
  }

  lemma {:induction false} ShiftRIsOne(n: nat, k: nat)
    ensures ShiftR(n, k) == 1 <==> Pow2(k) <= n < Pow2(k + 1)
    decreases k
  {
    if k > 0 {
      ShiftRIsOne(n / 2, k - 1);
    }
  }

  /** The portable Log2Floor: the only k with 2^k <= n < 2^(k+1), and -1 for zero. */
  method Log2Floor(n: uint32) returns (log: int)
    ensures n == 0 ==> log == -1
    ensures n > 0 ==> 0 <= log < 32 && Pow2(log) <= n < Pow2(log + 1)
  {
    if n == 0 {
      return -1;
    }
    hide *;
    SearchStart(n);
    log := 0;
    var value: nat := n;
    var i := 4;
    while i >= 0
      invariant -1 <= i <= 4 && log >= 0 && Searching(n, log, i + 1) && value == ShiftR(n, log)
    {
      var shift := Width(i);
      var x := ShiftR(value, shift);
      SearchStep(n, log, i);
      if x != 0 {
        value := x;
        log := log + shift;
      }
      i := i - 1;
    }
    SearchEnd(n, log);
  }

  /** 1 << i */
  function Width(i: nat): nat
    requires i <= 5
  {
    [1, 2, 4, 8, 16, 32][i]
  }

  /** The highest bit of n is one of the Width(i) bits from `log` on. */
  ghost predicate Searching(n: nat, log: nat, i: nat) {
    i <= 5 && log + Width(i) <= 32 && 0 < ShiftR(n, log) < Pow2(Width(i))
  }

  lemma SearchStart(n: uint32)
    requires n > 0
    ensures Searching(n, 0, 5) && ShiftR(n, 0) == n
  {
    Pow2Values();
  }

  lemma SearchStep(n: nat, log: nat, i: nat)
    requires i < 5 && Searching(n, log, i + 1)
    ensures var x := ShiftR(ShiftR(n, log), Width(i));
      && x == ShiftR(n, log + Width(i))
      && Searching(n, if x != 0 then log + Width(i) else log, i)
  {
    hide ShiftR, Pow2;
    var value, shift := ShiftR(n, log), Width(i);
    assert Width(i + 1) == shift + shift;
    ShiftRAdd(n, log, shift);
    ShiftRBound(value, shift, shift);
    ShiftRZero(value, shift);
  }

  lemma SearchEnd(n: nat, log: nat)
    requires Searching(n, log, 0)
    ensures log < 32 && Pow2(log) <= n < Pow2(log + 1)
  {
    Pow2Values();
    hide ShiftR;
    ShiftRIsOne(n, log);
  }

  lemma {:induction false} ShiftRZero(n: nat, k: nat)
    ensures ShiftR(n, k) == 0 <==> n < Pow2(k)
    decreases k
  {
    if k > 0 {
      ShiftRZero(n / 2, k - 1);
    }
  }

  // Match lengths.

  /** The longest n with mem[s1..s1+n] == mem[s2..s2+n] and s2 + n <= limit. */
  ghost predicate IsMatchLength(mem: seq<byte>, s1: nat, s2: nat, limit: nat, n: nat)
    requires s2 <= limit <= |mem| && s1 + (limit - s2) <= |mem|
  {
    && s2 + n <= limit
    && mem[s1..s1 + n] == mem[s2..s2 + n]
    && (s2 + n < limit ==> mem[s1 + n] != mem[s2 + n])
  }

  lemma ExtendMatch(mem: seq<byte>, s1: nat, s2: nat, m: nat, n: nat)
    requires s1 + m + n <= |mem| && s2 + m + n <= |mem|
    requires mem[s1..s1 + m] == mem[s2..s2 + m]
    requires mem[s1 + m..s1 + m + n] == mem[s2 + m..s2 + m + n]
    ensures mem[s1..s1 + (m + n)] == mem[s2..s2 + (m + n)]
  {
    assert mem[s1..s1 + (m + n)] == mem[s1..s1 + m] + mem[s1 + m..s1 + m + n];
    assert mem[s2..s2 + (m + n)] == mem[s2..s2 + m] + mem[s2 + m..s2 + m + n];
  }

  lemma LoadIs(mem: seq<byte>, p: nat, w: nat)
    requires p + w <= |mem|
    ensures Load(mem, p, w) == LittleEndian(mem[p..p + w])
  {
  }

  lemma FrontOfSlice(mem: seq<byte>, p: nat, w: nat, j: nat)
    requires p + w <= |mem| && j < w
    ensures mem[p..p + w][..j] == mem[p..p + j] && mem[p..p + w][j] == mem[p + j]
  {
  }

  /** The first difference between two unequal words is where their bytes stop matching. */
  lemma WordsDiffer(mem: seq<byte>, p: nat, q: nat, w: nat)
    requires p + w <= |mem| && q + w <= |mem|
    requires Load(mem, p, w) != Load(mem, q, w)
    ensures 0 < Xor(Load(mem, q, w), Load(mem, p, w)) < Pow2(8 * w)
    ensures var j := TrailingZeros(Xor(Load(mem, q, w), Load(mem, p, w))) / 8;
            j < w && mem[p + j] != mem[q + j] && mem[p..p + j] == mem[q..q + j]
  {
    hide *;
    LoadIs(mem, p, w);
    LoadIs(mem, q, w);
    var s, t := mem[q..q + w], mem[p..p + w];
    var j := FirstDifferingByte(s, t);
    FrontOfSlice(mem, q, w, j);
    FrontOfSlice(mem, p, w, j);
    WordXorBound(s, t, w);
  }

  lemma WordXorBound(s: seq<byte>, t: seq<byte>, w: nat)
    requires |s| == |t| == w
    ensures Xor(LittleEndian(s), LittleEndian(t)) < Pow2(8 * w)
  {
    hide *;
    LittleEndianBound(s);
    LittleEndianBound(t);
    XorBound(LittleEndian(s), LittleEndian(t), 8 * w);
  }

  lemma {:induction false} XorBound(a: nat, b: nat, k: nat)
    requires a < Pow2(k) && b < Pow2(k)
    ensures Xor(a, b) < Pow2(k)
    decreases k
  {
    if k > 0 {
      XorBound(a / 2, b / 2, k - 1);
    }
  }

  /** The first `matched` bytes at s1 and at `start` agree. */
  ghost predicate Agree(mem: seq<byte>, s1: nat, start: nat, matched: nat) {
    && s1 + matched <= |mem| && start + matched <= |mem|
    && mem[s1..s1 + matched] == mem[start..start + matched]
  }

  lemma AgreeAtFirst(mem: seq<byte>, s1: nat, start: nat)
    requires s1 <= |mem| && start <= |mem|
    ensures Agree(mem, s1, start, 0)
  {
  }

  /** A word that agrees extends the match by its width. */
  lemma MatchedWord(mem: seq<byte>, s1: nat, start: nat, matched: nat, w: nat)
    requires Agree(mem, s1, start, matched) && start + matched + w <= |mem| && s1 + matched + w <= |mem|
    requires Load(mem, start + matched, w) == Load(mem, s1 + matched, w)
    ensures Agree(mem, s1, start, matched + w)
  {
    LittleEndianInjective(mem[start + matched..start + matched + w], mem[s1 + matched..s1 + matched + w]);
    ExtendMatch(mem, s1, start, matched, w);
  }

  /** A word that differs ends the match at its first differing byte. */
  lemma MismatchedWord(mem: seq<byte>, s1: nat, start: nat, limit: nat, matched: nat, w: nat)
    requires Agree(mem, s1, start, matched) && start + matched + w <= limit <= |mem|
    requires s1 + (limit - start) <= |mem|
    requires Load(mem, start + matched, w) != Load(mem, s1 + matched, w)
    ensures 0 < Xor(Load(mem, start + matched, w), Load(mem, s1 + matched, w)) < Pow2(8 * w)
    ensures var j := TrailingZeros(Xor(Load(mem, start + matched, w), Load(mem, s1 + matched, w))) / 8;
            IsMatchLength(mem, s1, start, limit, matched + j) && j < w
  {
    hide Load, Xor, TrailingZeros, Pow2;
    WordsDiffer(mem, s1 + matched, start + matched, w);
    var j := TrailingZeros(Xor(Load(mem, start + matched, w), Load(mem, s1 + matched, w))) / 8;
    ExtendMatch(mem, s1, start, matched, j);
  }

  /** A byte that agrees extends the match; one that differs, or the limit, ends it. */
  lemma NextByte(mem: seq<byte>, s1: nat, start: nat, limit: nat, matched: nat)
    requires Agree(mem, s1, start, matched) && start + matched <= limit <= |mem|
    requires s1 + (limit - start) <= |mem|
    ensures start + matched == limit ==> IsMatchLength(mem, s1, start, limit, matched)
    ensures start + matched < limit ==>
      if mem[s1 + matched] == mem[start + matched] then Agree(mem, s1, start, matched + 1)
      else IsMatchLength(mem, s1, start, limit, matched)
  {
    if start + matched < limit && mem[s1 + matched] == mem[start + matched] {
      ExtendMatch(mem, s1, start, matched, 1);
    }
  }

  /** FindMatchLength for 64-bit little-endian machines. */
  method FindMatchLength(mem: seq<byte>, s1: nat, start: nat, limit: nat) returns (n: nat, lessThan8: bool)
    requires start <= limit <= |mem| && s1 + (limit - start) <= |mem|
    ensures IsMatchLength(mem, s1, start, limit, n)
    ensures lessThan8 <==> n < 8
  {
    hide *;
    var matched := 0;
    AgreeAtFirst(mem, s1, start);
    if start <= limit - 8 {
      var a1, a2 := Load(mem, s1, 8), Load(mem, start, 8);
      if a1 != a2 {
        MismatchedWord(mem, s1, start, limit, 0, 8);
        var bit := FindLSBSetNonZero64(Xor(a2, a1));
        return bit / 8, true;
      } else {
        MatchedWord(mem, s1, start, 0, 8);
        matched := 8;
      }
    }
    while start + matched <= limit - 8
      invariant start + matched <= limit && Agree(mem, s1, start, matched)
      invariant start <= limit - 8 ==> matched >= 8
    {
      var a1, a2 := Load(mem, s1 + matched, 8), Load(mem, start + matched, 8);
      if a2 == a1 {
        MatchedWord(mem, s1, start, matched, 8);
        matched := matched + 8;
      } else {
        MismatchedWord(mem, s1, start, limit, matched, 8);
        var matchingBits := FindLSBSetNonZero64(Xor(a2, a1));
        return matched + matchingBits / 8, false;
      }
    }
    n := MatchTail(mem, s1, start, limit, matched);
    return n, n < 8;
  }

  /** The last bytes, one at a time. */
  method MatchTail(mem: seq<byte>, s1: nat, start: nat, limit: nat, before: nat) returns (matched: nat)
    requires start + before <= limit <= |mem| && s1 + (limit - start) <= |mem| && Agree(mem, s1, start, before)
    ensures IsMatchLength(mem, s1, start, limit, matched) && matched >= before
  {
    hide *;
    matched := before;
    NextByte(mem, s1, start, limit, matched);
    while start + matched < limit
      invariant before <= matched && start + matched <= limit && Agree(mem, s1, start, matched)
      invariant start + matched == limit ==> IsMatchLength(mem, s1, start, limit, matched)
    {
      NextByte(mem, s1, start, limit, matched);
      if mem[s1 + matched] != mem[start + matched] {
        return;
      }
      matched := matched + 1;
      NextByte(mem, s1, start, limit, matched);
    }
  }

  /** The portable FindMatchLength, four bytes at a time, on a little-endian machine. */
  method FindMatchLengthPortable(mem: seq<byte>, s1: nat, start: nat, limit: nat) returns (n: nat, lessThan8: bool)
    requires start <= limit <= |mem| && s1 + (limit - start) <= |mem|
    ensures IsMatchLength(mem, s1, start, limit, n)
    ensures lessThan8 <==> n < 8
  {
    hide *;
    Pow2Values();
    var matched := 0;
    AgreeAtFirst(mem, s1, start);
    while start + matched <= limit - 4 && Load(mem, start + matched, 4) == Load(mem, s1 + matched, 4)
      invariant start + matched <= limit && Agree(mem, s1, start, matched)
    {
      MatchedWord(mem, s1, start, matched, 4);
      matched := matched + 4;
    }
    if start + matched <= limit - 4 {
      MismatchedWord(mem, s1, start, limit, matched, 4);
      var x := Xor(Load(mem, start + matched, 4), Load(mem, s1 + matched, 4));
      var matchingBits := FindLSBSetNonZero(x);
      matched := matched + matchingBits / 8;
    } else {
      NextByte(mem, s1, start, limit, matched);
      while start + matched < limit && mem[s1 + matched] == mem[start + matched]
        invariant start + matched <= limit && Agree(mem, s1, start, matched)
      {
        NextByte(mem, s1, start, limit, matched);
        matched := matched + 1;
      }
      NextByte(mem, s1, start, limit, matched);
    }
    return matched, matched < 8;
  }

  /** A match length is unique, so both versions of FindMatchLength return the same pair. */
  lemma MatchLengthUnique(mem: seq<byte>, s1: nat, s2: nat, limit: nat, m: nat, n: nat)
    requires s2 <= limit <= |mem| && s1 + (limit - s2) <= |mem|
    requires IsMatchLength(mem, s1, s2, limit, m) && IsMatchLength(mem, s1, s2, limit, n)
    ensures m == n
  {
  }
}
