/**
 Segwit addresses (BIP 173, "Segwit address format") as in segwit_addr.c: a version and a
 program, regrouped from bytes into five-bit symbols, in a Bech32 string.
 */
module Segwit {
  import opened Bytes
  import opened Radix
  import opened Bech32Checksum
  import opened Bech32

  // Windows on the bits of a number.

  lemma {:induction false} ShiftLIsMul(x: nat, k: nat)
    ensures ShiftL(x, k) == x * Pow2(k)
    decreases k
  {
    if k > 0 {
      ShiftLIsMul(x, k - 1);
      MulAssociative(x, Pow2(k - 1), 2);
    }
  }

  lemma {:induction false} LowOfLow(x: nat, n: nat, b: nat)
    requires b <= n
    ensures LowBits(LowBits(x, n), b) == LowBits(x, b)
    decreases b
  {
    if b > 0 {
      LowOfLow(x / 2, n - 1, b - 1);
      assert LowBits(x, n) / 2 == LowBits(x / 2, n - 1) && LowBits(x, n) % 2 == x % 2;
    }
  }

  /** A window of b bits at a does not depend on bits from a + b on. */
  lemma {:induction false} Window(x: nat, n: nat, a: nat, b: nat)
    requires a + b <= n
    ensures LowBits(ShiftR(LowBits(x, n), a), b) == LowBits(ShiftR(x, a), b)
    decreases a
  {
    if a == 0 {
      LowOfLow(x, n, b);
    } else {
      Window(x / 2, n - 1, a - 1, b);
      assert LowBits(x, n) / 2 == LowBits(x / 2, n - 1);
    }
  }

  lemma {:induction false} LowOfShifted(x: nat, n: nat, k: nat, b: nat)
    requires b <= n
    ensures LowBits(ShiftL(LowBits(x, n), k), b) == LowBits(ShiftL(x, k), b)
    decreases k + b
  {
    if k == 0 {
      LowOfLow(x, n, b);
    } else if b > 0 {
      LowOfShifted(x, n, k - 1, b - 1);
      Doubled(ShiftL(LowBits(x, n), k - 1), b);
      Doubled(ShiftL(x, k - 1), b);
    }
  }

  lemma Doubled(y: nat, b: nat)
    requires b > 0
    ensures LowBits(2 * y, b) == 2 * LowBits(y, b - 1)
  {
    assert (2 * y) % 2 == 0 && (2 * y) / 2 == y;
    assert LowBits(2 * y, b) == (2 * y) % 2 + 2 * LowBits((2 * y) / 2, b - 1);
  }

  /** A number is its low bits and the rest. */
  lemma SplitBits(x: nat, k: nat)
    ensures x == LowBits(x, k) + ShiftL(ShiftR(x, k), k)
  {
    if k > 0 {
      SplitBits(x / 2, k - 1);
    }
  }

  // Regrouping.

  /** The two ways convert_bits is called. */
  predicate Widths(inbits: nat, outbits: nat) {
    (inbits == 8 && outbits == 5) || (inbits == 5 && outbits == 8)
  }

  /** The number of bits in n groups. */
  function BitsIn(width: nat, n: nat): nat {
    if width == 8 then 8 * n else 5 * n
  }

  lemma WidthFacts(inbits: nat, outbits: nat)
    requires Widths(inbits, outbits)
    ensures inbits + outbits == 13 && 5 <= inbits <= 8 && 5 <= outbits <= 8
    ensures Pow2(5) == 32 && Pow2(8) == 256 && Pow2(inbits) <= 256 && Pow2(outbits) <= 256
  {
    Pow2Values();
    assert Pow2(2) == 4 && Pow2(4) == 16;
  }

  /** The number that the first groups denote. */
  function Number(input: seq<nat>, inbits: nat): nat {
    Value(Pow2(inbits), input)
  }

  /** val << inbits | d, in 32 bits. */
  function Shifted32(val: nat, inbits: nat, d: nat): nat {
    LowBits(ShiftL(val, inbits), 32) + d
  }

  lemma Shifted32Is(val: nat, inbits: nat, d: nat)
    ensures Shifted32(val, inbits, d) == LowBits(ShiftL(val, inbits), 32) + d
  {
  }

  /** Wrapping the accumulator keeps its low 32 bits right. */
  lemma AccumulatorWraps(v: nat, inbits: nat, outbits: nat, d: nat)
    requires Widths(inbits, outbits) && d < Pow2(inbits)
    ensures Shifted32(LowBits(v, 32), inbits, d) == LowBits(v * Pow2(inbits) + d, 32) < 0x1_0000_0000
  {
    hide *;
    var p := Pow2(inbits);
    WidthFacts(inbits, outbits);
    WidthIs(inbits, outbits);
    Shifted32Is(LowBits(v, 32), inbits, d);
    ShiftLIsMul(LowBits(v, 32), inbits);
    LowBits32(v);
    LowBits32(LowBits(v, 32) * p);
    LowBits32(v * p + d);
    if inbits == 8 {
      WrapByte(v, d);
    } else {
      WrapSymbol(v, d);
    }
  }

  lemma WidthIs(inbits: nat, outbits: nat)
    requires Widths(inbits, outbits)
    ensures (inbits == 8 && outbits == 5) || (inbits == 5 && outbits == 8)
  {
  }

  lemma WrapByte(v: nat, d: nat)
    requires d < 256
    ensures (v % 0x1_0000_0000) * 256 % 0x1_0000_0000 + d == (v * 256 + d) % 0x1_0000_0000 < 0x1_0000_0000
  {
    var q, r := v / 0x1_0000_0000, v % 0x1_0000_0000;
    var a, b := r * 256 / 0x1_0000_0000, r * 256 % 0x1_0000_0000;
    assert b + d < 0x1_0000_0000;
    assert v * 256 + d == (q * 256 + a) * 0x1_0000_0000 + (b + d);
    DivMod(0x1_0000_0000, q * 256 + a, b + d);
  }

  lemma WrapSymbol(v: nat, d: nat)
    requires d < 32
    ensures (v % 0x1_0000_0000) * 32 % 0x1_0000_0000 + d == (v * 32 + d) % 0x1_0000_0000 < 0x1_0000_0000
  {
    var q, r := v / 0x1_0000_0000, v % 0x1_0000_0000;
    var a, b := r * 32 / 0x1_0000_0000, r * 32 % 0x1_0000_0000;
    assert b + d < 0x1_0000_0000;
    assert v * 32 + d == (q * 32 + a) * 0x1_0000_0000 + (b + d);
    DivMod(0x1_0000_0000, q * 32 + a, b + d);
  }

  /** After i groups in: the groups out denote all but the last `bits` bits. */
  ghost predicate Converting(input: seq<nat>, i: nat, inbits: nat, digits: seq<nat>, outbits: nat,
        bits: nat, val: nat)
  {
    && i <= |input| && BitsIn(inbits, i) == BitsIn(outbits, |digits|) + bits
    && Digits(Pow2(outbits), digits)
    && val == LowBits(Number(input[..i], inbits), 32)
    && Value(Pow2(outbits), digits) == ShiftR(Number(input[..i], inbits), bits)
  }

  lemma StartConverting(input: seq<nat>, inbits: nat, outbits: nat)
    ensures Converting(input, 0, inbits, [], outbits, 0, 0)
  {
    LowBitsBound(0, 32);
  }

  /** Taking in one group. */
  lemma TakeGroup(input: seq<nat>, i: nat, inbits: nat, digits: seq<nat>, outbits: nat, bits: nat, val: nat)
    requires Widths(inbits, outbits) && Converting(input, i, inbits, digits, outbits, bits, val)
    requires i < |input| && Digits(Pow2(inbits), input)
    ensures Converting(input, i + 1, inbits, digits, outbits, bits + inbits, Shifted32(val, inbits, input[i]))
  {
    var v := Number(input[..i], inbits);
    assert input[..i + 1] == input[..i] + [input[i]];
    assert Number(input[..i + 1], inbits) == v * Pow2(inbits) + input[i] by {
      ValueSnoc(Pow2(inbits), input[..i], input[i]);
    }
    assert input[i] < Pow2(inbits);
    hide Value, Pow2, LowBits, ShiftR, Shifted32, Digits, Number;
    AccumulatorWraps(v, inbits, outbits, input[i]);
    ShiftLIsMul(v, inbits);
    JoinBits(input[i], v, inbits);
    ShiftRAdd(v * Pow2(inbits) + input[i], inbits, bits);
  }

  /** (val >> bits) & maxv */
  function Group(val: nat, bits: nat, outbits: nat): nat {
    LowBits(ShiftR(val, bits), outbits)
  }

  lemma GroupBound(val: nat, bits: nat, outbits: nat)
    ensures Group(val, bits, outbits) < Pow2(outbits)
  {
    LowBitsBound(ShiftR(val, bits), outbits);
  }

  /** Giving out one group. */
  lemma GiveGroup(input: seq<nat>, i: nat, inbits: nat, digits: seq<nat>, outbits: nat, bits: nat, val: nat)
    requires Widths(inbits, outbits) && Converting(input, i, inbits, digits, outbits, bits, val)
    requires outbits <= bits <= 32
    ensures Converting(input, i, inbits, digits + [Group(val, bits - outbits, outbits)], outbits, bits - outbits, val)
  {
    var v, rest, base := Number(input[..i], inbits), bits - outbits, Pow2(outbits);
    var d := Group(val, rest, outbits);
    GroupBound(val, rest, outbits);
    assert Digits(base, digits + [d]);
    ValueSnoc(base, digits, d);
    assert d == LowBits(ShiftR(LowBits(v, 32), rest), outbits);
    hide Value, Pow2, LowBits, ShiftR, Digits, Number, Group;
    Window(v, 32, rest, outbits);
    ShiftRAdd(v, rest, outbits);
    SplitBits(ShiftR(v, rest), outbits);
    ShiftLIsMul(ShiftR(v, bits), outbits);
  }

  // What regrouping means.

  /** `symbols` are the bits of `bytes` in groups of five, filled up with zero bits. */
  ghost predicate Regrouped(bytes: seq<byte>, symbols: seq<Symbol>) {
    && |symbols| == (8 * |bytes| + 4) / 5
    && Value(32, symbols) == ShiftL(Value(256, bytes), 5 * |symbols| - 8 * |bytes|)
  }

  /** What 5-to-8 regrouping without padding accepts: a remainder of fewer than five zero bits. */
  ghost predicate NoPaddingNeeded(symbols: seq<Symbol>) {
    var rest := 5 * |symbols| % 8;
    rest < 5 && LowBits(Value(32, symbols), rest) == 0
  }

  /** `bytes` are the whole bytes in the bits of `symbols`. */
  ghost predicate WholeBytes(symbols: seq<Symbol>, bytes: seq<byte>) {
    && |bytes| == 5 * |symbols| / 8
    && Value(256, bytes) == ShiftR(Value(32, symbols), 5 * |symbols| % 8)
  }

  lemma ZeroFill(x: nat, k: nat)
    ensures ShiftR(ShiftL(x, k), k) == x && LowBits(ShiftL(x, k), k) == 0
  {
    Pow2Positive(k);
    JoinBits(0, x, k);
  }

  lemma Pow2Positive(k: nat)
    ensures 0 < Pow2(k)
  {
  }

  /**
     5-to-8 regrouping accepts exactly what 8-to-5 regrouping gives, and undoes it.
   */
  lemma RegroupingIsBijective(symbols: seq<Symbol>, bytes: seq<byte>)
    ensures Regrouped(bytes, symbols) <==> NoPaddingNeeded(symbols) && WholeBytes(symbols, bytes)
  {
    hide Value, ShiftL, ShiftR, LowBits;
    if Regrouped(bytes, symbols) {
      assert 5 * |symbols| / 8 == |bytes| && 5 * |symbols| % 8 == 5 * |symbols| - 8 * |bytes|;
      ZeroFill(Value(256, bytes), 5 * |symbols| - 8 * |bytes|);
    }
    if NoPaddingNeeded(symbols) && WholeBytes(symbols, bytes) {
      SplitBits(Value(32, symbols), 5 * |symbols| % 8);
    }
  }

  /** The whole bytes of some symbols are unique. */
  lemma RegroupingUnique(symbols: seq<Symbol>, a: seq<byte>, b: seq<byte>)
    requires Regrouped(a, symbols) && Regrouped(b, symbols)
    ensures a == b
  {
    RegroupingIsBijective(symbols, a);
    RegroupingIsBijective(symbols, b);
    assert Digits(256, a) && Digits(256, b);
    hide Value, ShiftL, ShiftR, LowBits;
    ValueInjective(256, a, b);
  }

  // The regrouping loop.

  lemma {:induction false} LowBitsShiftL(x: nat, k: nat, b: nat)
    ensures LowBits(ShiftL(x, k), k + b) == ShiftL(LowBits(x, b), k)
    ensures ShiftL(x, k) == 0 <==> x == 0
    decreases k
  {
    if k > 0 {
      LowBitsShiftL(x, k - 1, b);
      Doubled(ShiftL(x, k - 1), k + b);
    }
  }

  /** (val << (outbits - bits)) & maxv, in 32 bits: the bits left over, moved up. */
  function LeftOver(val: nat, bits: nat, outbits: nat): nat
    requires bits <= outbits
  {
    LowBits(LowBits(ShiftL(val, outbits - bits), 32), outbits)
  }

  lemma LeftOverUnfold(val: nat, bits: nat, outbits: nat)
    requires bits <= outbits
    ensures LeftOver(val, bits, outbits) == LowBits(LowBits(ShiftL(val, outbits - bits), 32), outbits)
  {
  }

  lemma LeftOverIs(v: nat, bits: nat, outbits: nat)
    requires bits <= outbits <= 32
    ensures LeftOver(LowBits(v, 32), bits, outbits) == ShiftL(LowBits(v, bits), outbits - bits) < Pow2(outbits)
    ensures LeftOver(LowBits(v, 32), bits, outbits) == 0 <==> LowBits(v, bits) == 0
  {
    hide *;
    var k := outbits - bits;
    LeftOverUnfold(LowBits(v, 32), bits, outbits);
    LowOfLow(ShiftL(LowBits(v, 32), k), 32, outbits);
    LowOfShifted(v, 32, k, outbits);
    LowBitsShiftL(v, k, bits);
    LowBitsShiftL(LowBits(v, bits), k, 0);
    LowBitsBound(ShiftL(v, k), outbits);
  }

  /** The last group of a padded regrouping. */
  lemma PadGroup(input: seq<nat>, inbits: nat, digits: seq<nat>, outbits: nat, bits: nat, val: nat)
    requires Widths(inbits, outbits) && Converting(input, |input|, inbits, digits, outbits, bits, val)
      && bits <= outbits
    ensures var d := LeftOver(val, bits, outbits);
      d < Pow2(outbits) && Value(Pow2(outbits), digits + [d]) == ShiftL(Number(input, inbits), outbits - bits)
  {
    hide *;
    ConvertingFacts(input, |input|, inbits, digits, outbits, bits, val);
    var v, k := Number(input, inbits), outbits - bits;
    WidthFacts(inbits, outbits);
    LeftOverIs(v, bits, outbits);
    ValueSnoc(Pow2(outbits), digits, LeftOver(val, bits, outbits));
    SplitBits(v, bits);
    ShiftLIsMul(ShiftR(v, bits), outbits);
    ShiftLSum(LowBits(v, bits), ShiftL(ShiftR(v, bits), bits), k);
    ShiftLAdd(ShiftR(v, bits), bits, k);
  }

  lemma {:induction false} ShiftLSum(a: nat, b: nat, k: nat)
    ensures ShiftL(a + b, k) == ShiftL(a, k) + ShiftL(b, k)
    decreases k
  {
    if k > 0 {
      ShiftLSum(a, b, k - 1);
    }
  }

  /** How many groups come out. */
  function Groups(inbits: nat, n: nat): nat {
    if inbits == 8 then (8 * n + 4) / 5 else 5 * n / 8
  }

  lemma GroupFits(inbits: nat, outbits: nat, i: nat, n: nat, outlen: nat, bits: nat)
    requires Widths(inbits, outbits) && i <= n && BitsIn(inbits, i) == BitsIn(outbits, outlen) + bits
    ensures bits >= outbits ==> outlen < Groups(inbits, n)
    ensures bits > 0 && inbits == 8 ==> outlen < Groups(inbits, n)
    ensures outlen <= Groups(inbits, n)
    ensures i == n && bits < outbits ==> Groups(inbits, n) == (if inbits == 8 && bits > 0 then outlen + 1 else outlen)
    ensures i == n && bits < outbits && inbits == 5 ==> bits == 5 * n % 8
    ensures i == n && bits < outbits && inbits == 8 ==>
      bits == (if bits == 0 then 5 * outlen - 8 * n else 5 - (5 * (outlen + 1) - 8 * n))
  {
  }

  lemma ConvertingFacts(input: seq<nat>, i: nat, inbits: nat, digits: seq<nat>, outbits: nat, bits: nat, val: nat)
    requires Converting(input, i, inbits, digits, outbits, bits, val)
    ensures i <= |input| && BitsIn(inbits, i) == BitsIn(outbits, |digits|) + bits && Digits(Pow2(outbits), digits)
    ensures val == LowBits(Number(input[..i], inbits), 32)
    ensures Value(Pow2(outbits), digits) == ShiftR(Number(input[..i], inbits), bits)
    ensures i == |input| ==> input[..i] == input
  {
    hide Number, Value, ShiftR, Pow2, LowBits;
  }

  /** Store one group. */
  method PutGroup(out: array<byte>, base: nat, outlen: nat, d: byte)
    requires base + outlen < out.Length
    modifies out
    ensures out[base..base + (outlen + 1)] == old(out[base..base + outlen]) + [d]
    ensures out[..base] == old(out[..base])
  {
    out[base + outlen] := d;
    assert out[base..base + outlen] == old(out[base..base + outlen]);
    assert out[base..base + (outlen + 1)] == out[base..base + outlen] + [out[base + outlen]];
  }

  /** The loop of convert_bits: all whole groups. */
  method ConvertGroups(out: array<byte>, base: nat, outbits: nat, input: seq<byte>, inbits: nat)
    returns (outlen: nat, bits: nat, val: nat)
    requires Widths(inbits, outbits) && Digits(Pow2(inbits), input)
    requires base + Groups(inbits, |input|) <= out.Length
    modifies out
    ensures base + outlen <= out.Length && bits < outbits && out[..base] == old(out[..base])
    ensures Converting(input, |input|, inbits, out[base..base + outlen], outbits, bits, val)
  {
    hide *;
    WidthFacts(inbits, outbits);
    StartConverting(input, inbits, outbits);
    assert out[base..base] == [];
    var i := 0;
    outlen, bits, val := 0, 0, 0;
    while i < |input|
      invariant i <= |input| && bits < outbits && base + outlen <= out.Length && out[..base] == old(out[..base])
      invariant Converting(input, i, inbits, out[base..base + outlen], outbits, bits, val)
    {
      TakeGroup(input, i, inbits, out[base..base + outlen], outbits, bits, val);
      val := Shifted32(val, inbits, input[i]);
      bits := bits + inbits;
      i := i + 1;
      while bits >= outbits
        invariant bits <= 32 && base + outlen <= out.Length && out[..base] == old(out[..base])
        invariant Converting(input, i, inbits, out[base..base + outlen], outbits, bits, val)
      {
        ConvertingFacts(input, i, inbits, out[base..base + outlen], outbits, bits, val);
        GroupFits(inbits, outbits, i, |input|, outlen, bits);
        GiveGroup(input, i, inbits, out[base..base + outlen], outbits, bits, val);
        bits := bits - outbits;
        GroupBound(val, bits, outbits);
        PutGroup(out, base, outlen, Group(val, bits, outbits));
        outlen := outlen + 1;
      }
    }
  }

  /** convert_bits(…, 5, …, 8, 1) */
  method ToSymbols(out: array<byte>, base: nat, input: seq<byte>) returns (outlen: nat)
    requires base + (8 * |input| + 4) / 5 <= out.Length
    modifies out
    ensures base + outlen <= out.Length && out[..base] == old(out[..base])
    ensures FiveBits(out[base..base + outlen]) && Regrouped(input, SymbolsOf(out[base..base + outlen]))
  {
    hide *;
    BytesAreDigits(input);
    GroupsOf(|input|);
    var bits, val;
    outlen, bits, val := ConvertGroups(out, base, 5, input, 8);
    ghost var digits := out[base..base + outlen];
    ConvertingFacts(input, |input|, 8, digits, 5, bits, val);
    GroupFits(8, 5, |input|, |input|, outlen, bits);
    if bits != 0 {
      PadGroup(input, 8, digits, 5, bits, val);
      WidthFacts(8, 5);
      PutGroup(out, base, outlen, LeftOver(val, bits, 5));
      outlen := outlen + 1;
    }
    SymbolsAreRegrouped(input, digits, bits, val, out[base..base + outlen]);
  }

  lemma BytesAreDigits(input: seq<byte>)
    ensures Widths(8, 5) && Digits(Pow2(8), input)
  {
    Pow2Values();
  }

  lemma GroupsOf(n: nat)
    ensures Groups(8, n) == (8 * n + 4) / 5 && Groups(5, n) == 5 * n / 8
  {
  }

  lemma SymbolsAreRegrouped(input: seq<byte>, digits: seq<nat>, bits: nat, val: nat, symbols: seq<byte>)
    requires Converting(input, |input|, 8, digits, 5, bits, val) && bits < 5
    requires bits == 0 ==> symbols == digits
    requires bits > 0 ==> symbols == digits + [LeftOver(val, bits, 5)]
    ensures FiveBits(symbols) && Regrouped(input, SymbolsOf(symbols))
  {
    hide *;
    WidthFacts(8, 5);
    BytesAreDigits(input);
    GroupsOf(|input|);
    ConvertingFacts(input, |input|, 8, digits, 5, bits, val);
    GroupFits(8, 5, |input|, |input|, |digits|, bits);
    PadGroup(input, 8, digits, 5, bits, val);
    NumberIs(input, 8);
    NoShift(Value(256, input));
    AllFiveBits(digits, symbols);
    RegroupedIs(input, symbols);
  }

  lemma NumberIs(input: seq<nat>, inbits: nat)
    ensures Number(input, inbits) == Value(Pow2(inbits), input)
  {
  }

  lemma AllFiveBits(digits: seq<nat>, symbols: seq<byte>)
    requires Digits(32, digits)
    ensures symbols == digits ==> FiveBits(symbols)
    ensures |symbols| == |digits| + 1 && symbols[..|digits|] == digits && symbols[|digits|] < 32 ==> FiveBits(symbols)
  {
    assert symbols == digits ==> FiveBits(symbols);
    if |symbols| == |digits| + 1 && symbols[..|digits|] == digits && symbols[|digits|] < 32 {
      assert forall i :: 0 <= i < |digits| ==> symbols[i] == symbols[..|digits|][i] == digits[i];
    }
  }

  lemma RegroupedIs(bytes: seq<byte>, symbols: seq<byte>)
    requires FiveBits(symbols) && |symbols| == (8 * |bytes| + 4) / 5
    requires Value(32, symbols) == ShiftL(Value(256, bytes), 5 * |symbols| - 8 * |bytes|)
    ensures Regrouped(bytes, SymbolsOf(symbols))
  {
    hide Value, ShiftL;
  }

  lemma NoShift(x: nat)
    ensures ShiftL(x, 0) == x == ShiftR(x, 0)
  {
  }

  /** convert_bits(…, 8, …, 5, 0) */
  method ToBytes(out: array<byte>, input: seq<Symbol>) returns (ok: bool, outlen: nat)
    requires 5 * |input| / 8 <= out.Length
    modifies out
    ensures outlen <= out.Length && WholeBytes(input, out[..outlen])
    ensures ok <==> NoPaddingNeeded(input)
  {
    hide *;
    SymbolsAreDigits(input);
    GroupsOf(|input|);
    var bits, val;
    outlen, bits, val := ConvertGroups(out, 0, 8, input, 5);
    assert out[0..0 + outlen] == out[..outlen];
    BytesAreWhole(input, out[..outlen], bits, val);
    ok := !(LeftOver(val, bits, 8) != 0 || bits >= 5);
  }

  lemma SymbolsAreDigits(input: seq<Symbol>)
    ensures Widths(5, 8) && Digits(Pow2(5), input)
  {
    WidthFacts(5, 8);
  }

  lemma BytesAreWhole(input: seq<Symbol>, bytes: seq<byte>, bits: nat, val: nat)
    requires Converting(input, |input|, 5, bytes, 8, bits, val) && bits < 8
    ensures WholeBytes(input, bytes)
    ensures NoPaddingNeeded(input) <==> LeftOver(val, bits, 8) == 0 && bits < 5
  {
    WidthFacts(5, 8);
    ConvertingFacts(input, |input|, 5, bytes, 8, bits, val);
    GroupFits(5, 8, |input|, |input|, |bytes|, bits);
    assert Number(input, 5) == Value(Pow2(5), input);
    hide Value, ShiftL, ShiftR, LowBits, Pow2, LeftOver, Number, Converting, Digits;
    LeftOverIs(Value(32, input), bits, 8);
  }

  // Addresses.

  predicate ProgramSize(witver: int, n: nat) {
    2 <= n <= 40 && (witver == 0 ==> n == 20 || n == 32)
  }

  /** The address stands for this version and program under this human-readable part. */
  ghost predicate Means(addr: string, hrp: string, witver: Symbol, prog: seq<byte>) {
    && WellFormed(addr) && Shaped(addr) && LastOne(addr) >= 1 && |DataPart(addr)| >= 6 && AllInCharset(DataPart(addr))
    && DecodedHrp(addr) == hrp
    && DecodedData(addr) != [] && DecodedData(addr)[0] == witver <= 16
    && Regrouped(prog, DecodedData(addr)[1..])
    && ProgramSize(witver, |prog|)
  }

  /** An address stands for at most one version and program. */
  lemma MeaningUnique(addr: string, hrp: string, v: Symbol, p: seq<byte>, w: Symbol, q: seq<byte>)
    requires Means(addr, hrp, v, p) && Means(addr, hrp, w, q)
    ensures v == w && p == q
  {
    hide WellFormed, Shaped, LastOne, AllInCharset, DecodedHrp, Regrouped;
    RegroupingUnique(DecodedData(addr)[1..], p, q);
  }

  /** The string that an address for this version and program must be. */
  ghost predicate IsAddress(addr: string, hrp: string, witver: Symbol, prog: seq<byte>) {
    exists symbols: seq<Symbol> :: Regrouped(prog, symbols) && Encodable(hrp, [witver] + symbols)
      && addr == BechString(hrp, [witver] + symbols)
  }

  /**
     An address means what it was made from exactly if the human-readable part is not empty
     and the version and the program's size are allowed.
   */
  lemma AddressMeans(addr: string, hrp: string, witver: Symbol, prog: seq<byte>)
    requires IsAddress(addr, hrp, witver, prog)
    ensures Means(addr, hrp, witver, prog) <==> hrp != "" && witver <= 16 && ProgramSize(witver, |prog|)
  {
    hide WellFormed, Shaped, LastOne, AllInCharset, DecodedHrp, DecodedData, Regrouped, Encodable, BechString,
      ProgramSize;
    var symbols: seq<Symbol> :| Regrouped(prog, symbols) && Encodable(hrp, [witver] + symbols)
      && addr == BechString(hrp, [witver] + symbols);
    DecodeEncoded(hrp, [witver] + symbols);
    if hrp != "" {
      ShapedFacts(addr);
      assert ([witver] + symbols)[1..] == symbols;
    }
  }

  /** The parts of a meaning, one by one. */
  lemma MeansIs(addr: string, hrp: string, witver: Symbol, prog: seq<byte>)
    requires Shaped(addr) && LastOne(addr) >= 1 && |DataPart(addr)| >= 6 && AllInCharset(DataPart(addr))
    ensures Means(addr, hrp, witver, prog) <==>
      && WellFormed(addr) && DecodedHrp(addr) == hrp && DecodedData(addr) != [] && DecodedData(addr)[0] == witver <= 16
      && Regrouped(prog, DecodedData(addr)[1..]) && ProgramSize(witver, |prog|)
  {
    hide WellFormed, Shaped, LastOne, AllInCharset, DecodedHrp, DecodedData, Regrouped, ProgramSize;
  }

  function AddressSize(hrp: string, witprog: seq<byte>): nat {
    |hrp| + 8 + (8 * |witprog| + 4) / 5
  }

  /** What segwit_addr_encode accepts. */
  ghost predicate Acceptable(hrp: string, witver: int, n: nat) {
    && witver <= 16 && witver % 256 < 32 && ProgramSize(witver, n)
    && HrpChars(hrp) && !HasUpper(hrp) && |hrp| + 8 + (8 * n + 4) / 5 <= 90
  }

  lemma AcceptableIs(hrp: string, witver: int, n: nat)
    ensures Acceptable(hrp, witver, n) <==>
      (witver <= 16 && witver % 256 < 32 && ProgramSize(witver, n)
       && HrpChars(hrp) && !HasUpper(hrp) && |hrp| + 8 + (8 * n + 4) / 5 <= 90)
  {
  }

  /** What is accepted for encoding, in numerals. */
  lemma AcceptedExactly(hrp: string, witver: int, n: nat)
    ensures Acceptable(hrp, witver, n) <==>
      && witver <= 16 && witver % 256 < 32
      && 2 <= n <= 40 && (witver == 0 ==> n == 20 || n == 32)
      && (forall i :: 0 <= i < |hrp| ==> 33 <= hrp[i] as int <= 126 && !(65 <= hrp[i] as int <= 90))
      && |hrp| + 8 + (8 * n + 4) / 5 <= 90
  {
    assert HasUpper(hrp) <==> exists i :: 0 <= i < |hrp| && IsUpper(hrp[i]);
    assert forall i :: 0 <= i < |hrp| ==> (IsUpper(hrp[i]) <==> 65 <= hrp[i] as int <= 90);
  }

  /** Each way in which the round trip fails can be come by: an empty part, and a negative version. */
  lemma NotAllRoundTrip()
    ensures Acceptable("", 0, 20) && Acceptable("bc", -256, 20)
  {
  }

  /**
     segwit_addr_encode. A negative version is not refused: its low eight bits are used.
   */
  method EncodeAddress(output: array<char>, hrp: string, witver: int, witprog: seq<byte>) returns (ok: bool)
    requires |hrp| + 73 <= output.Length
    modifies output
    ensures ok <==> Acceptable(hrp, witver, |witprog|)
    ensures ok ==> witver % 256 < 32 && AddressSize(hrp, witprog) < output.Length
    ensures ok ==> output[AddressSize(hrp, witprog)] == '\0'
    ensures ok ==> IsAddress(output[..AddressSize(hrp, witprog)], hrp, witver % 256, witprog)
  {
    hide *;
    ProgramSizeIs(witver, |witprog|);
    AcceptableIs(hrp, witver, |witprog|);
    AddressSizeIs(hrp, witprog);
    if witver > 16 {
      return false;
    }
    if witver == 0 && |witprog| != 20 && |witprog| != 32 {
      return false;
    }
    if |witprog| < 2 || |witprog| > 40 {
      return false;
    }
    var data := new byte[65];
    data[0] := witver % 256;
    var datalen := ToSymbols(data, 1, witprog);
    ghost var symbols := data[1..1 + datalen];
    assert data[..1] == [data[0]];
    assert data[..1 + datalen] == [data[0]] + symbols;
    RegroupedSize(witprog, SymbolsOf(symbols));
    EncodableParts(hrp, data[..1 + datalen]);
    FirstSymbol(data[0], symbols);
    ok := Encode(output, hrp, data[..1 + datalen]);
    if ok {
      AddressIs(hrp, data[0], symbols, witprog);
    }
  }

  lemma AddressSizeIs(hrp: string, witprog: seq<byte>)
    ensures AddressSize(hrp, witprog) == |hrp| + 8 + (8 * |witprog| + 4) / 5
  {
  }

  lemma ProgramSizeIs(witver: int, n: nat)
    ensures ProgramSize(witver, n) <==> 2 <= n <= 40 && (witver == 0 ==> n == 20 || n == 32)
  {
  }

  lemma RegroupedSize(bytes: seq<byte>, symbols: seq<Symbol>)
    requires Regrouped(bytes, symbols)
    ensures |symbols| == (8 * |bytes| + 4) / 5
  {
  }

  lemma FirstSymbol(v: byte, symbols: seq<byte>)
    ensures FiveBits([v] + symbols) <==> v < 32 && FiveBits(symbols)
  {
    var all := [v] + symbols;
    assert all[0] == v && all[1..] == symbols;
    assert FiveBits(all) ==> forall i :: 0 <= i < |symbols| ==> all[i + 1] == symbols[i];
  }

  lemma AddressIs(hrp: string, v: byte, symbols: seq<byte>, prog: seq<byte>)
    requires FiveBits(symbols) && Regrouped(prog, SymbolsOf(symbols)) && Encodable(hrp, [v] + symbols)
    ensures v < 32 && Encodable(hrp, [v] + symbols) && IsAddress(BechString(hrp, [v] + symbols), hrp, v, prog)
  {
    FirstSymbol(v, symbols);
    EncodableParts(hrp, [v] + symbols);
    hide Regrouped, Encodable, BechString;
    assert [v] + SymbolsOf(symbols) == [v] + symbols;
  }

  /** strncmp of a string with the one in a buffer. */
  method SameString(hrp: string, buffer: array<char>, ghost actual: string) returns (same: bool)
    requires '\0' !in hrp && '\0' !in actual && |actual| < 84 <= buffer.Length
    requires buffer[..|actual| + 1] == actual + ['\0']
    ensures same <==> hrp == actual
  {
    assert forall k :: 0 <= k <= |actual| ==> buffer[k] == (actual + ['\0'])[k];
    var i := 0;
    while i < 84
      invariant 0 <= i <= 84 && i <= |hrp| && i <= |actual| && hrp[..i] == actual[..i]
    {
      var c := if i < |hrp| then hrp[i] else '\0';
      if c != buffer[i] {
        return false;
      }
      if c == '\0' {
        assert i == |hrp| == |actual|;
        return true;
      }
      i := i + 1;
    }
    return true;
  }

  lemma HrpHasNoNul(s: string)
    requires Shaped(s) && LastOne(s) >= 0
    ensures '\0' !in DecodedHrp(s) && |DecodedHrp(s)| < 84
  {
    hide LastOne, HasUpper, HasLower, AllInCharset;
    LowerHrp(HrpPart(s));
  }

  lemma NotWellFormed(addr: string, hrp: string)
    ensures !WellFormed(addr) ==> forall v: Symbol, p: seq<byte> :: !Means(addr, hrp, v, p)
  {
    hide WellFormed, Shaped, LastOne, AllInCharset;
  }

  /** What a meaning would have to be like. */
  lemma IfItMeans(addr: string, hrp: string)
    requires Shaped(addr) && LastOne(addr) >= 1 && |DataPart(addr)| >= 6 && AllInCharset(DataPart(addr))
    ensures forall v: Symbol, p: seq<byte> :: Means(addr, hrp, v, p) ==>
      && DecodedHrp(addr) == hrp && 1 <= |DecodedData(addr)| <= 65 && DecodedData(addr)[0] == v <= 16
      && NoPaddingNeeded(DecodedData(addr)[1..]) && ProgramSize(v, |p|)
  {
    hide WellFormed, Shaped, LastOne, AllInCharset, Regrouped, NoPaddingNeeded, DecodedHrp, DecodedData, ProgramSize;
    forall v: Symbol, p: seq<byte> | Means(addr, hrp, v, p)
      ensures DecodedHrp(addr) == hrp && 1 <= |DecodedData(addr)| <= 65 && DecodedData(addr)[0] == v <= 16
      ensures NoPaddingNeeded(DecodedData(addr)[1..]) && ProgramSize(v, |p|)
    {
      RegroupedSize(p, DecodedData(addr)[1..]);
      RegroupingIsBijective(DecodedData(addr)[1..], p);
      ProgramSizeIs(v, |p|);
    }
  }

  lemma OnlyProgram(addr: string, hrp: string, prog: seq<byte>)
    requires LastOne(addr) >= 1 && |DataPart(addr)| >= 6 && AllInCharset(DataPart(addr))
    requires DecodedData(addr) != [] && WholeBytes(DecodedData(addr)[1..], prog)
    ensures forall v: Symbol, p: seq<byte> :: Means(addr, hrp, v, p) ==> p == prog
  {
    hide WellFormed, Shaped, LastOne, AllInCharset, Regrouped, NoPaddingNeeded, WholeBytes, DecodedHrp, DecodedData,
      ProgramSize;
    forall v: Symbol, p: seq<byte> | Means(addr, hrp, v, p)
      ensures p == prog
    {
      RegroupingIsBijective(DecodedData(addr)[1..], p);
      RegroupingIsBijective(DecodedData(addr)[1..], prog);
      RegroupingUnique(DecodedData(addr)[1..], p, prog);
    }
  }

  /** segwit_addr_decode: the version and the program, if the address stands for any. */
  method DecodeAddress(witdata: array<byte>, hrp: string, addr: string)
    returns (ok: bool, witver: byte, witdataLen: nat)
    requires witdata.Length >= 40 && '\0' !in hrp
    modifies witdata
    ensures ok ==> witver <= 16 && witdataLen <= witdata.Length && Means(addr, hrp, witver, witdata[..witdataLen])
    ensures !ok ==> forall v: Symbol, p: seq<byte> :: !Means(addr, hrp, v, p)
  {
    hide *;
    var data := new byte[84];
    var hrpActual := new char[84];
    var dataLen;
    witver, witdataLen := 0, 0;
    ok, dataLen := Decode(hrpActual, data, addr);
    NotWellFormed(addr, hrp);
    if !ok {
      return;
    }
    IfItMeans(addr, hrp);
    HrpHasNoNul(addr);
    ghost var symbols := DecodedData(addr);
    if dataLen == 0 || dataLen > 65 {
      return false, witver, witdataLen;
    }
    ok := SameString(hrp, hrpActual, DecodedHrp(addr));
    if !ok {
      return;
    }
    assert data[0] == data[..dataLen][0] == symbols[0];
    if data[0] > 16 {
      return false, witver, witdataLen;
    }
    assert data[1..dataLen] == data[..dataLen][1..] == symbols[1..];
    ok, witdataLen := ToBytes(witdata, data[1..dataLen]);
    if !ok {
      return;
    }
    ghost var prog := witdata[..witdataLen];
    RegroupingIsBijective(symbols[1..], prog);
    OnlyProgram(addr, hrp, prog);
    ProgramSizeIs(data[0], witdataLen);
    MeansIs(addr, hrp, data[0], prog);
    if witdataLen < 2 || witdataLen > 40 {
      return false, witver, witdataLen;
    }
    if data[0] == 0 && witdataLen != 20 && witdataLen != 32 {
      return false, witver, witdataLen;
    }
    witver := data[0];
    return true, witver, witdataLen;
  }

  /**
     Decoding what was encoded gives back the version and the program exactly if the
     human-readable part is not empty and the version is not negative.
   */
  method RoundTrip(hrp: string, witver: int, witprog: seq<byte>, output: array<char>, witdata: array<byte>)
    returns (encoded: bool, decoded: bool, version: int, size: nat)
    requires |hrp| + 73 <= output.Length && 40 <= witdata.Length && '\0' !in hrp
    modifies output, witdata
    ensures encoded <==> Acceptable(hrp, witver, |witprog|)
    ensures size <= witdata.Length
    ensures encoded ==> ((decoded && version == witver && witdata[..size] == witprog) <==> hrp != "" && witver >= 0)
  {
    hide *;
    AcceptableIs(hrp, witver, |witprog|);
    AddressSizeIs(hrp, witprog);
    decoded, version, size := false, 0, 0;
    encoded := EncodeAddress(output, hrp, witver, witprog);
    if encoded {
      var v: Symbol := witver % 256;
      var addr := output[..|hrp| + 8 + (8 * |witprog| + 4) / 5];
      AddressMeans(addr, hrp, v, witprog);
      decoded, version, size := DecodeAddress(witdata, hrp, addr);
      if decoded {
        if Means(addr, hrp, v, witprog) {
          MeaningUnique(addr, hrp, v, witprog, version, witdata[..size]);
        }
      } else {
        size := 0;
      }
    }
  }
}
