/**
 Base 58 as in base58.c: conversion between base 256 and base 58 by long multiplication in a
 scratch buffer, with leading zero bytes written as leading ones.
 */
module Base58 {
  import opened Bytes
  import opened Radix

  // The alphabet.

  const FIGURES := "123456789"
  const CAPITALS := "ABCDEFGHJKLMNPQRSTUVWXYZ"
  const SMALL := "abcdefghijkmnopqrstuvwxyz"

  /** b58digits_ordered: the character of a digit. */
  function Ordered(d: nat): char
    requires d < 58
  {
    if d < 9 then FIGURES[d] else if d < 33 then CAPITALS[d - 9] else SMALL[d - 33]
  }

  const ROW_3 := [-1, 0, 1, 2, 3, 4, 5, 6, 7, 8, -1, -1, -1, -1, -1, -1]
  const ROW_4 := [-1, 9, 10, 11, 12, 13, 14, 15, 16, -1, 17, 18, 19, 20, 21, -1]
  const ROW_5 := [22, 23, 24, 25, 26, 27, 28, 29, 30, 31, 32, -1, -1, -1, -1, -1]
  const ROW_6 := [-1, 33, 34, 35, 36, 37, 38, 39, 40, 41, 42, 43, -1, 44, 45, 46]
  const ROW_7 := [47, 48, 49, 50, 51, 52, 53, 54, 55, 56, 57, -1, -1, -1, -1, -1]

  /** b58digits_map: the digit a character stands for, or -1. */
  function DigitsMap(c: nat): int
    requires c < 128
  {
    if c < 48 then -1
    else if c < 64 then ROW_3[c - 48]
    else if c < 80 then ROW_4[c - 64]
    else if c < 96 then ROW_5[c - 80]
    else if c < 112 then ROW_6[c - 96]
    else ROW_7[c - 112]
  }

  /** The digit of a character, or -1 for one that is not in the alphabet. */
  function DigitOf(c: char): (d: int) {
    if c as int >= 128 then -1 else DigitsMap(c as int)
  }

  lemma Digits3(d: nat)
    requires 0 <= d < 9
    ensures DigitOf(Ordered(d)) == d
  {
  }

  lemma Digits4(d: nat)
    requires 9 <= d < 22
    ensures DigitOf(Ordered(d)) == d
  {
  }

  lemma Digits5(d: nat)
    requires 22 <= d < 33
    ensures DigitOf(Ordered(d)) == d
  {
  }

  lemma Digits6(d: nat)
    requires 33 <= d < 47
    ensures DigitOf(Ordered(d)) == d
  {
  }

  lemma Digits7(d: nat)
    requires 47 <= d < 58
    ensures DigitOf(Ordered(d)) == d
  {
  }

  /** The two tables are inverse to each other. */
  lemma TablesAgree(d: nat)
    requires d < 58
    ensures DigitOf(Ordered(d)) == d
  {
    hide *;
    if d < 9 { Digits3(d); }
    else if d < 22 { Digits4(d); }
    else if d < 33 { Digits5(d); }
    else if d < 47 { Digits6(d); }
    else { Digits7(d); }
  }

  lemma MapRange(c: char)
    ensures -1 <= DigitOf(c) < 58
    ensures DigitOf(c) == 0 <==> c == '1'
  {
  }

  /** A letter or a figure other than 0, O, I and l, which look like others. */
  predicate Unambiguous(c: char) {
    ('0' <= c <= '9' || 'A' <= c <= 'Z' || 'a' <= c <= 'z') && c != '0' && c != 'O' && c != 'I' && c != 'l'
  }

  lemma Letters0(c: char)
    requires 0 <= c as int < 48
    ensures DigitOf(c) != -1 <==> Unambiguous(c)
  {
  }

  lemma Letters1(c: char)
    requires 48 <= c as int < 64
    ensures DigitOf(c) != -1 <==> Unambiguous(c)
  {
  }

  lemma Letters2(c: char)
    requires 64 <= c as int < 80
    ensures DigitOf(c) != -1 <==> Unambiguous(c)
  {
  }

  lemma Letters3(c: char)
    requires 80 <= c as int < 96
    ensures DigitOf(c) != -1 <==> Unambiguous(c)
  {
  }

  lemma Letters4(c: char)
    requires 96 <= c as int < 112
    ensures DigitOf(c) != -1 <==> Unambiguous(c)
  {
  }

  lemma Letters5(c: char)
    requires 112 <= c as int < 128
    ensures DigitOf(c) != -1 <==> Unambiguous(c)
  {
  }

  /** The alphabet is all of these characters. */
  lemma AlphabetIs(c: char)
    ensures DigitOf(c) != -1 <==> Unambiguous(c)
  {
    if c as int >= 128 {
      BeyondAscii(c);
    } else {
      hide *;
      if c as int < 48 { Letters0(c); }
      else if c as int < 64 { Letters1(c); }
      else if c as int < 80 { Letters2(c); }
      else if c as int < 96 { Letters3(c); }
      else if c as int < 112 { Letters4(c); }
      else { Letters5(c); }
    }
  }

  lemma BeyondAscii(c: char)
    requires c as int >= 128
    ensures DigitOf(c) == -1 && !Unambiguous(c)
  {
  }

  lemma FiguresAscend(d: nat)
    requires d < 9
    ensures Ordered(d) < Ordered(d + 1)
  {
  }

  lemma CapitalsAscend(d: nat)
    requires 9 <= d < 33
    ensures Ordered(d) < Ordered(d + 1)
  {
  }

  lemma SmallAscend(d: nat)
    requires 33 <= d < 57
    ensures Ordered(d) < Ordered(d + 1)
  {
  }

  /** Its characters are in ascending order, so that there is one such alphabet. */
  lemma {:induction false} AlphabetAscends(d: nat, e: nat)
    requires d < e < 58
    ensures Ordered(d) < Ordered(e)
    decreases e
  {
    hide *;
    if e - 1 < 9 {
      FiguresAscend(e - 1);
    } else if e - 1 < 33 {
      CapitalsAscend(e - 1);
    } else {
      SmallAscend(e - 1);
    }
    if d < e - 1 {
      AlphabetAscends(d, e - 1);
    }
  }

  // Leading zeros and ones.

  function LeadingZeros(s: seq<nat>): nat {
    if s == [] || s[0] != 0 then 0 else 1 + LeadingZeros(s[1..])
  }

  lemma {:induction false} LeadingZerosAre(s: seq<nat>, k: nat)
    requires k <= |s| && (forall i :: 0 <= i < k ==> s[i] == 0) && (k < |s| ==> s[k] != 0)
    ensures LeadingZeros(s) == k
    decreases k
  {
    if k > 0 {
      LeadingZerosAre(s[1..], k - 1);
    }
  }

  lemma {:induction false} LeadingZerosStop(s: seq<nat>)
    ensures var k := LeadingZeros(s);
      k <= |s| && (forall i :: 0 <= i < k ==> s[i] == 0) && (k < |s| ==> s[k] != 0)
  {
    if s != [] && s[0] == 0 {
      LeadingZerosStop(s[1..]);
      var k := LeadingZeros(s[1..]);
      assert forall i :: 1 <= i < k + 1 ==> s[i] == s[1..][i - 1];
    }
  }

  function LeadingOnes(s: string): nat {
    if s == "" || s[0] != '1' then 0 else 1 + LeadingOnes(s[1..])
  }

  lemma {:induction false} LeadingOnesAre(s: string, k: nat)
    requires k <= |s| && (forall i :: 0 <= i < k ==> s[i] == '1') && (k < |s| ==> s[k] != '1')
    ensures LeadingOnes(s) == k
    decreases k
  {
    if k > 0 {
      LeadingOnesAre(s[1..], k - 1);
    }
  }

  /** Among leading ones, either another one follows or the run is over. */
  lemma {:induction false} AmongOnes(s: string, i: nat)
    requires i < |s| && forall k :: 0 <= k < i ==> s[k] == '1'
    ensures s[i] == '1' || LeadingOnes(s) == i
    decreases i
  {
    if i > 0 {
      AmongOnes(s[1..], i - 1);
    }
  }

  // What a string means, and the string for some bytes.

  ghost predicate InAlphabet(s: string) {
    forall i :: 0 <= i < |s| ==> DigitOf(s[i]) != -1
  }

  function DigitsOf(s: string): (ds: seq<nat>)
    requires InAlphabet(s)
    ensures |ds| == |s| && forall i :: 0 <= i < |s| ==> ds[i] == DigitOf(s[i])
  {
    if s == "" then []
    else
      MapRange(s[0]);
      [DigitOf(s[0])] + DigitsOf(s[1..])
  }

  function Chars(ds: seq<nat>): (s: string)
    requires Digits(58, ds)
    ensures |s| == |ds| && forall i :: 0 <= i < |s| ==> s[i] == Ordered(ds[i])
  {
    if ds == [] then "" else [Ordered(ds[0])] + Chars(ds[1..])
  }

  /** Base 58 of some bytes: a one for each leading zero byte, then the digits of their value. */
  function Encoding(data: seq<byte>): string {
    seq(LeadingZeros(data), _ => '1') + Chars(MinimalDigits(58, Value(256, data)))
  }

  // The scratch buffer.

  lemma Powers58()
    ensures Pow(58, 6) >= Pow(2, 35) && Pow(58, 7) >= Pow(2, 41)
  {
    assert Pow(58, 2) == 3364;
    assert Pow(58, 4) == 11316496;
    assert Pow(58, 6) == 38068692544;
    assert Pow(58, 7) == 2207984167552;
    Powers2();
  }

  lemma Powers2()
    ensures Pow(2, 8) == 256 && Pow(2, 35) == 0x8_0000_0000 && Pow(2, 41) == 0x200_0000_0000
  {
    assert Pow(2, 2) == 4;
    assert Pow(2, 4) == 16;
    assert Pow(2, 5) == 32;
    PowAdd(2, 4, 4);
    PowAdd(2, 8, 8);
    PowAdd(2, 16, 16);
    PowAdd(2, 32, 4);
    PowAdd(2, 36, 5);
    assert Pow(2, 36) == 2 * Pow(2, 35);
  }

  /** 138/100 is enough: 256^100 <= 58^138. */
  lemma RatioSuffices()
    ensures Pow(256, 100) <= Pow(58, 138)
  {
    hide *;
    Powers58();
    Powers2();
    PowBaseMonotone(Pow(2, 41), Pow(58, 7), 18);
    PowBaseMonotone(Pow(2, 35), Pow(58, 6), 2);
    PowPow(2, 41, 18);
    PowPow(58, 7, 18);
    PowPow(2, 35, 2);
    PowPow(58, 6, 2);
    PowAdd(58, 126, 12);
    PowAdd(2, 738, 70);
    MulMonotone(Pow(2, 738), Pow(58, 126), Pow(2, 70), Pow(58, 12));
    PowPow(2, 8, 100);
    PowGrows(2, 800, 808);
  }

  lemma DigitsSuffice(n: nat, k: nat)
    requires 138 * n < 100 * k
    ensures Pow(256, n) < Pow(58, k)
  {
    hide *;
    RatioSuffices();
    PowBaseMonotone(Pow(256, 100), Pow(58, 138), n);
    PowPow(256, 100, n);
    PowPow(58, 138, n);
    PowStep(58, 138 * n + 1);
    PowPositive(58, 138 * n);
    PowGrows(58, 138 * n + 1, k * 100);
    PowPow(256, n, 100);
    PowPow(58, k, 100);
    PowRoot(Pow(256, n), Pow(58, k), 100);
  }

  /** The size of the scratch buffer: n bytes always fit 138n/100 + 1 digits. */
  lemma ScratchSuffices(n: nat)
    ensures Pow(256, n) < Pow(58, n * 138 / 100 + 1)
  {
    DigitsSuffice(n, n * 138 / 100 + 1);
  }

  // Encoding.

  /** The first k digits are still zero. */
  ghost predicate ZeroUpTo(s: seq<nat>, k: int) {
    k <= |s| && forall i :: 0 <= i < k ==> s[i] == 0
  }

  /** In the carry loop there is always a digit left to go on with. */
  lemma RoomToCarry(s: seq<nat>, orig: seq<nat>, k: nat, high: int, carry: nat, total: nat)
    requires Carrying(58, 256, s, orig, k, carry, total) && total < Pow(58, |s|)
    requires k > high + 1 || carry > 0
    requires -1 <= high
    ensures k > 0
  {
    if k == 0 {
      CarryOverflow(58, 256, s, orig, carry, total);
    }
  }

  lemma CarryDone(s: seq<nat>, orig: seq<nat>, k: nat, high: int, total: nat)
    requires Carrying(58, 256, s, orig, k, 0, total) && k <= high + 1 && ZeroUpTo(orig, high + 1)
    ensures Value(58, s) == total && ZeroUpTo(s, k)
  {
    assert forall i :: 0 <= i < k ==> s[i] == s[..k][i] == orig[..k][i] == orig[i];
    CarryEnd(58, 256, s, orig, k, total);
  }

  /** One digit of the carry loop. */
  method CarryDigit(buf: array<byte>, j: nat, carry0: nat, ghost orig: seq<byte>, ghost total: nat) returns (carry: nat)
    requires j < buf.Length && Carrying(58, 256, buf[..], orig, j + 1, carry0, total)
    modifies buf
    ensures Carrying(58, 256, buf[..], orig, j, carry, total)
  {
    hide *;
    ghost var was := buf[..];
    var digit: nat := buf[j];
    carry := carry0 + 256 * digit;
    CarryStep(58, 256, buf[..], orig, j + 1, carry0, total, carry);
    var d: byte := carry % 58;
    buf[j] := d;
    assert buf[..] == was[j := d];
    carry := carry / 58;
  }

  /**
     The inner loop of the encoder: multiply by 256 and add a byte, from the last digit on,
     until the carry is used up and the digits from `high` to the left are still zero.
   */
  method AddByte(buf: array<byte>, high: int, b: byte) returns (j: int)
    requires -1 <= high < buf.Length && Digits(58, buf[..]) && ZeroUpTo(buf[..], high + 1)
    requires 256 * Value(58, buf[..]) + b < Pow(58, buf.Length)
    modifies buf
    ensures -1 <= j < buf.Length && Digits(58, buf[..]) && ZeroUpTo(buf[..], j + 1)
    ensures Value(58, buf[..]) == 256 * old(Value(58, buf[..])) + b
  {
    hide *;
    ghost var orig, total := buf[..], 256 * Value(58, buf[..]) + b;
    CarryStart(58, 256, buf[..], b);
    var carry: nat;
    carry, j := b, buf.Length - 1;
    while j > high || carry != 0
      invariant -1 <= j < buf.Length && Carrying(58, 256, buf[..], orig, j + 1, carry, total)
      decreases j
    {
      RoomToCarry(buf[..], orig, j + 1, high, carry, total);
      carry := CarryDigit(buf, j, carry, orig, total);
      j := j - 1;
    }
    CarryDone(buf[..], orig, j + 1, high, total);
    CarriedDigits(buf[..], orig, j + 1, total);
  }

  lemma CarriedDigits(s: seq<nat>, orig: seq<nat>, k: nat, total: nat)
    requires Carrying(58, 256, s, orig, k, 0, total)
    ensures Digits(58, s)
  {
  }

  /** The conversion so far: the buffer holds the value of the bytes up to i. */
  ghost predicate Converted(buf: seq<nat>, data: seq<byte>, from: nat, i: nat, high: int) {
    && from <= i <= |data| && -1 <= high < |buf|
    && Digits(58, buf) && ZeroUpTo(buf, high + 1)
    && Value(58, buf) == Value(256, data[from..i])
  }

  lemma StartConverting(buf: seq<nat>, data: seq<byte>, from: nat)
    requires buf != [] && from <= |data| && forall k :: 0 <= k < |buf| ==> buf[k] == 0
    ensures Converted(buf, data, from, from, |buf| - 1)
  {
    ValueOfZeros(58, buf);
  }

  lemma BytesAreDigits(s: seq<byte>)
    ensures Digits(256, s)
  {
  }

  /** The next byte fits. */
  lemma NextByteFits(buf: seq<nat>, data: seq<byte>, from: nat, i: nat, high: int)
    requires Converted(buf, data, from, i, high) && i < |data|
    requires |buf| == (|data| - from) * 138 / 100 + 1
    ensures 256 * Value(58, buf) + data[i] == Value(256, data[from..i + 1]) < Pow(58, |buf|)
  {
    hide *;
    ConvertedFacts(buf, data, from, i, high);
    assert data[from..i + 1] == data[from..i] + [data[i]];
    ValueSnoc(256, data[from..i], data[i]);
    BytesAreDigits(data[from..i + 1]);
    ValueBound(256, data[from..i + 1]);
    PowGrows(256, i + 1 - from, |data| - from);
    ScratchSuffices(|data| - from);
  }

  /** Convert data[from..] to base-58 digits. */
  method ConvertDigits(data: seq<byte>, from: nat) returns (buf: array<byte>)
    requires from <= |data|
    ensures fresh(buf) && buf.Length == (|data| - from) * 138 / 100 + 1
    ensures Digits(58, buf[..]) && Value(58, buf[..]) == Value(256, data[from..])
  {
    hide *;
    var size: nat := (|data| - from) * 138 / 100 + 1;
    buf := new byte[size](_ => 0);
    StartConverting(buf[..], data, from);
    var i: nat, high := from, size - 1;
    while i < |data|
      invariant i <= |data| && Converted(buf[..], data, from, i, high)
    {
      NextByteFits(buf[..], data, from, i, high);
      ConvertedFacts(buf[..], data, from, i, high);
      high := AddByte(buf, high, data[i]);
      i := i + 1;
      ConvertedIs(buf[..], data, from, i, high);
    }
    ConvertedFacts(buf[..], data, from, i, high);
    assert data[from..i] == data[from..];
  }

  lemma ConvertedFacts(buf: seq<nat>, data: seq<byte>, from: nat, i: nat, high: int)
    requires Converted(buf, data, from, i, high)
    ensures -1 <= high < |buf| && Digits(58, buf) && ZeroUpTo(buf, high + 1)
    ensures from <= i <= |data| && Value(58, buf) == Value(256, data[from..i])
  {
  }

  lemma ConvertedIs(buf: seq<nat>, data: seq<byte>, from: nat, i: nat, high: int)
    requires -1 <= high < |buf| && Digits(58, buf) && ZeroUpTo(buf, high + 1)
    requires from <= i <= |data| && Value(58, buf) == Value(256, data[from..i])
    ensures Converted(buf, data, from, i, high)
  {
  }

  /** Count the zeros at the start of a buffer. */
  method CountZeros(s: seq<byte>) returns (k: nat)
    ensures k == LeadingZeros(s) <= |s|
  {
    k := 0;
    while k < |s| && s[k] == 0
      invariant k <= |s| && forall i :: 0 <= i < k ==> s[i] == 0
    {
      k := k + 1;
    }
    LeadingZerosAre(s, k);
  }

  /** The digits after the zeros in the scratch buffer are those of the encoding. */
  lemma ScratchHoldsEncoding(buf: seq<nat>, data: seq<byte>)
    requires LeadingZeros(data) <= |data| && LeadingZeros(buf) <= |buf|
    requires Digits(58, buf) && Value(58, buf) == Value(256, data[LeadingZeros(data)..])
    ensures Digits(58, buf[LeadingZeros(buf)..])
    ensures Encoding(data) == seq(LeadingZeros(data), _ => '1') + Chars(buf[LeadingZeros(buf)..])
  {
    LeadingZerosStop(data);
    LeadingZerosStop(buf);
    ValueSkipsZeros(256, data, LeadingZeros(data));
    ValueSkipsZeros(58, buf, LeadingZeros(buf));
    MinimalDigitsOfValue(58, buf[LeadingZeros(buf)..]);
  }

  /**
     btc_base58_encode: b58sz is the size of the output buffer and becomes the size of the
     string with its terminator, whether or not it fits.
   */
  method Encode(b58: array<char>, b58sz: nat, data: seq<byte>) returns (ok: bool, size: nat)
    requires b58sz <= b58.Length
    modifies b58
    ensures size == |Encoding(data)| + 1
    ensures ok <==> size <= b58sz
    ensures ok ==> b58[..size] == Encoding(data) + ['\0'] && b58[size..] == old(b58[size..])
    ensures !ok ==> b58[..] == old(b58[..])
  {
    hide *;
    var zcount := CountZeros(data);
    var buf := ConvertDigits(data, zcount);
    var first := CountZeros(buf[..]);
    ScratchHoldsEncoding(buf[..], data);
    size := zcount + buf.Length - first + 1;
    if b58sz < size {
      return false, size;
    }
    ghost var ones, scratch, rest := seq(zcount, _ => '1'), buf[..], b58[size..];
    forall i | 0 <= i < zcount {
      b58[i] := '1';
    }
    assert b58[..zcount] == ones && buf[..] == scratch && b58[size..] == rest;
    var i := WriteDigits(b58, zcount, buf, first, ones);
    assert b58[size..] == b58[i..][1..] == rest;
    ghost var text := b58[..i];
    b58[i] := '\0';
    assert b58[..i] == text && b58[..size] == b58[..i] + ['\0'];
    assert b58[size..] == rest;
    return true, size;
  }

  /** Write the digits from `first` on as characters. */
  method WriteDigits(b58: array<char>, start: nat, buf: array<byte>, first: nat, ghost ones: string) returns (i: nat)
    requires first <= buf.Length && start + (buf.Length - first) <= b58.Length
    requires Digits(58, buf[..]) && Digits(58, buf[first..]) && b58[..start] == ones
    modifies b58
    ensures i == start + (buf.Length - first) && b58[..i] == ones + Chars(buf[first..])
    ensures b58[i..] == old(b58[i..])
  {
    hide *;
    ghost var scratch, rest := buf[..], b58[start + (buf.Length - first)..];
    assert scratch[first..] == buf[first..];
    var j: nat;
    i, j := start, first;
    while j < buf.Length
      invariant first <= j <= buf.Length && i == start + (j - first)
      invariant b58[..i] == ones + Chars(scratch[first..])[..j - first]
      invariant b58[start + (buf.Length - first)..] == rest
    {
      assert buf[j] == scratch[j];
      ScratchDigit(scratch, first, j);
      b58[i] := Ordered(buf[j]);
      assert b58[..i + 1] == b58[..i] + [b58[i]];
      i, j := i + 1, j + 1;
    }
  }

  lemma ScratchDigit(buf: seq<nat>, first: nat, j: nat)
    requires first <= j < |buf| && Digits(58, buf) && Digits(58, buf[first..])
    ensures buf[j] < 58 && Chars(buf[first..])[..j + 1 - first] == Chars(buf[first..])[..j - first] + [Ordered(buf[j])]
  {
    hide Chars;
    assert buf[first..][j - first] == buf[j];
  }

  // Decoding.

  const WORD := 0x1_0000_0000

  lemma WordIsFourBytes()
    ensures WORD == 0x1_0000_0000 == Pow(256, 4)
  {
    assert Pow(256, 2) == 0x1_0000;
  }

  /** One word of the multiplication by 58. */
  method CarryWord(outi: array<uint32>, j: nat, c0: nat, ghost orig: seq<uint32>, ghost total: nat) returns (c: nat)
    requires j < outi.Length && Carrying(WORD, 58, outi[..], orig, j + 1, c0, total)
    modifies outi
    ensures Carrying(WORD, 58, outi[..], orig, j, c, total)
  {
    hide *;
    WordIsFourBytes();
    CarryFacts(outi[..], orig, j + 1, c0, total);
    ghost var was := outi[..];
    var word: nat := outi[j];
    var t := word * 58 + c0;
    CarryStep(WORD, 58, outi[..], orig, j + 1, c0, total, t);
    c := t / 0x1_0000_0000 % 64;
    var low: uint32 := t % 0x1_0000_0000;
    outi[j] := low;
    assert outi[..] == was[j := low];
  }

  lemma CarryFacts(s: seq<nat>, orig: seq<nat>, k: nat, carry: nat, total: nat)
    requires Carrying(WORD, 58, s, orig, k, carry, total)
    ensures carry < 58
  {
  }

  /** The inner loop of the decoder: multiply by 58 and add a digit. The carry out must be zero. */
  method AddDigit(outi: array<uint32>, digit: nat) returns (c: nat)
    requires digit < 58
    modifies outi
    ensures c == 0 ==> Value(WORD, outi[..]) == 58 * Value(WORD, old(outi[..])) + digit
    ensures c != 0 ==> 58 * Value(WORD, old(outi[..])) + digit >= Pow(WORD, outi.Length)
  {
    assert Digits(WORD, outi[..]);
    hide *;
    ghost var orig, total := outi[..], 58 * Value(WORD, outi[..]) + digit;
    CarryStart(WORD, 58, outi[..], digit);
    c := digit;
    var j: nat := outi.Length;
    while j > 0
      invariant j <= outi.Length && Carrying(WORD, 58, outi[..], orig, j, c, total)
    {
      j := j - 1;
      c := CarryWord(outi, j, c, orig, total);
    }
    CarryOverflow(WORD, 58, outi[..], orig, c, total);
  }

  /** outi[0] & zeromask: has the first word more than the bytes left for it? */
  predicate TopTooBig(top: nat, bytesleft: nat)
    requires bytesleft < 4
  {
    bytesleft > 0 && top / Pow256(bytesleft) != 0
  }

  function Pow256(k: nat): (p: nat)
    requires k < 4
    ensures p == Pow(256, k) > 0
  {
    assert Pow(256, 1) == 256 && Pow(256, 2) == 256 * 256 && Pow(256, 3) == 256 * 256 * 256;
    if k == 0 then 1 else if k == 1 then 0x100 else if k == 2 then 0x1_0000 else 0x100_0000
  }

  lemma SplitTop(words: seq<nat>, binsz: nat, m: nat, left: nat)
    requires Digits(WORD, words) && |words| == (binsz + 3) / 4 == m + 1 && left == binsz % 4
    ensures words == [words[0]] + words[1..] && words[0] < 0x1_0000_0000 && Digits(WORD, words[1..])
    ensures binsz == 4 * m + (if left == 0 then 4 else left)
  {
  }

  /** The words fit the output exactly if the check of the first word passes. */
  lemma TopDecides(words: seq<nat>, binsz: nat)
    requires Digits(WORD, words) && |words| == (binsz + 3) / 4 > 0
    ensures TopTooBig(words[0], binsz % 4) <==> Value(WORD, words) >= Pow(256, binsz)
  {
    hide *;
    var m, left := |words| - 1, binsz % 4;
    SplitTop(words, binsz, m, left);
    WordIsFourBytes();
    ValueAppend(WORD, [words[0]], words[1..]);
    ValueOne(WORD, words[0]);
    ValueBound(WORD, words[1..]);
    PowPow(256, 4, m);
    TopCompare(words[0], Pow(256, 4 * m), Value(WORD, words[1..]), left, m);
  }

  lemma DivZero(q: nat, top: nat)
    requires q > 0
    ensures top / q == 0 <==> top < q
  {
  }

  lemma TopCompare(top: nat, p: nat, low: nat, left: nat, m: nat)
    requires low < p == Pow(256, 4 * m) && left < 4 && top < 0x1_0000_0000
    ensures var k := if left == 0 then 4 else left;
      TopTooBig(top, left) <==> top * p + low >= Pow(256, 4 * m + k)
  {
    var k := if left == 0 then 4 else left;
    PowAdd(256, 4 * m, k);
    TooBigIs(top, left);
    hide *;
    TopProduct(top, p, low, Pow(256, k));
  }

  lemma TooBigIs(top: nat, left: nat)
    requires left < 4 && top < 0x1_0000_0000
    ensures TopTooBig(top, left) <==> top >= Pow(256, if left == 0 then 4 else left)
  {
    WordIsFourBytes();
    hide Pow;
    if left > 0 {
      DivZero(Pow256(left), top);
    }
  }

  lemma TopProduct(top: nat, p: nat, low: nat, q: nat)
    requires low < p
    ensures top >= q <==> top * p + low >= p * q
  {
    if top < q {
      MulMonotone(top + 1, q, p, p);
    } else {
      MulMonotone(q, top, p, p);
    }
  }

  lemma ByteWeights(w: uint32)
    ensures w / 0x100_0000 % 256 * 0x100_0000 + w / 0x1_0000 % 256 * 0x1_0000 + w / 0x100 % 256 * 0x100 + w % 256 == w
  {
  }

  /** Four bytes of a word, most significant first. */
  lemma FourBytes(w: uint32)
    ensures Value(256, [w / 0x100_0000 % 256, w / 0x1_0000 % 256, w / 0x100 % 256, w % 256]) == w
  {
    hide *;
    var a, b, c, d := w / 0x100_0000 % 256, w / 0x1_0000 % 256, w / 0x100 % 256, w % 256;
    ByteWeights(w);
    ValueOne(256, a);
    ValueSnoc(256, [a], b);
    ValueSnoc(256, [a, b], c);
    ValueSnoc(256, [a, b, c], d);
    assert [a, b] == [a] + [b] && [a, b, c] == [a, b] + [c] && [a, b, c, d] == [a, b, c] + [d];
  }

  /** The low bytes of a word that has no more. */
  lemma LowBytes(w: nat)
    ensures w < 0x100 ==> Value(256, [w % 256]) == w
    ensures w < 0x1_0000 ==> Value(256, [w / 0x100 % 256, w % 256]) == w
    ensures w < 0x100_0000 ==> Value(256, [w / 0x1_0000 % 256, w / 0x100 % 256, w % 256]) == w
  {
    var b, c, d := w / 0x1_0000 % 256, w / 0x100 % 256, w % 256;
    assert w < 0x100_0000 ==> b * 0x1_0000 + c * 0x100 + d == w;
    assert w < 0x1_0000 ==> c * 0x100 + d == w;
    hide Value;
    ValueOne(256, d);
    ValueOne(256, c);
    ValueOne(256, b);
    ValueSnoc(256, [c], d);
    ValueSnoc(256, [b], c);
    ValueSnoc(256, [b, c], d);
    assert [c, d] == [c] + [d] && [b, c] == [b] + [c] && [b, c, d] == [b, c] + [d];
  }

  /** The first p bytes of the output denote the first j words. */
  ghost predicate Stored(bin: seq<byte>, p: nat, words: seq<uint32>, j: nat) {
    && p <= |bin| && j <= |words| && |bin| - p == 4 * (|words| - j)
    && Value(256, bin[..p]) == Value(WORD, words[..j])
  }

  lemma StoredTop(bin: seq<byte>, words: seq<uint32>)
    requires words != [] && |words| == (|bin| + 3) / 4
    requires var left := |bin| % 4;
      !TopTooBig(words[0], left)
      && bin[..left] == (if left == 0 then [] else if left == 1 then [words[0] % 256]
        else if left == 2 then [words[0] / 0x100 % 256, words[0] % 256]
        else [words[0] / 0x1_0000 % 256, words[0] / 0x100 % 256, words[0] % 256])
    ensures Stored(bin, |bin| % 4, words, if |bin| % 4 == 0 then 0 else 1)
  {
    hide Value;
    LowBytes(words[0]);
    ValueOne(WORD, words[0]);
    assert words[..1] == [words[0]];
    ValueOfZeros(WORD, []);
    ValueOfZeros(256, []);
  }

  lemma StoredNext(bin: seq<byte>, p: nat, words: seq<uint32>, j: nat)
    requires p + 4 <= |bin| && j < |words| && |bin| - p == 4 * (|words| - j)
    requires Value(256, bin[..p]) == Value(WORD, words[..j])
    requires var w := words[j];
      bin[p..p + 4] == [w / 0x100_0000 % 256, w / 0x1_0000 % 256, w / 0x100 % 256, w % 256]
    ensures Stored(bin, p + 4, words, j + 1)
  {
    assert bin[..p + 4] == bin[..p] + bin[p..p + 4];
    assert words[..j + 1] == words[..j] + [words[j]];
    hide Value;
    WordIsFourBytes();
    ValueAppend(256, bin[..p], bin[p..p + 4]);
    FourBytes(words[j]);
    ValueSnoc(WORD, words[..j], words[j]);
  }

  lemma StoredFacts(bin: seq<byte>, p: nat, words: seq<uint32>, j: nat)
    requires Stored(bin, p, words, j)
    ensures p <= |bin| && j <= |words| && |bin| - p == 4 * (|words| - j)
    ensures Value(256, bin[..p]) == Value(WORD, words[..j])
    ensures j == |words| ==> bin[..p] == bin && words[..j] == words
  {
  }

  /** Write the first word's bytes, of which there may be fewer than four. */
  method StoreTop(bin: array<byte>, top: uint32) returns (binu: nat, j: nat)
    requires bin.Length > 0
    modifies bin
    ensures binu == bin.Length % 4 && j == (if binu == 0 then 0 else 1)
    ensures bin[..binu] == if binu == 0 then [] else if binu == 1 then [top % 256]
        else if binu == 2 then [top / 0x100 % 256, top % 256]
        else [top / 0x1_0000 % 256, top / 0x100 % 256, top % 256]
  {
    var bytesleft := bin.Length % 4;
    binu, j := 0, 0;
    if bytesleft >= 3 {
      bin[binu] := top / 0x1_0000 % 256;
      binu := binu + 1;
    }
    if bytesleft >= 2 {
      bin[binu] := top / 0x100 % 256;
      binu := binu + 1;
    }
    if bytesleft >= 1 {
      bin[binu] := top % 256;
      binu := binu + 1;
      j := j + 1;
    }
  }

  /** Write the words out as bytes. */
  method StoreWords(bin: array<byte>, outi: array<uint32>)
    requires bin.Length > 0 && outi.Length == (bin.Length + 3) / 4 && !TopTooBig(outi[0], bin.Length % 4)
    modifies bin
    ensures Value(256, bin[..]) == Value(WORD, outi[..])
  {
    hide *;
    var binu: nat, j: nat := StoreTop(bin, outi[0]);
    StoredTop(bin[..], outi[..]);
    while j < outi.Length
      invariant j <= outi.Length && Stored(bin[..], binu, outi[..], j)
      modifies bin
    {
      ghost var words := outi[..];
      StoredFacts(bin[..], binu, words, j);
      ghost var before := bin[..binu];
      var w := outi[j];
      bin[binu], bin[binu + 1], bin[binu + 2], bin[binu + 3] :=
        w / 0x100_0000 % 256, w / 0x1_0000 % 256, w / 0x100 % 256, w % 256;
      assert bin[..][..binu] == before && outi[..] == words;
      assert bin[..][binu..binu + 4] == [bin[binu], bin[binu + 1], bin[binu + 2], bin[binu + 3]];
      StoredNext(bin[..], binu, words, j);
      binu, j := binu + 4, j + 1;
    }
    StoredFacts(bin[..], binu, outi[..], j);
  }

  // The digits read so far.

  /** The first i characters are digits, and the words denote them. */
  ghost predicate Reading(words: seq<nat>, b58: string, i: nat, binsz: nat) {
    && i <= |b58| && InAlphabet(b58[..i])
    && Value(WORD, words) == Value(58, DigitsOf(b58[..i])) < Pow(256, binsz)
  }

  lemma ReadingOnes(words: seq<nat>, b58: string, i: nat, binsz: nat)
    requires i <= |b58| && (forall k :: 0 <= k < i ==> b58[k] == '1')
    requires forall k :: 0 <= k < |words| ==> words[k] == 0
    ensures Reading(words, b58, i, binsz)
  {
    forall k | 0 <= k < i ensures DigitOf(b58[..i][k]) == 0 {
      MapRange(b58[k]);
    }
    ValueOfZeros(WORD, words);
    ValueOfZeros(58, DigitsOf(b58[..i]));
    PowPositive(256, binsz);
  }

  lemma DigitsOfSnoc(b58: string, i: nat)
    requires i < |b58| && InAlphabet(b58[..i]) && DigitOf(b58[i]) != -1
    ensures InAlphabet(b58[..i + 1]) && 0 <= DigitOf(b58[i]) < 58
    ensures DigitsOf(b58[..i + 1]) == DigitsOf(b58[..i]) + [DigitOf(b58[i])]
  {
    MapRange(b58[i]);
    hide DigitOf;
    assert forall k :: 0 <= k < i ==> b58[..i + 1][k] == b58[..i][k];
  }

  /** Reading the next digit: the value either fits and is read, or never will. */
  lemma ReadNext(b58: string, i: nat, binsz: nat, value: nat)
    requires i < |b58| && InAlphabet(b58[..i]) && DigitOf(b58[i]) != -1
    requires value == 58 * Value(58, DigitsOf(b58[..i])) + DigitOf(b58[i])
    ensures InAlphabet(b58[..i + 1]) && value == Value(58, DigitsOf(b58[..i + 1]))
    ensures value >= Pow(256, binsz) ==> !Fits(b58, binsz)
  {
    DigitsOfSnoc(b58, i);
    hide DigitOf, Value, Pow, DigitsOf;
    ValueSnoc(58, DigitsOf(b58[..i]), DigitOf(b58[i]));
    if InAlphabet(b58) {
      PrefixValue(b58, i + 1);
    }
  }

  /** The string is base 58 and its value fits binsz bytes. */
  ghost predicate Fits(b58: string, binsz: nat) {
    InAlphabet(b58) && Value(58, DigitsOf(b58)) < Pow(256, binsz)
  }

  lemma DigitsOfPrefix(b58: string, i: nat)
    requires InAlphabet(b58) && i <= |b58|
    ensures InAlphabet(b58[..i]) && DigitsOf(b58[..i]) == DigitsOf(b58)[..i]
  {
    hide DigitOf;
    assert forall k :: 0 <= k < i ==> b58[..i][k] == b58[k];
  }

  lemma PrefixValue(b58: string, i: nat)
    requires InAlphabet(b58) && i <= |b58|
    ensures InAlphabet(b58[..i]) && Value(58, DigitsOf(b58[..i])) <= Value(58, DigitsOf(b58))
  {
    hide *;
    DigitsOfPrefix(b58, i);
    var ds := DigitsOf(b58);
    assert ds == ds[..i] + ds[i..];
    ValueAppend(58, ds[..i], ds[i..]);
    PowPositive(58, |ds| - i);
    MulMonotone(Value(58, ds[..i]), Value(58, ds[..i]), 1, Pow(58, |ds| - i));
  }

  lemma ReadingFacts(words: seq<nat>, b58: string, i: nat, binsz: nat)
    requires Reading(words, b58, i, binsz)
    ensures i <= |b58| && InAlphabet(b58[..i])
    ensures Value(WORD, words) == Value(58, DigitsOf(b58[..i])) < Pow(256, binsz)
    ensures i == |b58| ==> b58[..i] == b58 && Fits(b58, binsz) && Value(WORD, words) == Value(58, DigitsOf(b58))
  {
    hide DigitOf, Value, Pow, DigitsOf;
    assert i == |b58| ==> b58[..i] == b58;
  }

  lemma ReadingIs(words: seq<nat>, b58: string, i: nat, binsz: nat)
    requires i <= |b58| && InAlphabet(b58[..i])
    requires Value(WORD, words) == Value(58, DigitsOf(b58[..i])) < Pow(256, binsz)
    ensures Reading(words, b58, i, binsz)
  {
  }

  lemma NotADigit(b58: string, i: nat, binsz: nat)
    requires i < |b58| && DigitOf(b58[i]) == -1
    ensures !Fits(b58, binsz)
  {
  }

  /** Read the digit at index i into the words. */
  method ReadDigit(outi: array<uint32>, b58: string, i: nat, binsz: nat) returns (ok: bool)
    requires i < |b58| && Reading(outi[..], b58, i, binsz)
    requires outi.Length == (binsz + 3) / 4 > 0
    modifies outi
    ensures ok ==> Reading(outi[..], b58, i + 1, binsz)
    ensures !ok ==> !Fits(b58, binsz)
  {
    assert DigitOf(b58[i]) == if b58[i] as int >= 128 then -1 else DigitsMap(b58[i] as int);
    assert Digits(WORD, outi[..]);
    hide *;
    if b58[i] as int >= 128 {
      NotADigit(b58, i, binsz);
      return false;
    }
    if DigitsMap(b58[i] as int) == -1 {
      NotADigit(b58, i, binsz);
      return false;
    }
    MapRange(b58[i]);
    ReadingFacts(outi[..], b58, i, binsz);
    var digit := DigitsMap(b58[i] as int);
    ReadNext(b58, i, binsz, 58 * Value(WORD, outi[..]) + digit);
    var c := AddDigit(outi, digit);
    if c != 0 {
      WordsSuffice(binsz);
      return false;
    }
    WordDigits(outi[..]);
    TopDecides(outi[..], binsz);
    if TopTooBig(outi[0], binsz % 4) {
      return false;
    }
    ReadingIs(outi[..], b58, i + 1, binsz);
    return true;
  }

  lemma WordDigits(words: seq<uint32>)
    ensures Digits(WORD, words)
  {
  }

  /** The words hold at least as much as the bytes. */
  lemma WordsSuffice(binsz: nat)
    ensures Pow(256, binsz) <= Pow(WORD, (binsz + 3) / 4)
  {
    var m := (binsz + 3) / 4;
    assert binsz <= 4 * m;
    hide *;
    WordIsFourBytes();
    PowPow(256, 4, m);
    PowGrows(256, binsz, 4 * m);
  }

  /**
     btc_base58_decode: the output buffer is filled from the right, and the size becomes that
     of the value without leading zero bytes, plus one for each leading one. The first character
     that is not a one must be ASCII: it is looked up in a table of 128.
   */
  method Decode(bin: array<byte>, b58: string) returns (ok: bool, size: int)
    requires bin.Length > 0
    requires LeadingOnes(b58) < |b58| ==> b58[LeadingOnes(b58)] as int < 128
    modifies bin
    ensures ok <==> Fits(b58, bin.Length)
    ensures ok ==> Fits(b58, bin.Length) && Value(256, bin[..]) == Value(58, DigitsOf(b58))
    ensures ok ==> size == bin.Length - LeadingZeros(bin[..]) + LeadingOnes(b58)
    ensures !ok ==> bin[..] == old(bin[..]) && size == bin.Length
  {
    hide *;
    size := bin.Length;
    var outisz: nat := (size + 3) / 4;
    var outi := new uint32[outisz](_ => 0);
    var zerocount := CountOnes(b58);
    ReadingOnes(outi[..], b58, zerocount, bin.Length);
    var i := zerocount;
    while i < |b58|
      invariant i <= |b58| && Reading(outi[..], b58, i, bin.Length)
      modifies outi
    {
      ok := ReadDigit(outi, b58, i, bin.Length);
      if !ok {
        return;
      }
      i := i + 1;
    }
    ReadingFacts(outi[..], b58, i, bin.Length);
    WordDigits(outi[..]);
    TopDecides(outi[..], bin.Length);
    StoreWords(bin, outi);
    var zeros := CountZeros(bin[..]);
    return true, size - zeros + zerocount;
  }

  lemma NextIsAscii(b58: string, k: nat)
    requires LeadingOnes(b58) < |b58| ==> b58[LeadingOnes(b58)] as int < 128
    requires k <= |b58| && forall i :: 0 <= i < k ==> b58[i] == '1'
    ensures k < |b58| ==> b58[k] as int < 128 && (DigitsMap(b58[k] as int) == 0 <==> b58[k] == '1')
  {
    if k < |b58| {
      AmongOnes(b58, k);
      MapRange(b58[k]);
    }
  }

  /** Count the leading ones. */
  method CountOnes(b58: string) returns (k: nat)
    requires LeadingOnes(b58) < |b58| ==> b58[LeadingOnes(b58)] as int < 128
    ensures k == LeadingOnes(b58) <= |b58| && forall i :: 0 <= i < k ==> b58[i] == '1'
  {
    hide *;
    k := 0;
    NextIsAscii(b58, 0);
    while k < |b58| && DigitsMap(b58[k] as int) == 0
      invariant k <= |b58| && (forall i :: 0 <= i < k ==> b58[i] == '1')
      invariant k < |b58| ==> b58[k] as int < 128 && (DigitsMap(b58[k] as int) == 0 <==> b58[k] == '1')
    {
      k := k + 1;
      NextIsAscii(b58, k);
    }
    LeadingOnesAre(b58, k);
  }

  // The round trip.

  lemma {:induction false} CharsMean(ds: seq<nat>)
    requires Digits(58, ds)
    ensures InAlphabet(Chars(ds)) && DigitsOf(Chars(ds)) == ds
  {
    hide DigitOf, Ordered;
    forall i | 0 <= i < |ds| ensures DigitOf(Chars(ds)[i]) == ds[i] {
      TablesAgree(ds[i]);
    }
  }

  /** A run of ones in front adds zeros to the digits. */
  lemma OnesInFront(k: nat, s: string)
    requires InAlphabet(s)
    ensures var t := seq(k, _ => '1') + s;
      InAlphabet(t) && |DigitsOf(t)| == k + |s| && DigitsOf(t)[k..] == DigitsOf(s)
      && forall i :: 0 <= i < k ==> DigitsOf(t)[i] == 0
  {
    MapRange('1');
    hide DigitOf;
    var t := seq(k, _ => '1') + s;
    assert forall i :: k <= i < |t| ==> t[i] == s[i - k];
  }

  /** What is encoded means what it came from. */
  lemma EncodingMeans(data: seq<byte>)
    ensures InAlphabet(Encoding(data)) && Value(58, DigitsOf(Encoding(data))) == Value(256, data)
    ensures LeadingOnes(Encoding(data)) == LeadingZeros(data)
    ensures LeadingOnes(Encoding(data)) < |Encoding(data)| ==> Encoding(data)[LeadingOnes(Encoding(data))] as int < 128
  {
    var k, ds := LeadingZeros(data), MinimalDigits(58, Value(256, data));
    var s := Encoding(data);
    assert s == seq(k, _ => '1') + Chars(ds);
    assert forall i :: 0 <= i < k ==> s[i] == '1';
    assert k < |s| ==> |ds| > 0 && s[k] == Chars(ds)[0] == Ordered(ds[0]);
    hide *;
    CharsMean(ds);
    OnesInFront(k, Chars(ds));
    ValueSkipsZeros(58, DigitsOf(s), k);
    ValueOfMinimalDigits(58, Value(256, data));
    MinimalDigitsOfZero(58);
    if k < |s| {
      FirstDigit(ds[0]);
    }
    LeadingOnesAre(s, k);
  }

  lemma FirstDigit(d: nat)
    requires 0 < d < 58
    ensures Ordered(d) != '1' && Ordered(d) as int < 128
  {
    TablesAgree(d);
    MapRange('1');
  }

  /** A buffer with the value of the data holds the data on the right, after zeros. */
  lemma RightAligned(bin: seq<byte>, data: seq<byte>)
    requires |data| <= |bin| && Value(256, bin) == Value(256, data)
    ensures bin[|bin| - |data|..] == data
    ensures LeadingZeros(bin) == |bin| - |data| + LeadingZeros(data)
  {
    var k: nat := |bin| - |data|;
    var padded: seq<byte> := seq(k, _ => 0) + data;
    assert padded[k..] == data;
    assert Digits(256, padded) && Digits(256, bin);
    LeadingZerosStop(data);
    assert forall i :: k <= i < |padded| ==> padded[i] == data[i - k];
    LeadingZerosAre(padded, k + LeadingZeros(data));
    hide *;
    ValueSkipsZeros(256, padded, k);
    ValueInjective(256, bin, padded);
  }

  /**
     Decoding what was encoded, into any buffer that is large enough, succeeds, reports the
     original size, and leaves the original bytes at the end of the buffer.
   */
  method RoundTrip(data: seq<byte>, b58: array<char>, bin: array<byte>)
    returns (encoded: bool, decoded: bool, size: int)
    requires |data| <= bin.Length && bin.Length > 0
    modifies b58, bin
    ensures encoded <==> |Encoding(data)| < b58.Length
    ensures encoded ==> decoded && size == |data| && bin[bin.Length - |data|..] == data
  {
    hide *;
    EncodingMeans(data);
    ValueFits(data, bin.Length);
    encoded, size := Encode(b58, b58.Length, data);
    decoded := false;
    if encoded {
      assert b58[..size - 1] == b58[..size][..size - 1] == Encoding(data);
      decoded, size := Decode(bin, b58[..size - 1]);
      RightAligned(bin[..], data);
      assert bin[..][bin.Length - |data|..] == bin[bin.Length - |data|..];
    }
  }

  lemma ValueFits(data: seq<byte>, binsz: nat)
    requires |data| <= binsz
    ensures Value(256, data) < Pow(256, binsz)
    ensures InAlphabet(Encoding(data)) && Value(58, DigitsOf(Encoding(data))) == Value(256, data) ==>
      Fits(Encoding(data), binsz)
  {
    assert Digits(256, data);
    ValueBound(256, data);
    PowGrows(256, |data|, binsz);
  }
}
