/**
 The varint32 that starts a Snappy stream: `Varint` of snappy-stubs-internal.h.
 */
module SnappyVarint {
  import opened Bytes

  /** Seven bits per byte, least significant first, with the top bit set on all but the last. */
  function EncodeVarint(v: nat): (r: seq<byte>)
    ensures |r| >= 1
  {
    if v < 128 then [v] else [v % 128 + 128] + EncodeVarint(v / 128)
  }

  /**
   The value at the start of s and the bytes it takes, given that i bytes of the varint came
   before; None if it is cut short or does not fit 32 bits.
   */
  function ParseVarint(s: seq<byte>, i: nat): (r: Option<(nat, nat)>)
    requires i <= 5
    ensures r.Some? ==> 1 <= r.value.1 <= |s|
    decreases 5 - i
  {
    if i == 5 || s == [] then None
    else if i == 4 && s[0] % 128 >= 16 then None
    else if s[0] < 128 then Some((s[0], 1))
    else match ParseVarint(s[1..], i + 1)
      case None => None
      case Some((high, n)) => Some((s[0] % 128 + 128 * high, n + 1))
  }

  /** 128^(5-i) * 2^-3: what is still to be encoded when i bytes are written is below this. */
  function VarintLimit(i: nat): nat
    requires i <= 4
    decreases 4 - i
  {
    if i == 4 then 16 else 128 * VarintLimit(i + 1)
  }

  lemma {:induction false} ParseVarintBound(s: seq<byte>, i: nat)
    requires i <= 5
    ensures ParseVarint(s, i).Some? ==> i <= 4 && ParseVarint(s, i).value.0 < VarintLimit(i)
    decreases 5 - i
  {
    if i < 5 && s != [] {
      ParseVarintBound(s[1..], i + 1);
      hide *;
      ParsedByte(s, i);
      LimitStart(i);
    }
  }

  lemma ParsedByte(s: seq<byte>, i: nat)
    requires i <= 4 && s != []
    ensures ParseVarint(s, i).Some? ==>
      || (ParseVarint(s, i).value.0 == s[0] < 128 && (i == 4 ==> s[0] < 16))
      || (&& s[0] >= 128 && ParseVarint(s[1..], i + 1).Some?
          && ParseVarint(s, i).value.0 == s[0] % 128 + 128 * ParseVarint(s[1..], i + 1).value.0)
  {
  }

  lemma LimitStart(i: nat)
    requires i <= 4
    ensures VarintLimit(i) >= 16
    ensures i < 4 ==> VarintLimit(i) >= 128 && VarintLimit(i) == 128 * VarintLimit(i + 1)
    decreases 4 - i
  {
    if i < 4 {
      LimitStart(i + 1);
    }
  }

  lemma LimitStep(v: nat, i: nat)
    requires i <= 4 && v < VarintLimit(i)
    ensures v >= 128 ==> i < 4 && v / 128 < VarintLimit(i + 1)
    ensures i == 4 ==> v < 16
  {
  }

  lemma ParseLast(v: nat, i: nat, rest: seq<byte>)
    requires i <= 4 && v < 128 && (i == 4 ==> v < 16)
    ensures EncodeVarint(v) == [v] && ParseVarint(EncodeVarint(v) + rest, i) == Some((v, 1))
  {
  }

  lemma ParseMore(c: byte, s: seq<byte>, i: nat)
    requires i < 4 && c >= 128
    ensures ParseVarint([c] + s, i) ==
      match ParseVarint(s, i + 1) { case None => None case Some((high, n)) => Some((c % 128 + 128 * high, n + 1)) }
  {
    assert ([c] + s)[1..] == s;
  }

  lemma {:induction false} ParseEncodedVarint(v: nat, i: nat, rest: seq<byte>)
    requires i <= 4 && v < VarintLimit(i)
    ensures |EncodeVarint(v)| <= 5 - i
    ensures ParseVarint(EncodeVarint(v) + rest, i) == Some((v, |EncodeVarint(v)|))
    decreases 4 - i
  {
    hide *;
    LimitStep(v, i);
    if v < 128 {
      ParseLast(v, i, rest);
    } else {
      EncodeStep(v);
      ParseEncodedVarint(v / 128, i + 1, rest);
      ConcatAssociative([v % 128 + 128], EncodeVarint(v / 128), rest);
      ParseMore(v % 128 + 128, EncodeVarint(v / 128) + rest, i);
    }
  }

  lemma VarintLimit32()
    ensures VarintLimit(0) == 0x1_0000_0000
  {
    assert VarintLimit(3) == 16 * 128;
    assert VarintLimit(2) == 16 * 128 * 128;
    assert VarintLimit(1) == 16 * 128 * 128 * 128;
  }

  lemma VarintOfTwo(v: nat)
    requires 0x80 <= v < 0x4000
    ensures EncodeVarint(v) == [v % 128 + 128, v / 0x80]
  {
    assert EncodeVarint(v / 128) == [v / 128];
  }

  lemma EncodeStep(v: nat)
    requires v >= 128
    ensures EncodeVarint(v) == [v % 128 + 128] + EncodeVarint(v / 128)
  {
  }

  /** Shifting by seven bits at a time. */
  lemma SevenBits(v: nat)
    ensures v / 128 / 0x80 == v / 0x4000
    ensures v / 128 / 0x4000 == v / 0x20_0000
    ensures v / 128 / 0x20_0000 == v / 0x1000_0000
  {
  }

  lemma VarintOfThree(v: nat)
    requires 0x4000 <= v < 0x20_0000
    ensures EncodeVarint(v) == [v % 128 + 128, v / 0x80 % 128 + 128, v / 0x4000]
  {
    hide *;
    EncodeStep(v);
    VarintOfTwo(v / 128);
    SevenBits(v);
  }

  lemma VarintOfFour(v: nat)
    requires 0x20_0000 <= v < 0x1000_0000
    ensures EncodeVarint(v) == [v % 128 + 128, v / 0x80 % 128 + 128, v / 0x4000 % 128 + 128, v / 0x20_0000]
  {
    hide *;
    EncodeStep(v);
    VarintOfThree(v / 128);
    SevenBits(v);
  }

  lemma VarintOfFive(v: nat)
    requires 0x1000_0000 <= v < 0x1_0000_0000
    ensures EncodeVarint(v) ==
      [v % 128 + 128, v / 0x80 % 128 + 128, v / 0x4000 % 128 + 128, v / 0x20_0000 % 128 + 128, v / 0x1000_0000]
  {
    hide *;
    EncodeStep(v);
    VarintOfFour(v / 128);
    SevenBits(v);
  }

  method Encode32(buf: array<byte>, v: uint32) returns (p: nat)
    requires buf.Length >= 5
    modifies buf
    ensures p <= 5 && buf[..p] == EncodeVarint(v)
  {
    hide EncodeVarint;
    if v < 0x80 {
      VarintOfOne(v);
      buf[0] := v;
      p := 1;
    } else if v < 0x4000 {
      VarintOfTwo(v);
      buf[0], buf[1] := v % 128 + 128, v / 0x80;
      p := 2;
    } else if v < 0x20_0000 {
      VarintOfThree(v);
      buf[0], buf[1], buf[2] := v % 128 + 128, v / 0x80 % 128 + 128, v / 0x4000;
      p := 3;
    } else if v < 0x1000_0000 {
      VarintOfFour(v);
      buf[0], buf[1], buf[2], buf[3] := v % 128 + 128, v / 0x80 % 128 + 128, v / 0x4000 % 128 + 128, v / 0x20_0000;
      p := 4;
    } else {
      VarintOfFive(v);
      buf[0], buf[1], buf[2], buf[3], buf[4] :=
        v % 128 + 128, v / 0x80 % 128 + 128, v / 0x4000 % 128 + 128, v / 0x20_0000 % 128 + 128, v / 0x1000_0000;
      p := 5;
    }
  }

  lemma VarintOfOne(v: nat)
    requires v < 0x80
    ensures EncodeVarint(v) == [v]
  {
  }

  /** 1 << 7j */
  function Scale(j: nat): nat
    requires j <= 5
  {
    if j == 0 then 1 else if j == 1 then 0x80 else if j == 2 then 0x4000
    else if j == 3 then 0x20_0000 else if j == 4 then 0x1000_0000 else 0x8_0000_0000
  }

  /** What parsing yields when j bytes have been read and `result` holds their value. */
  function ParseFrom(mem: seq<byte>, result: nat, j: nat): Option<(nat, nat)>
    requires j <= |mem| && j <= 5
  {
    match ParseVarint(mem[j..], j)
    case None => None
    case Some((high, n)) => Some((result + Scale(j) * high, j + n))
  }

  /** One step of either parser of a varint. */
  lemma ParseStep(mem: seq<byte>, result: nat, j: nat)
    requires j <= |mem| && j <= 4
    ensures ParseFrom(mem, result, j) ==
        if j == |mem| || (j == 4 && mem[j] % 128 >= 16) then None
        else if mem[j] < 128 then Some((result + Scale(j) * mem[j], j + 1))
        else if j == 4 then None
        else ParseFrom(mem, result + Scale(j) * (mem[j] % 128), j + 1)
  {
    if j < |mem| && mem[j] >= 128 {
      assert mem[j..][1..] == mem[j + 1..];
      match ParseVarint(mem[j + 1..], j + 1) {
        case None =>
        case Some((high, n)) =>
          ScaleStep(j, mem[j] % 128, high);
      }
    }
  }

  lemma ScaleStep(j: nat, b: nat, high: nat)
    requires j <= 4
    ensures Scale(j) * (b + 128 * high) == Scale(j) * b + Scale(j + 1) * high
  {
  }

  datatype Step = More(result: nat) | Done(r: Option<(nat, nat)>)

  /** The block that Parse32WithLimit repeats for each byte, at index j and shift 7j. */
  method ParseByte(mem: seq<byte>, result: nat, j: nat) returns (s: Step)
    requires j <= |mem| && j <= 4
    ensures match s
      case Done(r) => ParseFrom(mem, result, j) == r
      case More(next) => j < |mem| && j < 4 && ParseFrom(mem, result, j) == ParseFrom(mem, next, j + 1)
  {
    ParseStep(mem, result, j);
    hide ParseFrom;
    if j >= |mem| {
      return Done(None);
    }
    var b: nat := mem[j];
    var next := result + Scale(j) * (b % 128);
    if b < (if j == 4 then 16 else 128) {
      return Done(Some((next, j + 1)));
    }
    return if j == 4 then Done(None) else More(next);
  }

  /** Returns the value and the index past the varint, or None for NULL. */
  method Parse32WithLimit(mem: seq<byte>) returns (r: Option<(nat, nat)>)
    ensures r == ParseVarint(mem, 0)
  {
    assert mem[0..] == mem;
    assert ParseFrom(mem, 0, 0) == ParseVarint(mem, 0);
    hide *;
    var s := ParseByte(mem, 0, 0);
    if s.More? {
      s := ParseByte(mem, s.result, 1);
    }
    if s.More? {
      s := ParseByte(mem, s.result, 2);
    }
    if s.More? {
      s := ParseByte(mem, s.result, 3);
    }
    if s.More? {
      s := ParseByte(mem, s.result, 4);
    }
    return s.r;
  }
}
