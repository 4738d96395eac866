/**
 `bitstream`: words of 32 bits, most significant byte first, and length-prefixed strings, in a
 byte stream with one cursor for reading and one for writing.
 */
module BitStream {
  import opened Bytes

  // Byte order.

  /** SwapByte<T, 2> */
  function Swap16(v: uint16): uint16 {
    v / 256 + v % 256 * 256
  }

  /** SwapByte<T, 4> on a little-endian machine. */
  function Swap32(v: uint32): uint32 {
    Swap16(v % 0x1_0000) * 0x1_0000 + Swap16(v / 0x1_0000)
  }

  /** A word as it lies in memory. */
  function HostBytes(v: uint32): (s: seq<byte>)
    ensures |s| == 4
  {
    var (v1, v2, v3) := (v / 256, v / 256 / 256, v / 256 / 256 / 256);
    [v % 256, v1 % 256, v2 % 256, v3 % 256]
  }

  /** The word whose bytes these are, most significant first. */
  function WordOf(a: byte, b: byte, c: byte, d: byte): uint32 {
    var high: nat, low: nat := a * 256 + b, c * 256 + d;
    high * 0x1_0000 + low
  }

  /** A word as it lies in the stream. */
  function U32(n: nat): (s: seq<byte>)
    ensures |s| == 4
  {
    var (n1, n2, n3) := (n / 256, n / 256 / 256, n / 256 / 256 / 256);
    [n3 % 256, n2 % 256, n1 % 256, n % 256]
  }

  lemma BytesOfWord(a: byte, b: byte, c: byte, d: byte)
    ensures HostBytes(WordOf(a, b, c, d)) == [d, c, b, a] && U32(WordOf(a, b, c, d)) == [a, b, c, d]
  {
    var v := WordOf(a, b, c, d);
    var high: nat := a * 256 + b;
    var v1: nat := high * 256 + c;
    assert v / 256 == v1 && v % 256 == d;
    assert v1 / 256 == high && v1 % 256 == c;
  }

  /** A number modulo 2^32 is the word of its four low bytes. */
  lemma WordOfBytes(n: nat)
    ensures var s := U32(n); WordOf(s[0], s[1], s[2], s[3]) == n % 0x1_0000_0000
  {
    var (n1, n2, n3) := (n / 256, n / 256 / 256, n / 256 / 256 / 256);
    WordIs(n3 % 256, n2 % 256, n1 % 256, n % 256);
    hide *;
    LastByte(n);
    LastByte(n1);
    LastByte(n2);
    LastByte(n3);
    FourthPower(n, n3 / 256, ((n3 % 256 * 256 + n2 % 256) * 256 + n1 % 256) * 256 + n % 256);
  }

  lemma WordIs(a: byte, b: byte, c: byte, d: byte)
    ensures WordOf(a, b, c, d) == ((a * 256 + b) * 256 + c) * 256 + d
  {
  }

  lemma LastByte(n: nat)
    ensures n == 256 * (n / 256) + n % 256
  {
  }

  lemma FourthPower(n: nat, q: nat, low: uint32)
    requires n == 0x1_0000_0000 * q + low
    ensures n % 0x1_0000_0000 == low
  {
  }

  lemma SwapOfWord(a: byte, b: byte, c: byte, d: byte)
    ensures Swap32(WordOf(a, b, c, d)) == WordOf(d, c, b, a)
  {
    var v: nat := WordOf(a, b, c, d);
    var high: nat, low: nat := a * 256 + b, c * 256 + d;
    assert v == high * 0x1_0000 + low;
    assert v / 0x1_0000 == high && v % 0x1_0000 == low;
    assert high / 256 == a && high % 256 == b && low / 256 == c && low % 256 == d;
  }

  lemma SwapIsBigEndian(v: uint32)
    ensures HostBytes(Swap32(v)) == U32(v)
  {
    hide *;
    WordOfBytes(v);
    var s := U32(v);
    SwapOfWord(s[0], s[1], s[2], s[3]);
    BytesOfWord(s[3], s[2], s[1], s[0]);
    assert s == [s[0], s[1], s[2], s[3]];
  }

  // What is at the start of some bytes.

  /** A word and what follows it. */
  function ReadU32(s: seq<byte>): (r: Option<(uint32, seq<byte>)>) {
    if |s| < 4 then None
    else Some((WordOf(s[0], s[1], s[2], s[3]), s[4..]))
  }

  lemma ReadWritten(n: nat, rest: seq<byte>)
    ensures ReadU32(U32(n) + rest) == Some((n % 0x1_0000_0000, rest))
  {
    WordOfBytes(n);
    var w := U32(n);
    hide U32, WordOf;
    assert (w + rest)[4..] == rest && (w + rest)[..4] == w;
  }

  function TextCode(text: seq<byte>): seq<byte> {
    U32(|text|) + text
  }

  /** A string and what follows it. */
  function ReadText(s: seq<byte>): (r: Option<(seq<byte>, seq<byte>)>) {
    match ReadU32(s)
    case None => None
    case Some((length, rest)) => if |rest| < length then None else Some((rest[..length], rest[length..]))
  }

  lemma ReadWrittenText(text: seq<byte>, rest: seq<byte>)
    requires |text| < 0x1_0000_0000
    ensures ReadText(TextCode(text) + rest) == Some((text, rest))
  {
    ConcatAssociative(U32(|text|), text, rest);
    ReadWritten(|text|, text + rest);
    hide U32, ReadU32;
    assert (text + rest)[..|text|] == text && (text + rest)[|text|..] == rest;
  }

  lemma U32Wraps(n: nat)
    ensures U32(n % 0x1_0000_0000) == U32(n)
  {
    WordOfBytes(n);
    var s := U32(n);
    BytesOfWord(s[0], s[1], s[2], s[3]);
    hide U32, WordOf;
  }

  class BitStream {
    var bytes: seq<byte>
    var readPos: nat
    var writePos: nat
    /** The stream's fail bit: an earlier read went past the end. */
    var failed: bool

    ghost predicate Valid()
      reads this
    {
      readPos <= |bytes| && writePos <= |bytes|
    }

    /** What is still to be read. */
    function Rest(): seq<byte>
      requires Valid()
      reads this
    {
      bytes[readPos..]
    }

    constructor (bytes: seq<byte>)
      ensures Valid() && this.bytes == bytes && readPos == writePos == 0 && !failed
    {
      this.bytes := bytes;
      readPos, writePos, failed := 0, 0, false;
    }

    /** bytecode.write: over what is there, and on past the end. */
    method Write(data: seq<byte>)
      requires Valid()
      modifies `bytes, `writePos
      ensures Valid() && writePos == old(writePos) + |data|
      ensures bytes == old(bytes)[..old(writePos)] + data
        + (if old(writePos) + |data| <= |old(bytes)| then old(bytes)[old(writePos) + |data|..] else [])
    {
      var end := writePos + |data|;
      bytes := bytes[..writePos] + data + (if end <= |bytes| then bytes[end..] else []);
      writePos := end;
    }

    /** At the end, writing appends. */
    method Append(data: seq<byte>)
      requires Valid() && writePos == |bytes|
      modifies `bytes, `writePos
      ensures Valid() && writePos == |bytes| && bytes == old(bytes) + data
    {
      assert bytes[..writePos] == bytes;
      Write(data);
    }

    /** operator<< for words */
    method PutWord(v: uint32)
      requires Valid()
      modifies `bytes, `writePos
      ensures Valid() && writePos == old(writePos) + 4
      ensures bytes == old(bytes)[..old(writePos)] + U32(v)
        + (if old(writePos) + 4 <= |old(bytes)| then old(bytes)[old(writePos) + 4..] else [])
    {
      SwapIsBigEndian(v);
      hide *;
      Write(HostBytes(Swap32(v)));
    }

    /** A word at the end. */
    method AppendWord(v: uint32)
      requires Valid() && writePos == |bytes|
      modifies `bytes, `writePos
      ensures Valid() && writePos == |bytes| && bytes == old(bytes) + U32(v)
    {
      assert bytes[..writePos] == bytes;
      hide U32;
      PutWord(v);
    }

    /** operator<< for strings, at the end */
    method AppendText(text: seq<byte>)
      requires Valid() && writePos == |bytes|
      modifies `bytes, `writePos
      ensures Valid() && writePos == |bytes| && bytes == old(bytes) + TextCode(text)
    {
      hide U32;
      ghost var before := bytes;
      U32Wraps(|text|);
      AppendWord(|text| % 0x1_0000_0000);
      if |text| > 0 {
        Append(text);
      }
      ConcatAssociative(before, U32(|text|), text);
      assert text == [] ==> U32(|text|) + text == U32(|text|);
    }

    /** operator>> for words */
    method GetWord() returns (r: Option<uint32>)
      requires Valid()
      modifies `readPos, `failed
      ensures Valid() && (r == None <==> failed)
      ensures !old(failed) ==> match ReadU32(old(Rest()))
        case None => r == None
        case Some((v, rest)) => r == Some(v) && Rest() == rest
      ensures old(failed) ==> failed
    {
      if failed || |bytes| - readPos < 4 {
        failed := true;
        return None;
      }
      var at := readPos;
      SwapOfWord(bytes[at + 3], bytes[at + 2], bytes[at + 1], bytes[at]);
      hide Swap32, WordOf;
      var v := Swap32(WordOf(bytes[at + 3], bytes[at + 2], bytes[at + 1], bytes[at]));
      readPos := readPos + 4;
      assert bytes[at..][4..] == bytes[readPos..];
      return Some(v);
    }

    /** operator>> for strings */
    method GetText() returns (r: Option<seq<byte>>)
      requires Valid() && !failed
      modifies `readPos, `failed
      ensures Valid() && (r == None <==> failed)
      ensures match ReadText(old(Rest()))
        case None => r == None
        case Some((text, rest)) => r == Some(text) && Rest() == rest
    {
      hide ReadU32;
      var length := GetWord();
      if length == None {
        return None;
      }
      if |bytes| - readPos < length.value {
        failed := true;
        return None;
      }
      r := Some(bytes[readPos..readPos + length.value]);
      assert Rest()[..length.value] == r.value && Rest()[length.value..] == bytes[readPos + length.value..];
      readPos := readPos + length.value;
    }

    /** Read: the end of the stream is not checked for, but the fail bit is set. */
    method Read(count: uint32) returns (text: seq<byte>)
      requires Valid() && !failed
      modifies `readPos, `failed
      ensures Valid() && (failed <==> |old(Rest())| < count)
      ensures !failed ==> text == old(Rest())[..count] && Rest() == old(Rest())[count..]
    {
      if |bytes| - readPos < count {
        text := bytes[readPos..] + seq(count - (|bytes| - readPos), _ => 32);
        readPos, failed := |bytes|, true;
        return;
      }
      text := bytes[readPos..readPos + count];
      assert bytes[readPos..][..count] == text && bytes[readPos..][count..] == bytes[readPos + count..];
      readPos := readPos + count;
    }

    method MoveToWrite(pos: nat)
      requires pos <= |bytes|
      modifies `writePos
      ensures writePos == pos
    {
      writePos := pos;
    }

    method MoveToEndWrite()
      modifies `writePos
      ensures writePos == |bytes|
    {
      writePos := |bytes|;
    }
  }
}
