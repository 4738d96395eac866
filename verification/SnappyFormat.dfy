/**
 The Snappy stream format (sections 1, 2.1 and 2.2 of Snappy's format description): a
 varint32 length followed by literals and copies. `Uncompressed` is the meaning that snappy.cc
 gives a flat stream, with one deviation from the format: a literal length field of 0xFFFFFFFF
 wraps round to an empty literal.
 */
module SnappyFormat {
  import opened Bytes
  import opened SnappyCopy
  import opened SnappyVarint

  /** Input is compressed, and output to a sink produced, in blocks of this size. */
  const BLOCK_SIZE := 0x1_0000

  datatype Element =
    | Literal(data: seq<byte>)
    | Copy(offset: nat, length: nat)

  // The meaning of elements.

  /** May e be appended to out without exceeding limit? */
  predicate Applies(out: seq<byte>, e: Element, limit: nat) {
    match e
    case Literal(data) => |out| + |data| <= limit
    case Copy(offset, length) => 1 <= offset <= |out| && |out| + length <= limit
  }

  function Apply(out: seq<byte>, e: Element): seq<byte>
    requires e.Copy? ==> 1 <= e.offset <= |out|
  {
    match e
    case Literal(data) => out + data
    case Copy(offset, length) => CopyFromSelf(out, offset, length)
  }

  /** The output after a run of elements, or None where one of them does not apply. */
  function ApplyAll(out: seq<byte>, elements: seq<Element>, limit: nat): Option<seq<byte>>
    decreases |elements|
  {
    if elements == [] then Some(out)
    else if !Applies(out, elements[0], limit) then None
    else ApplyAll(Apply(out, elements[0]), elements[1..], limit)
  }

  lemma ApplyOne(out: seq<byte>, e: Element, limit: nat)
    requires Applies(out, e, limit)
    ensures ApplyAll(out, [e], limit) == Some(Apply(out, e))
  {
    assert [e][1..] == [];
  }

  lemma {:induction false} ApplyAllAppend(out: seq<byte>, a: seq<Element>, b: seq<Element>, limit: nat)
    ensures ApplyAll(out, a + b, limit) ==
      match ApplyAll(out, a, limit) { case None => None case Some(mid) => ApplyAll(mid, b, limit) }
    decreases |a|
  {
    if a == [] {
      assert a + b == b;
    } else {
      assert (a + b)[1..] == a[1..] + b;
      if Applies(out, a[0], limit) {
        ApplyAllAppend(Apply(out, a[0]), a[1..], b, limit);
      }
    }
  }

  /** Elements that rebuild a block on its own rebuild it after any earlier output too. */
  lemma {:induction false} ApplyAllWithPrefix(prefix: seq<byte>, out: seq<byte>, elements: seq<Element>, limit: nat)
    requires ApplyAll(out, elements, limit).Some?
    ensures ApplyAll(prefix + out, elements, |prefix| + limit) == Some(prefix + ApplyAll(out, elements, limit).value)
    decreases |elements|
  {
    if elements != [] {
      match elements[0] {
        case Literal(data) =>
          assert prefix + out + data == prefix + (out + data);
        case Copy(offset, length) =>
          CopyWithPrefix(prefix, out, offset, length);
      }
      ApplyAllWithPrefix(prefix, Apply(out, elements[0]), elements[1..], limit);
    }
  }

  lemma {:induction false} ApplyAllGrows(out: seq<byte>, elements: seq<Element>, limit: nat, larger: nat)
    requires limit <= larger && ApplyAll(out, elements, limit).Some?
    ensures ApplyAll(out, elements, larger) == ApplyAll(out, elements, limit)
    decreases |elements|
  {
    if elements != [] {
      ApplyAllGrows(Apply(out, elements[0]), elements[1..], limit, larger);
    }
  }

  // Tag bytes.

  const LITERAL := 0
  const COPY_1_BYTE_OFFSET := 1
  const COPY_2_BYTE_OFFSET := 2

  /** How many bytes follow the tag byte c before any literal data. */
  function TrailerSize(c: byte): nat {
    if c % 4 == LITERAL then (if c / 4 < 60 then 0 else c / 4 - 59)
    else if c % 4 == COPY_1_BYTE_OFFSET then 1
    else if c % 4 == COPY_2_BYTE_OFFSET then 2
    else 4
  }

  function LiteralLength(c: byte, trailer: nat): nat {
    if c / 4 < 60 then c / 4 + 1 else (trailer + 1) % 0x1_0000_0000
  }

  function CopyLength(c: byte): nat {
    if c % 4 == COPY_1_BYTE_OFFSET then 4 + (c / 4) % 8 else c / 4 + 1
  }

  function CopyOffset(c: byte, trailer: nat): nat {
    if c % 4 == COPY_1_BYTE_OFFSET then 256 * (c / 32) + trailer else trailer
  }

  /** The first element of a stream and its size in bytes; None if the stream is cut short. */
  function ParseElement(s: seq<byte>): (r: Option<(Element, nat)>)
    requires s != []
    ensures r.Some? ==> 1 <= r.value.1 <= |s|
  {
    var c := s[0];
    var head := 1 + TrailerSize(c);
    if |s| < head then None
    else
      var trailer := LittleEndian(s[1..head]);
      if c % 4 == LITERAL then
        var length := LiteralLength(c, trailer);
        if |s| < head + length then None
        else Some((Literal(s[head..head + length]), head + length))
      else Some((Copy(CopyOffset(c, trailer), CopyLength(c)), head))
  }

  /** The output of decoding all of s after `out`, or None if s is rejected. */
  function Decode(s: seq<byte>, out: seq<byte>, limit: nat): Option<seq<byte>>
    decreases |s|
  {
    if s == [] then Some(out)
    else match ParseElement(s)
      case None => None
      case Some((e, n)) => if Applies(out, e, limit) then Decode(s[n..], Apply(out, e), limit) else None
  }

  lemma DecodeStep(s: seq<byte>, out: seq<byte>, limit: nat, e: Element, n: nat)
    requires s != [] && ParseElement(s) == Some((e, n))
    ensures Decode(s, out, limit) == if Applies(out, e, limit) then Decode(s[n..], Apply(out, e), limit) else None
  {
    hide ParseElement, Apply, Applies;
  }

  lemma DecodeFails(s: seq<byte>, out: seq<byte>, limit: nat)
    requires s != [] && ParseElement(s) == None
    ensures Decode(s, out, limit) == None
  {
    hide ParseElement;
  }

  /** What snappy.cc takes a whole stream to mean: what every way of uncompressing must produce. */
  function Uncompressed(stream: seq<byte>): Option<seq<byte>> {
    match ParseVarint(stream, 0)
    case None => None
    case Some((length, n)) =>
      match Decode(stream[n..], [], length)
      case None => None
      case Some(out) => if |out| == length then Some(out) else None
  }

  // Writing elements.

  /** The bytes of n, least significant first, without leading zeros. */
  function MinimalBytes(n: nat): (r: seq<byte>) {
    if n == 0 then [] else [n % 256] + MinimalBytes(n / 256)
  }

  function EncodeElement(e: Element): seq<byte>
    requires Encodable(e)
  {
    match e
    case Literal(data) =>
      var n := |data| - 1;
      if n < 60 then [4 * n] + data
      else
        MinimalBytesLength(n);
        [4 * (59 + |MinimalBytes(n)|)] + MinimalBytes(n) + data
    case Copy(offset, length) =>
      if length < 12 && offset < 2048 then
        [COPY_1_BYTE_OFFSET + 4 * (length - 4) + 32 * (offset / 256), offset % 256]
      else
        [COPY_2_BYTE_OFFSET + 4 * (length - 1), offset % 256, offset / 256]
  }

  predicate Encodable(e: Element) {
    match e
    case Literal(data) => 1 <= |data| < 0x1_0000_0000
    case Copy(offset, length) => 1 <= offset < 0x1_0000 && 4 <= length <= 64
  }

  ghost predicate AllEncodable(elements: seq<Element>) {
    forall e | e in elements :: Encodable(e)
  }

  lemma AllEncodableAppend(a: seq<Element>, b: seq<Element>)
    ensures AllEncodable(a + b) <==> AllEncodable(a) && AllEncodable(b)
  {
    assert forall e | e in a :: e in a + b;
    assert forall e | e in b :: e in a + b;
  }

  ghost function EncodeAll(elements: seq<Element>): seq<byte>
    requires AllEncodable(elements)
  {
    if elements == [] then []
    else
      assert elements[|elements| - 1] in elements;
      EncodeAll(elements[..|elements| - 1]) + EncodeElement(elements[|elements| - 1])
  }

  lemma EncodeSnoc(a: seq<Element>, e: Element)
    requires AllEncodable(a) && Encodable(e)
    ensures AllEncodable(a + [e])
    ensures EncodeAll(a + [e]) == EncodeAll(a) + EncodeElement(e)
  {
    assert (a + [e])[..|a|] == a;
  }

  lemma {:induction false} EncodeAllAppend(a: seq<Element>, b: seq<Element>)
    requires AllEncodable(a) && AllEncodable(b)
    ensures AllEncodable(a + b)
    ensures EncodeAll(a + b) == EncodeAll(a) + EncodeAll(b)
    decreases |b|
  {
    AllEncodableAppend(a, b);
    if b == [] {
      assert a + b == a;
    } else {
      var init, last := b[..|b| - 1], b[|b| - 1];
      assert last in b;
      assert b == init + [last];
      ConcatAssociative(a, init, [last]);
      hide *;
      AllEncodableAppend(init, [last]);
      EncodeAllAppend(a, init);
      EncodeSnoc(a + init, last);
      EncodeSnoc(init, last);
      ConcatAssociative(EncodeAll(a), EncodeAll(init), EncodeElement(last));
    }
  }

  lemma EncodeOne(e: Element)
    requires Encodable(e)
    ensures AllEncodable([e]) && EncodeAll([e]) == EncodeElement(e)
  {
    assert [e][..0] == [];
  }

  lemma {:induction false} MinimalBytesLength(n: nat)
    requires n < 0x1_0000_0000
    ensures |MinimalBytes(n)|
      == if n == 0 then 0 else if n < 0x100 then 1 else if n < 0x1_0000 then 2 else if n < 0x100_0000 then 3 else 4
    ensures LittleEndian(MinimalBytes(n)) == n
  {
    if n > 0 {
      MinimalBytesLength(n / 256);
      assert MinimalBytes(n)[1..] == MinimalBytes(n / 256);
    }
  }

  lemma LiteralSlices(c: byte, len: seq<byte>, data: seq<byte>, rest: seq<byte>)
    ensures var s := [c] + len + data + rest;
            && |s| == 1 + |len| + |data| + |rest| && s[0] == c
            && s[1..1 + |len|] == len && s[1 + |len|..1 + |len| + |data|] == data
  {
  }

  lemma ParseLiteral(s: seq<byte>, len: seq<byte>, data: seq<byte>)
    requires |s| >= 1 + |len| + |data| && s[0] % 4 == LITERAL && TrailerSize(s[0]) == |len|
    requires s[1..1 + |len|] == len && s[1 + |len|..1 + |len| + |data|] == data
    requires LiteralLength(s[0], LittleEndian(len)) == |data|
    ensures ParseElement(s) == Some((Literal(data), 1 + |len| + |data|))
  {
    hide LittleEndian, LiteralLength, TrailerSize;
  }

  /** The tag of a literal of n + 1 bytes. */
  lemma LiteralTag(n: nat)
    requires n < 0xFFFF_FFFF
    ensures n < 60 ==> (4 * n) % 4 == LITERAL && TrailerSize(4 * n) == 0 && LiteralLength(4 * n, 0) == n + 1
    ensures n >= 60 ==>
      var k := |MinimalBytes(n)|;
      && 1 <= k <= 4 && (4 * (59 + k)) % 4 == LITERAL && TrailerSize(4 * (59 + k)) == k
      && LiteralLength(4 * (59 + k), n) == n + 1
  {
    MinimalBytesLength(n);
    hide MinimalBytes;
  }

  lemma LiteralCode(data: seq<byte>)
    requires 1 <= |data| < 0x1_0000_0000
    ensures var n := |data| - 1;
            && (n < 60 ==> EncodeElement(Literal(data)) == [4 * n] + [] + data)
            && (n >= 60 ==>
              && |MinimalBytes(n)| <= 4
              && EncodeElement(Literal(data)) == [4 * (59 + |MinimalBytes(n)|)] + MinimalBytes(n) + data)
  {
    MinimalBytesLength(|data| - 1);
    hide MinimalBytes;
    assert [4 * (|data| - 1)] + [] == [4 * (|data| - 1)];
  }

  lemma ParseEncodedLiteral(data: seq<byte>, rest: seq<byte>)
    requires 1 <= |data| < 0x1_0000_0000
    ensures var code := EncodeElement(Literal(data));
            code + rest != [] && ParseElement(code + rest) == Some((Literal(data), |code|))
  {
    hide *;
    var n := |data| - 1;
    LiteralTag(n);
    LiteralCode(data);
    if n < 60 {
      LittleEndianOfNothing();
      LiteralSlices(4 * n, [], data, rest);
      ParseLiteral([4 * n] + [] + data + rest, [], data);
    } else {
      MinimalBytesLength(n);
      var len := MinimalBytes(n);
      LiteralSlices(4 * (59 + |len|), len, data, rest);
      ParseLiteral([4 * (59 + |len|)] + len + data + rest, len, data);
    }
  }

  lemma LittleEndianOfNothing()
    ensures LittleEndian([]) == 0
  {
  }

  lemma TwoByteValue(low: byte, high: byte)
    ensures LittleEndian([low]) == low
    ensures LittleEndian([low, high]) == low + 256 * high
  {
    assert [low][1..] == [] && [high][1..] == [] && [low, high][1..] == [high];
  }

  lemma TagFields(low: nat, mid: nat, high: nat)
    requires low < 4 && mid < 8 && high < 8
    ensures var c := low + 4 * mid + 32 * high;
            c % 4 == low && (c / 4) % 8 == mid && c / 32 == high
  {
  }

  lemma ParseEncodedCopy(offset: nat, length: nat, rest: seq<byte>)
    requires 1 <= offset < 0x1_0000 && 4 <= length <= 64
    ensures var code := EncodeElement(Copy(offset, length));
            code + rest != [] && ParseElement(code + rest) == Some((Copy(offset, length), |code|))
  {
    hide ParseElement, LittleEndian, TrailerSize, CopyOffset, CopyLength;
    if length < 12 && offset < 2048 {
      TagFields(1, length - 4, offset / 256);
      ParseShortCopy(1 + 4 * (length - 4) + 32 * (offset / 256), offset % 256, rest);
    } else {
      ParseLongCopy(2 + 4 * (length - 1), offset % 256, offset / 256, rest);
    }
  }

  lemma ParseShortCopy(c: byte, low: byte, rest: seq<byte>)
    requires c % 4 == COPY_1_BYTE_OFFSET
    ensures ParseElement([c, low] + rest) == Some((Copy(256 * (c / 32) + low, 4 + (c / 4) % 8), 2))
  {
    TwoByteValue(low, 0);
    var s := [c, low] + rest;
    assert s[0] == c && s[1..2] == [low] && TrailerSize(c) == 1;
    hide LittleEndian;
  }

  lemma ParseLongCopy(c: byte, low: byte, high: byte, rest: seq<byte>)
    requires c % 4 == COPY_2_BYTE_OFFSET
    ensures ParseElement([c, low, high] + rest) == Some((Copy(low + 256 * high, c / 4 + 1), 3))
  {
    TwoByteValue(low, high);
    var s := [c, low, high] + rest;
    assert s[0] == c && s[1..3] == [low, high] && TrailerSize(c) == 2;
    hide LittleEndian;
  }

  /** Reading back one written element. */
  lemma ParseEncoded(e: Element, rest: seq<byte>)
    requires Encodable(e)
    ensures EncodeElement(e) + rest != []
    ensures ParseElement(EncodeElement(e) + rest) == Some((e, |EncodeElement(e)|))
  {
    match e {
      case Literal(data) => ParseEncodedLiteral(data, rest);
      case Copy(offset, length) => ParseEncodedCopy(offset, length, rest);
    }
  }

  lemma SplitLast(elements: seq<Element>, init: seq<Element>, last: Element)
    requires elements != [] && AllEncodable(elements)
    requires init == elements[..|elements| - 1] && last == elements[|elements| - 1]
    ensures elements == init + [last] && AllEncodable(init) && Encodable(last)
  {
    assert last in elements;
    assert elements == init + [last];
    AllEncodableAppend(init, [last]);
  }

  lemma ApplyLast(out: seq<byte>, e: Element, limit: nat)
    requires ApplyAll(out, [e], limit).Some?
    ensures Applies(out, e, limit) && ApplyAll(out, [e], limit) == Some(Apply(out, e))
  {
    assert [e][1..] == [];
  }

  lemma DecodeOne(e: Element, rest: seq<byte>, out: seq<byte>, limit: nat)
    requires Encodable(e) && Applies(out, e, limit)
    ensures Decode(EncodeElement(e) + rest, out, limit) == Decode(rest, Apply(out, e), limit)
  {
    hide Decode, EncodeElement, Encodable, Applies, Apply;
    ParseEncoded(e, rest);
    var code := EncodeElement(e);
    assert (code + rest)[|code|..] == rest;
    DecodeStep(code + rest, out, limit, e, |code|);
  }

  /** Decoding what was written applies the elements in order and then goes on. */
  lemma {:induction false} DecodeEncoded(elements: seq<Element>, rest: seq<byte>, out: seq<byte>, limit: nat)
    requires AllEncodable(elements)
    requires ApplyAll(out, elements, limit).Some?
    ensures Decode(EncodeAll(elements) + rest, out, limit) ==
      Decode(rest, ApplyAll(out, elements, limit).value, limit)
    decreases |elements|
  {
    if elements == [] {
      assert EncodeAll(elements) + rest == rest;
    } else {
      hide *;
      var init, last := elements[..|elements| - 1], elements[|elements| - 1];
      SplitLast(elements, init, last);
      EncodeSnoc(init, last);
      ApplyAllAppend(out, init, [last], limit);
      ConcatAssociative(EncodeAll(init), EncodeElement(last), rest);
      DecodeEncoded(init, EncodeElement(last) + rest, out, limit);
      var mid := ApplyAll(out, init, limit).value;
      ApplyLast(mid, last, limit);
      DecodeOne(last, rest, mid, limit);
    }
  }

  /** A length header and elements that rebuild `data` are a stream whose meaning is `data`. */
  lemma StreamMeansData(elements: seq<Element>, data: seq<byte>)
    requires |data| < 0x1_0000_0000 && AllEncodable(elements)
    requires ApplyAll([], elements, |data|) == Some(data)
    ensures Uncompressed(EncodeVarint(|data|) + EncodeAll(elements)) == Some(data)
  {
    var header, body := EncodeVarint(|data|), EncodeAll(elements);
    VarintLimit32();
    ParseEncodedVarint(|data|, 0, body);
    assert (header + body)[|header|..] == body;
    DecodeEncoded(elements, [], [], |data|);
    assert body + [] == body;
  }
}
