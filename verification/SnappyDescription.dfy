/**
 The format in the words of its description, byte by byte and in numerals, independent of the
 decoder's definitions; and the proof that both give every stream the same meaning.
 */
module SnappyDescription {
  import opened Bytes
  import opened SnappyCopy
  import opened SnappyFormat
  import opened SnappyFormatMeaning
  import opened SnappyVarint

  // Section 2.1: literals.

  function At(code: seq<byte>, i: nat): nat
    requires i < |code|
  {
    code[i]
  }

  /** The k bytes after the tag, the least significant one first. */
  function Field(code: seq<byte>, k: nat): nat
    requires 1 <= k <= 4 && k < |code|
  {
    if k == 1 then At(code, 1)
    else if k == 2 then At(code, 1) + 256 * At(code, 2)
    else if k == 3 then At(code, 1) + 256 * At(code, 2) + 65536 * At(code, 3)
    else At(code, 1) + 256 * At(code, 2) + 65536 * At(code, 3) + 16777216 * At(code, 4)
  }

  predicate IsShortLiteral(code: seq<byte>, data: seq<byte>) {
    1 <= |data| <= 60 && code == [4 * (|data| - 1)] + data
  }

  /** The tag byte says how many bytes the length less one takes. */
  predicate IsLongLiteral(code: seq<byte>, data: seq<byte>, k: nat) {
    && 1 <= k <= 4 && |code| == 1 + k + |data|
    && code[0] == 4 * (59 + k) && |data| == Field(code, k) + 1 && code[1 + k..] == data
  }

  predicate IsLiteral(code: seq<byte>, data: seq<byte>) {
    IsShortLiteral(code, data) || exists k: nat | k <= 4 :: IsLongLiteral(code, data, k)
  }

  // Section 2.2: copies.

  predicate IsCopy1(code: seq<byte>, offset: nat, length: nat) {
    && offset < 2048 && 4 <= length <= 11
    && code == [1 + 4 * (length - 4) + 32 * (offset / 256), offset % 256]
  }

  predicate IsCopy2(code: seq<byte>, offset: nat, length: nat) {
    && 1 <= length <= 64 && |code| == 3
    && code[0] == 2 + 4 * (length - 1) && offset == Field(code, 2)
  }

  predicate IsCopy4(code: seq<byte>, offset: nat, length: nat) {
    && 1 <= length <= 64 && |code| == 5
    && code[0] == 3 + 4 * (length - 1) && offset == Field(code, 4)
  }

  predicate IsCopy(code: seq<byte>, offset: nat, length: nat) {
    IsCopy1(code, offset, length) || IsCopy2(code, offset, length) || IsCopy4(code, offset, length)
  }

  predicate IsElement(code: seq<byte>, e: Element) {
    match e
    case Literal(data) => IsLiteral(code, data)
    case Copy(offset, length) => IsCopy(code, offset, length)
  }

  // Section 1: the header.

  /** The low seven bits of byte i, if there is one. */
  function Seven(code: seq<byte>, i: nat): nat {
    if i < |code| then code[i] % 128 else 0
  }

  /** Seven bits of the length a byte, the least significant ones first; only the last is below 128. */
  ghost predicate IsHeader(code: seq<byte>, length: nat) {
    && 1 <= |code| <= 5 && code[|code| - 1] < 128 && (|code| == 5 ==> code[4] < 16)
    && (forall i :: 0 <= i < |code| - 1 ==> code[i] >= 128)
    && length == Seven(code, 0) + 128 * Seven(code, 1) + 16384 * Seven(code, 2)
                 + 2097152 * Seven(code, 3) + 268435456 * Seven(code, 4)
  }

  // Whole streams.

  /** What an element makes of the output. */
  ghost predicate Extends(out: seq<byte>, e: Element, next: seq<byte>) {
    match e
    case Literal(data) => next == out + data
    case Copy(offset, length) =>
      && 1 <= offset <= |out| && |next| == |out| + length && next[..|out|] == out
      && forall i :: |out| <= i < |next| ==> next[i] == next[i - offset]
  }

  /** The first n bytes of s are one element, which leads from `out` to `next`. */
  ghost predicate Continues(s: seq<byte>, out: seq<byte>, e: Element, n: nat, next: seq<byte>) {
    1 <= n <= |s| && IsElement(s[..n], e) && Extends(out, e, next)
  }

  /** s is a run of elements, which lead from `out` to `all`. */
  ghost predicate Produces(s: seq<byte>, out: seq<byte>, all: seq<byte>)
    decreases |s|
  {
    if s == [] then out == all
    else exists e, n: nat, next :: Continues(s, out, e, n, next) && Produces(s[n..], next, all)
  }

  /** A stream: the length of the data and elements that produce the data. */
  ghost predicate Describes(stream: seq<byte>, data: seq<byte>) {
    exists h: nat :: h <= |stream| && IsHeader(stream[..h], |data|) && Produces(stream[h..], [], data)
  }

  // Elements are read as described.

  lemma FieldIs(s: seq<byte>, k: nat)
    requires 1 <= k <= 4 && k < |s|
    ensures LittleEndian(s[1..1 + k]) == Field(s, k)
  {
    LittleEndianAt(s, 1, k);
    LittleEndianAt(s, 2, k - 1);
    if k > 1 {
      LittleEndianAt(s, 3, k - 2);
    }
    if k > 2 {
      LittleEndianAt(s, 4, k - 3);
    }
    if k > 3 {
      LittleEndianAt(s, 5, 0);
    }
  }

  lemma LittleEndianAt(s: seq<byte>, i: nat, k: nat)
    requires i + k <= |s|
    ensures LittleEndian(s[i..i + k]) == if k == 0 then 0 else At(s, i) + 256 * LittleEndian(s[i + 1..i + k])
  {
    if k > 0 {
      assert s[i..i + k][1..] == s[i + 1..i + k];
    }
  }

  lemma FieldOfFront(s: seq<byte>, n: nat, k: nat)
    requires 1 <= k <= 4 && k < n <= |s|
    ensures Field(s[..n], k) == Field(s, k)
  {
  }

  // What the decoder's definitions make of each kind of tag.

  lemma ReadShortLiteral(s: seq<byte>)
    requires s != [] && s[0] % 4 == 0 && s[0] < 240
    ensures var n := s[0] / 4 + 1;
      FormatElement(s) == if |s| < 1 + n then None else Some((Literal(s[1..1 + n]), 1 + n))
  {
    hide LittleEndian;
  }

  lemma ReadLongLiteral(s: seq<byte>, k: nat)
    requires s != [] && 1 <= k <= 4 && s[0] == 4 * (59 + k)
    ensures |s| <= k ==> FormatElement(s) == None
    ensures |s| > k ==>
      var n := Field(s, k) + 1;
      FormatElement(s) == if |s| < 1 + k + n then None else Some((Literal(s[1 + k..1 + k + n]), 1 + k + n))
  {
    assert TrailerSize(s[0]) == k;
    if |s| > k {
      FieldIs(s, k);
    }
    hide LittleEndian, Field, TrailerSize;
  }

  lemma ReadCopy1(s: seq<byte>)
    requires s != [] && s[0] % 4 == 1
    ensures FormatElement(s) ==
      if |s| < 2 then None else Some((Copy(256 * (s[0] / 32) + At(s, 1), 4 + s[0] / 4 % 8), 2))
  {
    if |s| >= 2 {
      FieldIs(s, 1);
    }
    hide LittleEndian;
  }

  lemma ReadCopy2(s: seq<byte>)
    requires s != [] && s[0] % 4 == 2
    ensures FormatElement(s) == if |s| < 3 then None else Some((Copy(Field(s, 2), s[0] / 4 + 1), 3))
  {
    if |s| >= 3 {
      FieldIs(s, 2);
    }
    hide LittleEndian;
  }

  lemma ReadCopy4(s: seq<byte>)
    requires s != [] && s[0] % 4 == 3
    ensures FormatElement(s) == if |s| < 5 then None else Some((Copy(Field(s, 4), s[0] / 4 + 1), 5))
  {
    if |s| >= 5 {
      FieldIs(s, 4);
    }
    hide LittleEndian;
  }

  // And what the description does.

  lemma ShortLiteralIs(s: seq<byte>, data: seq<byte>, n: nat)
    requires n <= |s|
    ensures IsShortLiteral(s[..n], data) <==>
      n > 0 && s[0] % 4 == 0 && s[0] < 240 && n == s[0] / 4 + 2 && data == s[1..n]
  {
    if n > 0 {
      assert s[..n] == [s[0]] + s[1..n];
    }
  }

  lemma LongLiteralIs(s: seq<byte>, data: seq<byte>, n: nat, k: nat)
    requires n <= |s| && k <= 4
    ensures IsLongLiteral(s[..n], data, k) <==>
      && 1 <= k < n && s[0] == 4 * (59 + k) && n == 1 + k + Field(s, k) + 1 && data == s[1 + k..n]
  {
    if 1 <= k < n {
      FieldOfFront(s, n, k);
      assert s[..n][1 + k..] == s[1 + k..n];
    }
    hide Field;
  }

  lemma LiteralIs(s: seq<byte>, data: seq<byte>, n: nat)
    requires n <= |s|
    ensures IsLiteral(s[..n], data) <==>
      IsShortLiteral(s[..n], data) || IsLongLiteral(s[..n], data, 1) || IsLongLiteral(s[..n], data, 2)
      || IsLongLiteral(s[..n], data, 3) || IsLongLiteral(s[..n], data, 4)
  {
    hide IsShortLiteral;
    hide Field;
  }

  lemma LiteralAsDescribed(s: seq<byte>, data: seq<byte>, n: nat)
    requires s != [] && s[0] % 4 == 0 && n <= |s|
    ensures FormatElement(s) == Some((Literal(data), n)) <==> IsLiteral(s[..n], data)
  {
    hide *;
    LiteralIs(s, data, n);
    ShortLiteralIs(s, data, n);
    LongLiteralIs(s, data, n, 1);
    LongLiteralIs(s, data, n, 2);
    LongLiteralIs(s, data, n, 3);
    LongLiteralIs(s, data, n, 4);
    var k := s[0] / 4;
    if k < 60 {
      ReadShortLiteral(s);
    } else {
      ReadLongLiteral(s, k - 59);
    }
  }

  lemma FirstByte(c: byte, low: byte, offset: nat, length: nat)
    ensures offset == 256 * (c / 32) + low && c % 4 == 1 && length == 4 + c / 4 % 8 <==>
      4 <= length <= 11 && c == 1 + 4 * (length - 4) + 32 * (offset / 256) && low == offset % 256
  {
    hide *;
    if 4 <= length <= 11 && c == 1 + 4 * (length - 4) + 32 * (offset / 256) && low == offset % 256 {
      TagFields(1, length - 4, offset / 256);
    } else {
      var mid, high := c / 4 % 8, c / 32;
      TagParts(c);
      HighLow(high, low);
    }
  }

  lemma TagParts(c: byte)
    ensures c == c % 4 + 4 * (c / 4 % 8) + 32 * (c / 32)
  {
  }

  lemma HighLow(high: nat, low: byte)
    ensures (256 * high + low) / 256 == high && (256 * high + low) % 256 == low
  {
  }

  lemma CopyIs1(s: seq<byte>, offset: nat, length: nat, n: nat)
    requires n <= |s|
    ensures IsCopy1(s[..n], offset, length) <==>
      n == 2 && s[0] % 4 == 1 && offset == 256 * (s[0] / 32) + At(s, 1) && length == 4 + s[0] / 4 % 8
  {
    if n == 2 {
      assert s[..n] == [s[0], s[1]];
      FirstByte(s[0], s[1], offset, length);
    }
  }

  lemma CopyIs2(s: seq<byte>, offset: nat, length: nat, n: nat)
    requires n <= |s|
    ensures IsCopy2(s[..n], offset, length) <==>
      n == 3 && s[0] % 4 == 2 && offset == Field(s, 2) && length == s[0] / 4 + 1
  {
    if n == 3 {
      FieldOfFront(s, n, 2);
    }
    hide Field;
  }

  lemma CopyIs4(s: seq<byte>, offset: nat, length: nat, n: nat)
    requires n <= |s|
    ensures IsCopy4(s[..n], offset, length) <==>
      n == 5 && s[0] % 4 == 3 && offset == Field(s, 4) && length == s[0] / 4 + 1
  {
    if n == 5 {
      FieldOfFront(s, n, 4);
    }
    hide Field;
  }

  lemma CopyAsDescribed(s: seq<byte>, offset: nat, length: nat, n: nat)
    requires s != [] && s[0] % 4 != 0 && n <= |s|
    ensures FormatElement(s) == Some((Copy(offset, length), n)) <==> IsCopy(s[..n], offset, length)
  {
    CopyIs1(s, offset, length, n);
    CopyIs2(s, offset, length, n);
    CopyIs4(s, offset, length, n);
    hide FormatElement, IsCopy1, IsCopy2, IsCopy4, Field;
    if s[0] % 4 == 1 {
      ReadCopy1(s);
    } else if s[0] % 4 == 2 {
      ReadCopy2(s);
    } else {
      ReadCopy4(s);
    }
  }

  /** A literal is no copy, and the other way round. */
  lemma KindOfTag(s: seq<byte>, e: Element, n: nat)
    requires s != [] && n <= |s|
    ensures IsElement(s[..n], e) ==> (e.Literal? <==> s[0] % 4 == 0)
    ensures FormatElement(s) == Some((e, n)) ==> (e.Literal? <==> s[0] % 4 == 0)
  {
    match e {
      case Literal(data) =>
        ShortLiteralIs(s, data, n);
        LiteralIs(s, data, n);
        hide Field, IsShortLiteral, LittleEndian, TrailerSize, FormatLength;
      case Copy(offset, length) =>
        CopyIs1(s, offset, length, n);
        CopyIs2(s, offset, length, n);
        CopyIs4(s, offset, length, n);
        hide IsCopy1, IsCopy2, IsCopy4, Field, LittleEndian, TrailerSize, FormatLength;
    }
  }

  /** An element is read where, and only where, there is one of the description's. */
  lemma ElementAsDescribed(s: seq<byte>, e: Element, n: nat)
    requires s != []
    ensures FormatElement(s) == Some((e, n)) <==> n <= |s| && IsElement(s[..n], e)
  {
    hide IsLiteral, IsCopy, FormatElement;
    if n <= |s| {
      KindOfTag(s, e, n);
      match e {
        case Literal(data) =>
          if s[0] % 4 == 0 {
            LiteralAsDescribed(s, data, n);
          }
        case Copy(offset, length) =>
          if s[0] % 4 != 0 {
            CopyAsDescribed(s, offset, length, n);
          }
      }
    }
  }

  // So are headers.

  /** What the first j bytes contribute. */
  function SumTo(s: seq<byte>, j: nat): nat
    requires j <= 5
  {
    if j == 0 then 0 else SumTo(s, j - 1) + Scale(j - 1) * Seven(s, j - 1)
  }

  /** The first n bytes are a header, of which the first j are marked to be continued. */
  ghost predicate EndsAt(s: seq<byte>, n: nat) {
    && 1 <= n <= 5 && n <= |s| && s[n - 1] < 128 && (n == 5 ==> s[4] < 16)
    && forall i :: 0 <= i < n - 1 ==> s[i] >= 128
  }

  lemma NextByte(s: seq<byte>, j: nat)
    requires j <= 4 && j <= |s|
    ensures ParseFrom(s, SumTo(s, j), j) ==
      if j == |s| || (j == 4 && s[j] % 128 >= 16) then None
      else if s[j] < 128 then Some((SumTo(s, j + 1), j + 1))
      else if j == 4 then None
      else ParseFrom(s, SumTo(s, j + 1), j + 1)
  {
    ParseStep(s, SumTo(s, j), j);
    hide ParseFrom, Scale;
  }

  lemma {:induction false} HeaderFrom(s: seq<byte>, j: nat, length: nat, n: nat)
    requires j <= 4 && j <= |s| && forall i :: 0 <= i < j ==> s[i] >= 128
    ensures ParseFrom(s, SumTo(s, j), j) == Some((length, n)) <==> EndsAt(s, n) && length == SumTo(s, n)
    decreases 4 - j
  {
    NextByte(s, j);
    hide ParseFrom, SumTo;
    if j < 4 && j < |s| && s[j] >= 128 {
      HeaderFrom(s, j + 1, length, n);
    }
  }

  lemma SumIs(code: seq<byte>)
    requires 1 <= |code| <= 5
    ensures SumTo(code, |code|) == Seven(code, 0) + 128 * Seven(code, 1) + 16384 * Seven(code, 2)
                                   + 2097152 * Seven(code, 3) + 268435456 * Seven(code, 4)
  {
    assert SumTo(code, 1) == Seven(code, 0);
    assert |code| >= 2 ==> SumTo(code, 2) == SumTo(code, 1) + 128 * Seven(code, 1);
    assert |code| >= 3 ==> SumTo(code, 3) == SumTo(code, 2) + 16384 * Seven(code, 2);
    assert |code| >= 4 ==> SumTo(code, 4) == SumTo(code, 3) + 2097152 * Seven(code, 3);
    assert |code| >= 5 ==> SumTo(code, 5) == SumTo(code, 4) + 268435456 * Seven(code, 4);
  }

  lemma {:induction false} SumOfFront(s: seq<byte>, n: nat, j: nat)
    requires j <= n <= |s| && n <= 5
    ensures SumTo(s[..n], j) == SumTo(s, j)
  {
    if j > 0 {
      SumOfFront(s, n, j - 1);
    }
  }

  lemma VarintFromStart(s: seq<byte>)
    ensures ParseVarint(s, 0) == ParseFrom(s, SumTo(s, 0), 0)
  {
    assert s[0..] == s;
    hide ParseVarint;
  }

  lemma FrontIsHeader(s: seq<byte>, n: nat, length: nat)
    requires n <= |s|
    ensures IsHeader(s[..n], length) <==> EndsAt(s, n) && length == SumTo(s, n)
  {
    if 1 <= n <= 5 {
      SumIs(s[..n]);
      SumOfFront(s, n, n);
    }
    hide SumTo, Seven;
  }

  /** A header is read where, and only where, there is one of the description's. */
  lemma HeaderAsDescribed(s: seq<byte>, length: nat, n: nat)
    ensures ParseVarint(s, 0) == Some((length, n)) <==> n <= |s| && IsHeader(s[..n], length)
  {
    VarintFromStart(s);
    HeaderFrom(s, 0, length, n);
    hide ParseVarint, ParseFrom, SumTo, IsHeader;
    if n <= |s| {
      FrontIsHeader(s, n, length);
    }
  }

  // Whole streams mean what is described.

  lemma ExtendsIs(out: seq<byte>, e: Element, next: seq<byte>, limit: nat)
    ensures |next| <= limit && Extends(out, e, next) <==> Applies(out, e, limit) && next == Apply(out, e)
  {
    if e.Copy? && 1 <= e.offset <= |out| {
      CopyRepeats(out, e.offset, e.length);
      var r := CopyFromSelf(out, e.offset, e.length);
      hide CopyFromSelf;
      if Extends(out, e, next) {
        Continuation(r, next, |out|, e.offset);
      }
    }
  }

  /** There is one way to go on with a period. */
  lemma {:induction false} Continuation(r: seq<byte>, t: seq<byte>, k: nat, offset: nat)
    requires |r| == |t| >= k && 1 <= offset <= k && r[..k] == t[..k]
    requires forall i :: k <= i < |r| ==> r[i] == r[i - offset] && t[i] == t[i - offset]
    ensures r == t
    decreases |r| - k
  {
    if k < |r| {
      assert r[..k][k - offset] == t[..k][k - offset];
      assert r[..k + 1] == r[..k] + [r[k]] && t[..k + 1] == t[..k] + [t[k]];
      Continuation(r, t, k + 1, offset);
    } else {
      assert r[..k] == r && t[..k] == t;
    }
  }

  lemma {:induction false} ProducesMore(s: seq<byte>, out: seq<byte>, all: seq<byte>)
    requires Produces(s, out, all)
    ensures |out| <= |all|
    decreases |s|
  {
    if s != [] {
      var e, n: nat, next :| Continues(s, out, e, n, next) && Produces(s[n..], next, all);
      hide IsElement;
      ProducesMore(s[n..], next, all);
    }
  }

  /** Decoding by the format produces what is described. */
  lemma {:induction false} DecodeAsDescribed(s: seq<byte>, out: seq<byte>, limit: nat, all: seq<byte>)
    requires |out| <= limit
    ensures FormatDecode(s, out, limit) == Some(all) <==> |all| <= limit && Produces(s, out, all)
    decreases |s|
  {
    if s != [] {
      hide IsElement, FormatElement, Extends, Apply, Applies, Continues;
      if FormatElement(s).Some? {
        var (e, n) := FormatElement(s).value;
        ElementAsDescribed(s, e, n);
        if Applies(out, e, limit) {
          var next := Apply(out, e);
          ExtendsIs(out, e, next, limit);
          DecodeAsDescribed(s[n..], next, limit, all);
          ContinuesIs(s, out, e, n, next);
        }
      }
      if |all| <= limit && Produces(s, out, all) {
        var e, n: nat, next :| Continues(s, out, e, n, next) && Produces(s[n..], next, all);
        ContinuesIs(s, out, e, n, next);
        ElementAsDescribed(s, e, n);
        ProducesMore(s[n..], next, all);
        ExtendsIs(out, e, next, limit);
      }
    }
  }

  lemma ContinuesIs(s: seq<byte>, out: seq<byte>, e: Element, n: nat, next: seq<byte>)
    ensures Continues(s, out, e, n, next) <==> 1 <= n <= |s| && IsElement(s[..n], e) && Extends(out, e, next)
  {
    hide IsElement, Extends;
  }

  /** The format's meaning of a stream is the data that it describes. */
  lemma FormatAsDescribed(stream: seq<byte>, data: seq<byte>)
    ensures FormatUncompressed(stream) == Some(data) <==> Describes(stream, data)
  {
    hide FormatDecode, Produces, IsHeader, ParseVarint;
    if ParseVarint(stream, 0).Some? {
      var (length, n) := ParseVarint(stream, 0).value;
      HeaderAsDescribed(stream, length, n);
      DecodeAsDescribed(stream[n..], [], length, data);
    }
    if Describes(stream, data) {
      var h: nat :| h <= |stream| && IsHeader(stream[..h], |data|) && Produces(stream[h..], [], data);
      HeaderAsDescribed(stream, |data|, h);
    }
  }

  /** So is snappy.cc's, but for the streams in which decoding meets a length that wraps round. */
  lemma MeaningAsDescribed(stream: seq<byte>, data: seq<byte>)
    ensures Describes(stream, data) <==> Uncompressed(stream) == Some(data) && !StreamWraps(stream)
  {
    hide *;
    FormatAsDescribed(stream, data);
    MeaningByFormat(stream);
  }

  // Streams of one literal, or a literal and a copy.

  lemma OneElement(s: seq<byte>, out: seq<byte>, e: Element, next: seq<byte>)
    requires s != [] && IsElement(s, e) && Extends(out, e, next)
    ensures Produces(s, out, next)
  {
    hide IsElement, Extends;
    assert s[..|s|] == s && s[|s|..] == [];
    ContinuesIs(s, out, e, |s|, next);
    assert Produces(s[|s|..], next, next);
  }

  lemma WithHeader(body: seq<byte>, data: seq<byte>)
    requires |data| < 128 && Produces(body, [], data)
    ensures Uncompressed([|data|] + body) == Some(data)
  {
    var stream := [|data|] + body;
    assert stream[..1] == [|data|] && stream[1..] == body;
    assert IsHeader(stream[..1], |data|);
    hide *;
    DescribesIs(stream, data, 1);
    MeaningAsDescribed(stream, data);
  }

  lemma DescribesIs(stream: seq<byte>, data: seq<byte>, h: nat)
    requires h <= |stream| && IsHeader(stream[..h], |data|) && Produces(stream[h..], [], data)
    ensures Describes(stream, data)
  {
    hide IsHeader, Produces;
  }

  lemma ShortLetter(rest: seq<byte>)
    ensures var body := [0, 97] + rest;
      IsElement(body[..2], Literal([97])) && body[2..] == rest && Extends([], Literal([97]), [97])
  {
    var body := [0, 97] + rest;
    assert body[..2] == [4 * (1 - 1)] + [97] && body[2..] == rest;
  }

  lemma LongLetter()
    ensures IsElement([240, 0, 97], Literal([97])) && Extends([], Literal([97]), [97])
  {
    assert IsLongLiteral([240, 0, 97], [97], 1);
  }

  lemma CopyOfLetter()
    ensures Extends([97], Copy(1, 4), [97, 97, 97, 97, 97])
  {
  }

  lemma TwoElements(s: seq<byte>, out: seq<byte>, e: Element, n: nat, next: seq<byte>, all: seq<byte>)
    requires Continues(s, out, e, n, next) && n <= |s| && Produces(s[n..], next, all)
    ensures Produces(s, out, all)
  {
    hide IsElement, Extends;
  }

  /** The letter a, and then a copy of it that overlaps itself. */
  lemma LetterAndCopy(copy: seq<byte>)
    requires copy != [] && IsElement(copy, Copy(1, 4))
    ensures Uncompressed([5] + ([0, 97] + copy)) == Some([97, 97, 97, 97, 97])
  {
    hide *;
    var all: seq<byte> := [97, 97, 97, 97, 97];
    CopyOfLetter();
    OneElement(copy, [97], Copy(1, 4), all);
    ShortLetter(copy);
    ContinuesIs([0, 97] + copy, [], Literal([97]), 2, [97]);
    TwoElements([0, 97] + copy, [], Literal([97]), 2, [97], all);
    WithHeader([0, 97] + copy, all);
  }

  /** One stream for each kind of copy. */
  lemma StreamsWithCopies()
    ensures Uncompressed([5, 0, 97, 1, 1]) == Some([97, 97, 97, 97, 97])
    ensures Uncompressed([5, 0, 97, 14, 1, 0]) == Some([97, 97, 97, 97, 97])
    ensures Uncompressed([5, 0, 97, 15, 1, 0, 0, 0]) == Some([97, 97, 97, 97, 97])
  {
    hide Uncompressed;
    LetterAndCopy([1, 1]);
    LetterAndCopy([14, 1, 0]);
    LetterAndCopy([15, 1, 0, 0, 0]);
    assert [5] + ([0, 97] + [1, 1]) == [5, 0, 97, 1, 1];
    assert [5] + ([0, 97] + [14, 1, 0]) == [5, 0, 97, 14, 1, 0];
    assert [5] + ([0, 97] + [15, 1, 0, 0, 0]) == [5, 0, 97, 15, 1, 0, 0, 0];
  }

  /** Two literals that are the same, one of them with its length in a byte of its own. */
  lemma StreamsWithLiterals()
    ensures Uncompressed([1, 0, 97]) == Some([97])
    ensures Uncompressed([1, 240, 0, 97]) == Some([97])
  {
    hide *;
    ShortLetter([]);
    LongLetter();
    assert ([0, 97] + [])[..2] == [0, 97];
    OneElement([0, 97], [], Literal([97]), [97]);
    OneElement([240, 0, 97], [], Literal([97]), [97]);
    WithHeader([0, 97], [97]);
    WithHeader([240, 0, 97], [97]);
    assert [1] + [0, 97] == [1, 0, 97] && [1] + [240, 0, 97] == [1, 240, 0, 97];
  }

  lemma HeaderOf300()
    ensures ParseVarint([0xAC, 0x02], 0) == Some((300, 2)) && EncodeVarint(300) == [0xAC, 0x02]
  {
    var s: seq<byte> := [0xAC, 0x02];
    assert s[..2] == s && IsHeader(s, 300);
    HeaderAsDescribed(s, 300, 2);
    VarintOfTwo(300);
  }
}
