/**
 The meaning that the format itself gives a stream, and exactly where snappy.cc departs from it.
 */
module SnappyFormatMeaning {
  import opened Bytes
  import opened SnappyFormat
  import opened SnappyVarint

  /** The length of a literal, as the format has it. */
  function FormatLength(c: byte, trailer: nat): nat {
    if c / 4 < 60 then c / 4 + 1 else trailer + 1
  }

  function FormatElement(s: seq<byte>): (r: Option<(Element, nat)>)
    requires s != []
    ensures r.Some? ==> 1 <= r.value.1 <= |s|
  {
    var c := s[0];
    var head := 1 + TrailerSize(c);
    if |s| < head then None
    else
      var trailer := LittleEndian(s[1..head]);
      if c % 4 == LITERAL then
        var length := FormatLength(c, trailer);
        if |s| < head + length then None
        else Some((Literal(s[head..head + length]), head + length))
      else Some((Copy(CopyOffset(c, trailer), CopyLength(c)), head))
  }

  function FormatDecode(s: seq<byte>, out: seq<byte>, limit: nat): Option<seq<byte>>
    decreases |s|
  {
    if s == [] then Some(out)
    else match FormatElement(s)
      case None => None
      case Some((e, n)) => if Applies(out, e, limit) then FormatDecode(s[n..], Apply(out, e), limit) else None
  }

  /** What the format takes a whole stream to mean. */
  function FormatUncompressed(stream: seq<byte>): Option<seq<byte>> {
    match ParseVarint(stream, 0)
    case None => None
    case Some((length, n)) =>
      match FormatDecode(stream[n..], [], length)
      case None => None
      case Some(out) => if |out| == length then Some(out) else None
  }

  /** A literal whose length field is 0xFFFFFFFF comes first. */
  predicate Wraps(s: seq<byte>) {
    |s| >= 5 && s[0] == LITERAL + 4 * 63 && s[1..5] == [255, 255, 255, 255]
  }

  lemma {:induction false} LargestField(s: seq<byte>)
    ensures LittleEndian(s) < Pow2(8 * |s|)
    ensures LittleEndian(s) == Pow2(8 * |s|) - 1 <==> forall i :: 0 <= i < |s| ==> s[i] == 255
  {
    if s != [] {
      LargestField(s[1..]);
      Pow2Add8(8 * |s[1..]|);
      assert forall i :: 0 <= i < |s| - 1 ==> s[1..][i] == s[i + 1];
    }
  }

  lemma FieldWraps(s: seq<byte>)
    requires s != [] && s[0] % 4 == LITERAL && 1 + TrailerSize(s[0]) <= |s|
    ensures LittleEndian(s[1..1 + TrailerSize(s[0])]) < 0x1_0000_0000
    ensures Wraps(s) <==> s[0] / 4 >= 60 && LittleEndian(s[1..1 + TrailerSize(s[0])]) == 0xFFFF_FFFF
  {
    var n := TrailerSize(s[0]);
    var field := s[1..1 + n];
    LargestField(field);
    Pow2Values();
    assert Pow2(24) == 0x100_0000 by { Pow2Add8(16); }
    assert Pow2(8 * n) == if n == 0 then 1 else if n == 1 then 0x100 else if n == 2 then 0x1_0000
                          else if n == 3 then 0x100_0000 else 0x1_0000_0000;
    hide Pow2, LittleEndian;
    assert s[0] == LITERAL + 4 * 63 <==> n == 4;
    if n == 4 {
      assert field == [255, 255, 255, 255] <==> forall i :: 0 <= i < |field| ==> field[i] == 255;
    }
  }

  /** snappy.cc reads an element as the format says, exactly if its length does not wrap round. */
  lemma ElementByFormat(s: seq<byte>)
    requires s != []
    ensures ParseElement(s) == FormatElement(s) <==> !Wraps(s)
    ensures Wraps(s) ==> ParseElement(s) == Some((Literal([]), 5))
    ensures Wraps(s) && FormatElement(s).Some? ==>
      FormatElement(s).value.0.Literal? && |FormatElement(s).value.0.data| == 0x1_0000_0000
  {
    var c := s[0];
    if c % 4 == LITERAL && 1 + TrailerSize(c) <= |s| {
      FieldWraps(s);
      hide LittleEndian;
    }
  }

  /** Decoding comes to an element whose length wraps round. */
  predicate MeetsWrap(s: seq<byte>, out: seq<byte>, limit: nat)
    decreases |s|
  {
    s != [] && (Wraps(s) ||
      match ParseElement(s)
      case None => false
      case Some((e, n)) => Applies(out, e, limit) && MeetsWrap(s[n..], Apply(out, e), limit))
  }

  lemma {:induction false} DecodeByFormat(s: seq<byte>, out: seq<byte>, limit: nat)
    requires limit < 0x1_0000_0000
    ensures FormatDecode(s, out, limit) == if MeetsWrap(s, out, limit) then None else Decode(s, out, limit)
    decreases |s|
  {
    if s != [] {
      ElementByFormat(s);
      hide ParseElement, FormatElement, Wraps, Apply;
      if !Wraps(s) && ParseElement(s).Some? {
        var (e, n) := ParseElement(s).value;
        if Applies(out, e, limit) {
          DecodeByFormat(s[n..], Apply(out, e), limit);
        }
      }
    }
  }

  /** The whole stream has such an element where decoding comes to it. */
  predicate StreamWraps(stream: seq<byte>) {
    match ParseVarint(stream, 0)
    case None => false
    case Some((length, n)) => MeetsWrap(stream[n..], [], length)
  }

  /**
     Streams mean what the format says, but for those in which decoding meets a length that wraps
     round: to the format, they mean nothing. So whatever has a meaning keeps it.
   */
  lemma MeaningByFormat(stream: seq<byte>)
    ensures FormatUncompressed(stream) == if StreamWraps(stream) then None else Uncompressed(stream)
    ensures FormatUncompressed(stream) == Uncompressed(stream) <==> !(StreamWraps(stream) && Uncompressed(stream).Some?)
  {
    if ParseVarint(stream, 0).Some? {
      ParseVarintBound(stream, 0);
      VarintLimit32();
      var (length, n) := ParseVarint(stream, 0).value;
      hide FormatDecode, Decode, MeetsWrap, ParseVarint;
      DecodeByFormat(stream[n..], [], length);
    }
  }

  /** Some stream wraps round: six bytes which to snappy.cc mean the empty string. */
  lemma WrappingStream()
    ensures var stream := [0, 252, 255, 255, 255, 255];
      Uncompressed(stream) == Some([]) && FormatUncompressed(stream) == None
  {
    var body: seq<byte> := [252, 255, 255, 255, 255];
    var stream: seq<byte> := [0] + body;
    assert stream == [0, 252, 255, 255, 255, 255] && stream[1..] == body;
    assert ParseVarint(stream, 0) == Some((0, 1));
    assert Wraps(body);
    ElementByFormat(body);
    hide ParseElement;
    DecodeStep(body, [], 0, Literal([]), 5);
    assert body[5..] == [] && Decode([], [], 0) == Some([]);
    MeaningByFormat(stream);
  }

  /** A written element never wraps round. */
  lemma EncodedDoesNotWrap(e: Element, rest: seq<byte>)
    requires Encodable(e)
    ensures EncodeElement(e) + rest != [] && !Wraps(EncodeElement(e) + rest)
  {
    hide EncodeElement, ParseElement, Wraps;
    ParseEncoded(e, rest);
    ElementByFormat(EncodeElement(e) + rest);
  }

  lemma MeetsStep(s: seq<byte>, out: seq<byte>, limit: nat, e: Element, n: nat)
    requires s != [] && ParseElement(s) == Some((e, n)) && Applies(out, e, limit) && !Wraps(s)
    ensures MeetsWrap(s, out, limit) <==> MeetsWrap(s[n..], Apply(out, e), limit)
  {
    hide ParseElement, Apply, Applies, Wraps;
  }

  lemma MeetsOne(e: Element, rest: seq<byte>, out: seq<byte>, limit: nat)
    requires Encodable(e) && Applies(out, e, limit)
    ensures MeetsWrap(EncodeElement(e) + rest, out, limit) <==> MeetsWrap(rest, Apply(out, e), limit)
  {
    hide MeetsWrap, EncodeElement, Encodable, Applies, Apply, Wraps;
    ParseEncoded(e, rest);
    EncodedDoesNotWrap(e, rest);
    var code := EncodeElement(e);
    assert (code + rest)[|code|..] == rest;
    MeetsStep(code + rest, out, limit, e, |code|);
  }

  /** Decoding what was written meets no length that wraps round. */
  lemma {:induction false} MeetsEncoded(elements: seq<Element>, rest: seq<byte>, out: seq<byte>, limit: nat)
    requires AllEncodable(elements)
    requires ApplyAll(out, elements, limit).Some?
    ensures MeetsWrap(EncodeAll(elements) + rest, out, limit)
      <==> MeetsWrap(rest, ApplyAll(out, elements, limit).value, limit)
    decreases |elements|
  {
    if elements == [] {
      assert EncodeAll(elements) + rest == rest;
    } else {
      hide *;
      var init, last := elements[..|elements| - 1], elements[|elements| - 1];
      SplitLast(elements, init, last);
      EncodeSnoc(init, last);
      ApplyAllAppend(out, init, [last], limit);
      ConcatAssociative(EncodeAll(init), EncodeElement(last), rest);
      MeetsEncoded(init, EncodeElement(last) + rest, out, limit);
      var mid := ApplyAll(out, init, limit).value;
      ApplyLast(mid, last, limit);
      MeetsOne(last, rest, mid, limit);
    }
  }

  /** To the format, too, a length header and elements that rebuild `data` mean `data`. */
  lemma StreamMeansByFormat(elements: seq<Element>, data: seq<byte>)
    requires |data| < 0x1_0000_0000 && AllEncodable(elements)
    requires ApplyAll([], elements, |data|) == Some(data)
    ensures FormatUncompressed(EncodeVarint(|data|) + EncodeAll(elements)) == Some(data)
  {
    var header, body := EncodeVarint(|data|), EncodeAll(elements);
    VarintLimit32();
    ParseEncodedVarint(|data|, 0, body);
    assert (header + body)[|header|..] == body;
    assert body + [] == body;
    MeetsEncoded(elements, [], [], |data|);
    StreamMeansData(elements, data);
    hide EncodeAll, ApplyAll, ParseVarint, EncodeVarint, Uncompressed;
    MeaningByFormat(header + body);
  }
}
