/**
 The entry points of snappy.cc. Whichever writer is used, and however the input is cut into
 fragments, uncompressing gives what `Uncompressed` says of the concatenated bytes.
 */
module SnappyUncompress {
  import opened Bytes
  import opened SnappyFormat
  import opened SnappyFormatMeaning
  import opened SnappyDescription
  import opened SnappyVarint
  import opened SnappyStream
  import opened SnappyEmit
  import opened SnappyCompress
  import opened SnappyArrayWriter
  import opened SnappyScatteredWriter
  import opened SnappyIOVecWriter
  import opened SnappyWriter
  import opened SnappyDecompressor

  /** Has the caller seen to the room for the length that the stream's header promises? */
  ghost predicate RoomForHeader(stream: seq<byte>, target: Target)
    reads target.Self()
  {
    match ParseVarint(stream, 0)
    case None => true
    case Some((length, _)) => target.HasRoom(length)
  }

  /** The header says what comes of decoding what follows it. */
  lemma HeaderFacts(stream: seq<byte>, target: Target)
    requires RoomForHeader(stream, target) && ParseVarint(stream, 0).Some?
    ensures var (length, n) := ParseVarint(stream, 0).value;
      target.HasRoom(length) && n <= |stream|
      && Uncompressed(stream) == Whole(Decode(stream[n..], [], length), length)
  {
    hide Decode, Target.HasRoom;
  }

  lemma NoHeader(stream: seq<byte>)
    requires ParseVarint(stream, 0) == None
    ensures Uncompressed(stream) == None
  {
  }

  /** CheckLength: the output counts only if it has the expected length. */
  ghost function Whole(out: Option<seq<byte>>, length: nat): (whole: Option<seq<byte>>)
    ensures whole.Some? ==> |whole.value| == length
  {
    if out.Some? && |out.value| == length then out else None
  }

  lemma TargetInRepr(writer: Writer)
    requires writer.Valid()
    ensures writer.target.Self() in writer.repr
  {
  }

  lemma Separate(d: SnappyDecompressor, writer: Writer)
    requires writer.Valid() && d !in writer.repr && d.reader !in writer.repr
    ensures d.Apart(writer)
  {
  }

  lemma Verdict(d: SnappyDecompressor, writer: Writer, goal: Option<seq<byte>>)
    requires d.Stopped(writer, goal)
    ensures d.InBounds() && (d.Stalled() ==> d.Stuck() && !d.narrow)
    ensures d.eof ==> writer.Valid() && d.reader.bytes == []
    ensures writer.roomy && !d.Stalled() ==>
      Whole(goal, writer.limit) == if d.eof && |writer.contents| == writer.limit then Some(writer.contents) else None
    ensures !writer.roomy && d.eof ==> |writer.contents| != writer.limit
  {
    if d.Stalled() {
      assert !d.eof;
      d.StuckIs();
    }
    hide Writer.Valid;
    if !writer.roomy && d.eof {
      writer.NotWhole();
    }
  }

  /** After the header, no fragment's size exceeds 32 bits. */
  ghost predicate NarrowBody(r: Source)
    reads r
  {
    match ParseVarint(r.bytes, 0)
    case None => true
    case Some((_, n)) => r.Excess() <= n
  }

  lemma NarrowBodyIs(r: Source, n: nat)
    requires NarrowBody(r) && ParseVarint(r.bytes, 0).Some? && n == ParseVarint(r.bytes, 0).value.1
    ensures r.Excess() <= n
  {
  }

  /** What follows the header is in one fragment, of 2^32 bytes or more. */
  ghost predicate WideBody(r: Source)
    reads r
  {
    match ParseVarint(r.bytes, 0)
    case None => false
    case Some((_, n)) => r.rest == [] && |r.bytes| - n >= 0x1_0000_0000
  }

  lemma WideBodyIs(r: Source)
    requires r.Valid() && WideBody(r)
    ensures ParseVarint(r.bytes, 0).Some? && !NarrowBody(r)
    ensures r.rest == [] && |r.bytes| - ParseVarint(r.bytes, 0).value.1 >= 0x1_0000_0000
  {
    r.ExcessOfOne();
    hide Source.Excess;
  }

  /**
     InternalUncompress and InternalUncompressAllTags. If the decoder has stalled at a fragment of
     2^32 bytes or more, the end of the input is not reached, however it goes on to access its reader.
   */
  method InternalUncompress(r: Source, writer: Writer, accesses: seq<Access>) returns (ok: bool, stalled: bool)
    requires r.Valid()
    requires writer.Valid() && r !in writer.repr && writer.contents == []
    requires RoomForHeader(r.bytes, writer.target)
    modifies r, writer.repr
    ensures r.Valid()
    ensures var out := Uncompressed(old(r.bytes));
      ok <==> !stalled && out.Some? && writer.target.Holds(|out.value|)
    ensures ok ==> writer.Valid() && Some(writer.contents) == Uncompressed(old(r.bytes)) && r.bytes == []
    ensures ok ==> fresh(writer.repr - old(writer.repr))
    ensures stalled ==> r.current != [] && |r.current| % 0x1_0000_0000 == 0
    ensures (old(NarrowBody(r)) ==> !stalled) && (old(WideBody(r)) ==> stalled)
  {
    hide *;
    ghost var stream, excess, single := r.bytes, r.Excess(), r.rest == [];
    TargetInRepr(writer);
    if WideBody(r) {
      WideBodyIs(r);
    }
    var decompressor := new SnappyDecompressor(r, NarrowBody(r));
    decompressor.Fresh();
    if decompressor.narrow && ParseVarint(stream, 0).Some? {
      NarrowBodyIs(r, ParseVarint(stream, 0).value.1);
    }
    var length := decompressor.ReadUncompressedLength();
    if length == None {
      NoHeader(stream);
      decompressor.Close();
      return false, false;
    }
    HeaderFacts(stream, writer.target);
    decompressor.AfterHeader(stream, excess, single, ParseVarint(stream, 0).value.1);
    writer.SetExpectedLength(length.value);
    Separate(decompressor, writer);
    decompressor.Begin(writer);
    ghost var goal := writer.Outcome(decompressor.Rest(decompressor.ip));
    writer.OutcomeIs(decompressor.Rest(decompressor.ip));
    decompressor.DecompressAllTags(writer, decompressor.Rest(decompressor.ip), goal);
    Verdict(decompressor, writer, goal);
    decompressor.Modes();
    stalled := decompressor.Stalled();
    if stalled {
      decompressor.Starve(accesses);
      decompressor.Modes();
    }
    ok := decompressor.eof;
    if ok {
      ok := writer.CheckLength();
    }
    decompressor.Close();
  }

  /** RawUncompress: into a flat array with room for the promised length. */
  method RawUncompress(compressed: Source, uncompressed: array<byte>, accesses: seq<Access>)
    returns (ok: bool, stalled: bool)
    requires compressed.Valid() && uncompressed.Length <= SIZE_MAX
    requires var header := ParseVarint(compressed.bytes, 0); header.Some? ==> header.value.0 <= uncompressed.Length
    modifies compressed, uncompressed
    ensures compressed.Valid()
    ensures ok <==> !stalled && Uncompressed(old(compressed.bytes)).Some?
    ensures (old(NarrowBody(compressed)) ==> !stalled) && (old(WideBody(compressed)) ==> stalled)
    ensures ok ==> compressed.bytes == [] && IsPrefix(Uncompressed(old(compressed.bytes)), uncompressed[..])
  {
    hide Uncompressed, Writer.Valid, Source.Valid, NarrowBody, WideBody;
    var output := new SnappyArrayWriter(uncompressed);
    var writer := new Writer(Flat(output));
    ok, stalled := InternalUncompress(compressed, writer, accesses);
    FlatResult(writer, output, ok);
  }

  /** `out` is at the start of s. */
  ghost predicate IsPrefix(out: Option<seq<byte>>, s: seq<byte>) {
    out.Some? && out.value <= s
  }

  lemma EmptySink(writer: UncheckedByteArraySink)
    requires writer.dest == 0
    ensures writer.Valid()
  {
  }

  lemma WholeSink(writer: UncheckedByteArraySink, written: nat)
    requires writer.Valid() && writer.dest == written
    ensures written <= writer.buffer.Length && writer.buffer[..written] == writer.Contents()[0..]
  {
  }

  lemma FlatResult(writer: Writer, output: SnappyArrayWriter, ok: bool)
    requires writer.target == Flat(output) && (ok ==> writer.Valid())
    ensures ok ==> writer.contents <= output.buffer[..]
  {
  }

  /** RawUncompressToIOVec: the same output, spread over the buffers in order, if they have room for it. */
  method RawUncompressToIOVec(compressed: Source, iov: seq<array<byte>>, accesses: seq<Access>)
    returns (ok: bool, stalled: bool)
    requires compressed.Valid()
    requires forall i, j :: 0 <= i < j < |iov| ==> iov[i] != iov[j]
    modifies compressed, iov
    ensures compressed.Valid()
    ensures var out := Uncompressed(old(compressed.bytes));
      ok <==> !stalled && out.Some? && |out.value| <= Room(iov, |iov|)
    ensures (old(NarrowBody(compressed)) ==> !stalled) && (old(WideBody(compressed)) ==> stalled)
    ensures ok ==> compressed.bytes == [] && IsPrefix(Uncompressed(old(compressed.bytes)), Joined(iov, |iov|))
  {
    hide Uncompressed, Writer.Valid, Source.Valid, NarrowBody, WideBody;
    var output := new SnappyIOVecWriter(iov);
    var writer := new Writer(Vectored(output));
    ok, stalled := InternalUncompress(compressed, writer, accesses);
    VectoredResult(writer, output, ok);
  }

  lemma VectoredResult(writer: Writer, output: SnappyIOVecWriter, ok: bool)
    requires writer.target == Vectored(output) && (ok ==> writer.Valid())
    ensures ok ==> writer.contents <= Joined(output.iovs, |output.iovs|)
  {
    if ok {
      output.ContentsArePrefix();
    }
  }

  /** IsValidCompressed: exactly the streams that have a meaning. */
  method IsValidCompressed(compressed: Source, accesses: seq<Access>) returns (ok: bool, stalled: bool)
    requires compressed.Valid()
    modifies compressed
    ensures compressed.Valid()
    ensures ok <==> !stalled && Uncompressed(old(compressed.bytes)).Some?
    ensures (old(NarrowBody(compressed)) ==> !stalled) && (old(WideBody(compressed)) ==> stalled)
  {
    hide Uncompressed, Writer.Valid, Source.Valid, NarrowBody, WideBody;
    var output := new SnappyDecompressionValidator();
    var writer := new Writer(Validating(output));
    ok, stalled := InternalUncompress(compressed, writer, accesses);
  }

  /** Uncompress to a sink without a flat buffer: block by block, then flush. */
  method UncompressToSink(compressed: Source, uncompressed: BlockSink, accesses: seq<Access>)
    returns (ok: bool, stalled: bool)
    requires compressed.Valid()
    modifies compressed, uncompressed
    ensures compressed.Valid()
    ensures ok <==> !stalled && Uncompressed(old(compressed.bytes)).Some?
    ensures (old(NarrowBody(compressed)) ==> !stalled) && (old(WideBody(compressed)) ==> stalled)
    ensures ok ==> compressed.bytes == []
    ensures ok ==>
      Some(uncompressed.contents) == Appended(old(uncompressed.contents), Uncompressed(old(compressed.bytes)))
  {
    hide Uncompressed, Writer.Valid, Source.Valid, NarrowBody, WideBody;
    var output := new SnappyScatteredWriter();
    var writer := new Writer(Scattered(output));
    ok, stalled := InternalUncompress(compressed, writer, accesses);
    ScatteredResult(writer, output, ok);
    if ok {
      output.Flush(uncompressed);
    }
  }

  ghost function Appended(before: seq<byte>, out: Option<seq<byte>>): Option<seq<byte>> {
    match out
    case None => None
    case Some(bytes) => Some(before + bytes)
  }

  lemma ScatteredResult(writer: Writer, output: SnappyScatteredWriter, ok: bool)
    requires writer.target == Scattered(output) && (ok ==> writer.Valid())
    ensures ok ==> output.Valid() && output.contents == writer.contents && output.Repr() <= writer.repr
  {
  }

  // Strings.

  /** What follows the header of a string is below 2^32 bytes: `peeked_` has no room for more. */
  predicate SmallBody(stream: seq<byte>) {
    match ParseVarint(stream, 0)
    case None => true
    case Some((_, n)) => |stream| - n < 0x1_0000_0000
  }

  /** A flat string as a source of one fragment. */
  method ByteArraySource(bytes: seq<byte>) returns (source: Source)
    ensures fresh(source) && source.Valid() && source.bytes == bytes && source.rest == []
    ensures source.Excess() == Less(|bytes|, 0xFFFF_FFFF)
    ensures if SmallBody(bytes) then NarrowBody(source) else WideBody(source)
  {
    var fragments := if bytes == [] then [] else [bytes];
    source := new Source(fragments);
    assert fragments != [] ==> Flatten(fragments[1..]) == [] && bytes + [] == bytes;
    source.ExcessOfOne();
  }

  /**
     Uncompress: read the promised length, resize the string, uncompress into it. A string whose body
     has 2^32 bytes or more is refused, whatever it means.
   */
  method Uncompress(compressed: seq<byte>, accesses: seq<Access>) returns (uncompressed: Option<seq<byte>>)
    ensures uncompressed == if SmallBody(compressed) then Uncompressed(compressed) else None
  {
    hide *;
    var ulength := Parse32WithLimit(compressed);
    if ulength == None {
      NoHeader(compressed);
      return None;
    }
    UncompressedSize(compressed);
    var buffer := new byte[ulength.value.0];
    var reader := ByteArraySource(compressed);
    var ok, stalled := RawUncompress(reader, buffer, accesses);
    ExactFit(Uncompressed(compressed), buffer[..], ok);
    return if ok then Some(buffer[..]) else None;
  }

  /**
     Of a string whose body is that large, whatever it means, the end is never reached: however often
     the decoder's loop sees to its next tag, or goes on in a literal, eof is not set.
   */
  method LargeBodyRefused(compressed: seq<byte>, accesses: seq<Access>) returns (eof: bool)
    requires !SmallBody(compressed)
    ensures !eof
  {
    hide *;
    BodySize(compressed);
    var reader := ByteArraySource(compressed);
    var decompressor := new SnappyDecompressor(reader, false);
    decompressor.Fresh();
    ghost var excess := reader.Excess();
    var length := decompressor.ReadUncompressedLength();
    decompressor.AfterHeader(compressed, excess, true, ParseVarint(compressed, 0).value.1);
    decompressor.Starve(accesses);
    return decompressor.eof;
  }

  lemma BodySize(stream: seq<byte>)
    requires !SmallBody(stream)
    ensures ParseVarint(stream, 0).Some? && |stream| - ParseVarint(stream, 0).value.1 >= 0x1_0000_0000
  {
    hide ParseVarint;
  }

  /** The header gives the exact size of the output. */
  lemma UncompressedSize(stream: seq<byte>)
    requires ParseVarint(stream, 0).Some?
    ensures ParseVarint(stream, 0).value.0 < 0x1_0000_0000 <= SIZE_MAX
    ensures Uncompressed(stream).Some? ==> |Uncompressed(stream).value| == ParseVarint(stream, 0).value.0
  {
    ParseVarintBound(stream, 0);
    VarintLimit32();
  }

  lemma ExactFit(out: Option<seq<byte>>, buffer: seq<byte>, ok: bool)
    requires ok ==> IsPrefix(out, buffer) && |out.value| == |buffer|
    ensures ok ==> out == Some(buffer)
  {
    assert ok ==> out.value == buffer[..|buffer|] == buffer;
  }

  /** RawCompress: into a buffer of the size that MaxCompressedLength gives. */
  method RawCompress(input: seq<byte>, compressed: array<byte>) returns (compressedLength: nat)
    requires |input| < 0x1_0000_0000 && MaxCompressedLength(|input|) <= compressed.Length
    modifies compressed
    ensures compressedLength <= MaxCompressedLength(|input|)
    ensures compressedLength <= compressed.Length && Uncompressed(compressed[..compressedLength]) == Some(input)
    ensures FormatUncompressed(compressed[..compressedLength]) == Some(input)
    ensures Describes(compressed[..compressedLength], input)
  {
    hide *;
    var reader := ByteArraySource(input);
    var writer := new UncheckedByteArraySink(compressed);
    EmptySink(writer);
    HashInTable();
    compressedLength := SnappyCompress.Compress(HashBytes, reader, writer);
    WholeSink(writer, compressedLength);
    FormatAsDescribed(compressed[..compressedLength], input);
  }

  /** Compress to a string, as the shell packs a contract. */
  method Compress(input: seq<byte>) returns (compressed: seq<byte>)
    requires |input| < 0x1_0000_0000
    ensures |compressed| <= 32 + |input| + |input| / 6
    ensures Uncompressed(compressed) == FormatUncompressed(compressed) == Some(input)
    ensures Describes(compressed, input)
  {
    var buffer := new byte[MaxCompressedLength(|input|)];
    var n := RawCompress(input, buffer);
    return buffer[..n];
  }

  /**
     Compressing to a string and uncompressing that gives the input back exactly if the body of the
     string is below 2^32 bytes, as it is for any input up to 6/7 of that size. Otherwise the string
     means the input and is refused.
   */
  method StringRoundTrip(input: seq<byte>, accesses: seq<Access>)
    returns (compressed: seq<byte>, uncompressed: Option<seq<byte>>)
    requires |input| < 0x1_0000_0000
    ensures Uncompressed(compressed) == Some(input)
    ensures uncompressed == if SmallBody(compressed) then Some(input) else None
    ensures MaxCompressedLength(|input|) < 0x1_0000_0000 ==> SmallBody(compressed)
  {
    compressed := Compress(input);
    hide Uncompressed, FormatUncompressed, ParseVarint;
    uncompressed := Uncompress(compressed, accesses);
  }

  /** A stream cut into pieces of the given sizes, and further where a size would exceed 32 bits. */
  function Cut(s: seq<byte>, sizes: seq<nat>): (fragments: seq<seq<byte>>)
    ensures Flatten(fragments) == s
    ensures forall i :: 0 <= i < |fragments| ==> 0 < |fragments[i]| < 0x1_0000_0000
    decreases |s|
  {
    if s == [] then []
    else
      var wanted := if sizes == [] || sizes[0] == 0 || sizes[0] >= 0x1_0000_0000 then 0xFFFF_FFFF else sizes[0];
      var n := if wanted <= |s| then wanted else |s|;
      assert s == s[..n] + s[n..];
      var later := Cut(s[n..], if sizes == [] then [] else sizes[1..]);
      assert ([s[..n]] + later)[1..] == later;
      [s[..n]] + later
  }

  /**
     Compressing and then uncompressing is the identity, whatever the fragments on either side,
     so long as no compressed fragment's size exceeds 32 bits: `peeked_` has no room for more. Any
     hash function into the table will do.
   */
  method RoundTrip(hash: Hash, input: Source, sizes: seq<nat>, compressed: array<byte>, uncompressed: array<byte>)
    returns (ok: bool)
    requires IntoTable(hash)
    requires input.Valid() && |input.bytes| < 0x1_0000_0000 && uncompressed.Length == |input.bytes|
    requires MaxCompressedLength(|input.bytes|) <= compressed.Length
    modifies input, compressed, uncompressed
    ensures ok && uncompressed[..] == old(input.bytes)
  {
    hide *;
    ghost var data := input.bytes;
    var writer := new UncheckedByteArraySink(compressed);
    EmptySink(writer);
    var written := SnappyCompress.Compress(hash, input, writer);
    WholeSink(writer, written);
    var stream := compressed[..written];
    HasHeader(stream);
    UncompressedSize(stream);
    var source := new Source(Cut(stream, sizes));
    NarrowSource(source);
    var stalled: bool;
    ok, stalled := RawUncompress(source, uncompressed, []);
    ExactFit(Uncompressed(stream), uncompressed[..], ok);
  }

  lemma NarrowSource(r: Source)
    requires r.Narrow()
    ensures NarrowBody(r)
  {
  }

  lemma HasHeader(stream: seq<byte>)
    requires Uncompressed(stream).Some?
    ensures ParseVarint(stream, 0).Some?
  {
  }
}
