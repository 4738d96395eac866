/**
 `SnappyDecompressor`: decoding a stream that arrives in fragments of any sizes. What it
 accepts and produces is a function of the concatenated bytes alone.
 */
module SnappyDecompressor {
  import opened Bytes
  import opened SnappyFormat
  import opened SnappyVarint
  import opened SnappyTagTable
  import opened SnappyStream
  import opened SnappyArrayWriter
  import opened SnappyWriter

  /** Load32(ip) & wordmask[n]: the n bytes at ip. */
  lemma MaskedLoad(mem: seq<byte>, ip: nat, n: nat)
    requires ip + 4 <= |mem| && n <= 4
    ensures LowBits(Load(mem, ip, 4), 8 * n) == LittleEndian(mem[ip..ip + n])
  {
    LittleEndianSplit(mem[ip..ip + 4], n);
    assert mem[ip..ip + 4][..n] == mem[ip..ip + n];
  }

  /**
     How the decoder's loop uses its reader: having moved on in the buffer, it sees to the next
     tag; or within a literal it goes on to the next fragment.
   */
  datatype Access = Refill(at: nat) | Proceed

  class SnappyDecompressor {
    const reader: Source
    /** Is it known that after the header no fragment's size exceeds 32 bits? */
    ghost const narrow: bool
    /** The memory that ip points into: `scratch`, or the last fragment peeked. */
    var inScratch: bool
    var fragment: seq<byte>
    var scratch: seq<byte>
    var ip: nat
    var ipLimit: nat
    /** Bytes peeked from the reader and still to be skipped. */
    var peeked: nat
    var eof: bool

    function Buf(): seq<byte>
      reads this
    {
      if inScratch then scratch else fragment
    }

    /** The pointers are in bounds. */
    ghost predicate InBounds()
      reads this, reader
    {
      reader.Valid() && |scratch| == MAXIMUM_TAG_LENGTH && ip <= ipLimit <= |Buf()| && peeked <= |reader.bytes|
    }

    /**
     Outside of scratch, the buffer is the fragment that was peeked; of its size, `peeked` keeps
     the low 32 bits.
     */
    ghost predicate Consistent()
      reads this, reader
    {
      && InBounds()
      && if inScratch then peeked == 0
         else ipLimit == |fragment| <= |reader.bytes| && peeked == |fragment| % 0x1_0000_0000
              && fragment == reader.bytes[..|fragment|]
    }

    /** Moreover, the size of the fragment in the buffer does not exceed 32 bits. */
    ghost predicate Valid()
      reads this, reader
    {
      Consistent() && (narrow ==> reader.Narrow()) && (!inScratch ==> |fragment| < 0x1_0000_0000)
    }

    /** The reader is advanced over the whole of a used-up fragment exactly if its size fits 32 bits. */
    lemma AdvancesOver()
      requires Consistent() && !inScratch
      ensures reader.bytes[peeked..] == reader.bytes[|fragment|..] <==> |fragment| < 0x1_0000_0000
    {
      if reader.bytes[peeked..] == reader.bytes[|fragment|..] {
        assert |reader.bytes[peeked..]| == |reader.bytes| - peeked;
      }
    }

    /**
     Advancing the reader over what was peeked will leave a fragment whose size is a positive
     multiple of 2^32. Of such a fragment, nothing is ever skipped.
     */
    predicate Stalled()
      reads this, reader
    {
      peeked < |reader.current| && (|reader.current| - peeked) % 0x1_0000_0000 == 0
    }

    ghost predicate Stuck()
      reads this, reader
    {
      InBounds() && !eof && !narrow && Stalled()
    }

    /** Nothing has been peeked yet of a fragment of 2^32 bytes or more. */
    ghost predicate BeforeWide()
      reads this, reader
    {
      InBounds() && !eof && !narrow && ip == ipLimit && peeked == 0 && |reader.current| >= 0x1_0000_0000
    }

    /** Everything not yet decoded: the rest of the buffer, then what the reader still has. */
    ghost function Rest(at: nat): seq<byte>
      requires Valid() && at <= ipLimit
      reads this, reader
    {
      Buf()[at..ipLimit] + reader.bytes[peeked..]
    }

    /** The next tag and its trailer are in the buffer, and five bytes may be read at it. */
    ghost predicate Ready(at: nat)
      requires Valid()
      reads this, reader
    {
      at < ipLimit && at + MAXIMUM_TAG_LENGTH <= |Buf()| && TrailerSize(Buf()[at]) < ipLimit - at
    }

    constructor (reader: Source, ghost narrow: bool)
      requires reader.Valid()
      ensures this.reader == reader && this.narrow == narrow && Consistent() && !eof && !inScratch && fragment == []
    {
      this.reader, this.narrow := reader, narrow;
      inScratch, fragment, scratch := false, [], [0, 0, 0, 0, 0];
      ip, ipLimit, peeked, eof := 0, 0, 0, false;
    }

    /** Replace the first n bytes of scratch. */
    method FillScratch(bytes: seq<byte>, at: nat)
      requires |scratch| == MAXIMUM_TAG_LENGTH && at + |bytes| <= MAXIMUM_TAG_LENGTH
      modifies this`scratch
      ensures |scratch| == MAXIMUM_TAG_LENGTH
      ensures scratch[..at] == old(scratch)[..at] && scratch[at..at + |bytes|] == bytes
      ensures scratch[..at + |bytes|] == old(scratch)[..at] + bytes
    {
      scratch := scratch[..at] + bytes + scratch[at + |bytes|..];
    }

    lemma Bounds()
      ensures InBounds() <==>
        reader.Valid() && |scratch| == MAXIMUM_TAG_LENGTH && ip <= ipLimit <= |Buf()| && peeked <= |reader.bytes|
      ensures |Buf()| == if inScratch then |scratch| else |fragment|
    {
    }

    lemma Modes()
      ensures Valid() ==> InBounds() && (narrow ==> reader.Narrow())
      ensures Stuck() ==> InBounds() && !eof && !narrow && Stalled()
      ensures BeforeWide() ==> InBounds() && !eof && !narrow && peeked == 0 && |reader.current| >= 0x1_0000_0000
    {
    }

    lemma StuckIs()
      requires InBounds() && !eof && Stalled() && (narrow ==> reader.Narrow())
      ensures Stuck()
    {
      if narrow {
        hide InBounds;
        reader.WideIsExcess();
      }
    }

    /** A fragment of `rest` has just been peeked. */
    lemma FragmentPeeked(rest: seq<byte>)
      requires reader.Valid() && reader.bytes == rest && |scratch| == MAXIMUM_TAG_LENGTH
      requires !inScratch && ip == 0 && ipLimit == |fragment| <= |rest| && fragment == rest[..|fragment|]
      requires peeked == |fragment| % 0x1_0000_0000
      ensures InBounds() && Consistent()
      ensures (narrow ==> reader.Narrow()) && |fragment| < 0x1_0000_0000 ==> Valid() && Rest(0) == rest
      ensures fragment == reader.current && |fragment| >= 0x1_0000_0000 ==> Stalled()
    {
      if |fragment| < 0x1_0000_0000 {
        SplitConcat(rest, |fragment|);
        assert fragment[0..|fragment|] == rest[0..|fragment|];
      }
    }

    /** The first bytes of `rest` have just been put into scratch. */
    lemma ScratchFilled(rest: seq<byte>)
      requires reader.Valid() && |scratch| == MAXIMUM_TAG_LENGTH && inScratch && ip == 0 && peeked == 0
      requires ipLimit <= MAXIMUM_TAG_LENGTH
      ensures InBounds()
      ensures (narrow ==> reader.Narrow()) && scratch[..ipLimit] + reader.bytes == rest ==> Valid() && Rest(0) == rest
    {
      assert scratch[0..ipLimit] == scratch[..ipLimit];
      assert reader.bytes[0..] == reader.bytes;
    }

    /**
     Skip what was peeked and peek at the next fragment, whose size is n. A fragment of 2^32 bytes
     or more is not skipped whole, and its last 2^32 bytes never.
     */
    method NextFragment() returns (n: nat)
      requires InBounds()
      modifies this, reader
      ensures InBounds() && eof == old(eof)
      ensures reader.bytes == old(reader.bytes[peeked..]) && (n == 0 <==> reader.bytes == [])
      ensures n > 0 ==> Consistent() && ip == 0 && n == ipLimit && !inScratch && fragment == reader.bytes[..n]
      ensures old(narrow ==> reader.Narrow()) ==> (narrow ==> reader.Narrow())
      ensures old(Valid()) && 0 < n < 0x1_0000_0000 ==> Valid() && Rest(0) == old(reader.bytes[peeked..])
      ensures n >= 0x1_0000_0000 ==> Stalled()
      ensures old(Stuck() || BeforeWide()) ==> n > 0 && Stuck()
    {
      Bounds();
      Modes();
      hide Source.Valid, Source.Narrow, FragmentsExcess, Flatten;
      hide InBounds, Consistent, Valid, Stuck, BeforeWide, Rest;
      ghost var rest := reader.bytes[peeked..];
      reader.Skip(peeked);
      var next := reader.Peek();
      n := |next|;
      peeked := n % 0x1_0000_0000;
      if n > 0 {
        inScratch, fragment, ip, ipLimit := false, next, 0, n;
        FragmentPeeked(rest);
      }
      Bounds();
      if old(Stuck() || BeforeWide()) {
        StuckIs();
      }
    }

    /** Set eof. */
    method AtEnd()
      requires InBounds()
      modifies this`eof
      ensures InBounds() && eof
    {
      eof := true;
    }

    lemma RestAtLimit()
      requires Valid()
      ensures peeked <= |reader.bytes| && Rest(ipLimit) == reader.bytes[peeked..]
    {
    }

    /** All of the buffer is used up: go to the next fragment, or set eof. */
    method FetchFragment()
      requires InBounds() && ip == ipLimit && !eof
      modifies this, reader
      ensures InBounds() && (eof <==> old(reader.bytes[peeked..]) == []) && (eof ==> reader.bytes == [])
      ensures !eof ==> ip == 0 < ipLimit && !inScratch
      ensures old(narrow ==> reader.Narrow()) ==> (narrow ==> reader.Narrow())
      ensures old(Valid()) ==> (eof <==> old(Rest(ip)) == [])
      ensures old(Valid()) && !eof ==> Stuck() || (Valid() && Rest(0) == old(Rest(ip)))
      ensures old(Stuck() || BeforeWide()) ==> Stuck()
    {
      hide *;
      if Valid() {
        RestAtLimit();
      }
      Modes();
      Bounds();
      var n := NextFragment();
      if n == 0 {
        AtEnd();
      }
      if old(Valid()) && n >= 0x1_0000_0000 {
        StuckIs();
      }
    }

    /** Append at most `want` bytes of the next fragment to the first nbuf bytes of scratch. */
    method PullBytes(nbuf: nat, want: nat) returns (n: nat)
      requires reader.Valid() && |scratch| == MAXIMUM_TAG_LENGTH && nbuf + want <= MAXIMUM_TAG_LENGTH && want > 0
      modifies this`scratch, reader
      ensures reader.Valid() && |scratch| == MAXIMUM_TAG_LENGTH && n <= want
      ensures scratch[..nbuf + n] + reader.bytes == old(scratch[..nbuf] + reader.bytes)
      ensures old(reader.Narrow()) ==> reader.Narrow()
      ensures n == 0 <==> old(|reader.current|) % 0x1_0000_0000 == 0
      ensures n == 0 ==> reader.current == old(reader.current) && reader.bytes == old(reader.bytes)
      ensures n == 0 && reader.current == [] ==> reader.bytes == []
    {
      hide *;
      var src := reader.Peek();
      if |src| == 0 {
        return 0;
      }
      n := if want <= |src| % 0x1_0000_0000 then want else |src| % 0x1_0000_0000;
      ghost var bytes, kept := reader.bytes, scratch[..nbuf];
      assert src[..n] == bytes[..n];
      SplitConcat(bytes, n);
      FillScratch(src[..n], nbuf);
      reader.Skip(n);
      ConcatAssociative(kept, src[..n], reader.bytes);
      assert n == 0 ==> bytes[n..] == bytes && src[n..] == src;
    }

    /** Pull bytes until `needed` of them are in scratch; give up where none come. */
    method PullAll(nbuf: nat, needed: nat, ghost rest: seq<byte>) returns (ok: bool)
      requires reader.Valid() && |scratch| == MAXIMUM_TAG_LENGTH && nbuf <= needed <= MAXIMUM_TAG_LENGTH
      requires scratch[..nbuf] + reader.bytes == rest
      modifies this`scratch, reader
      ensures reader.Valid() && |scratch| == MAXIMUM_TAG_LENGTH
      ensures ok ==> scratch[..needed] + reader.bytes == rest
      ensures old(reader.Narrow()) ==> reader.Narrow()
      ensures !ok ==> |rest| < needed || (reader.current != [] && |reader.current| % 0x1_0000_0000 == 0)
      ensures old(reader.current != [] && |reader.current| % 0x1_0000_0000 == 0) ==>
        reader.current == old(reader.current)
    {
      hide *;
      var have := nbuf;
      while have < needed
        invariant reader.Valid() && |scratch| == MAXIMUM_TAG_LENGTH && have <= needed
        invariant scratch[..have] + reader.bytes == rest
        invariant old(reader.Narrow()) ==> reader.Narrow()
        invariant old(reader.current != [] && |reader.current| % 0x1_0000_0000 == 0) ==>
          reader.current == old(reader.current)
        decreases needed - have
      {
        var n := PullBytes(have, needed - have);
        if n == 0 {
          return false;
        }
        have := have + n;
      }
      return true;
    }

    /** Put the next nbuf bytes of the buffer into scratch and advance the reader over what was peeked. */
    method SaveToScratch(at: nat, nbuf: nat, ghost rest: seq<byte>)
      requires InBounds() && at + nbuf <= |Buf()| && nbuf <= MAXIMUM_TAG_LENGTH
      requires rest == Buf()[at..at + nbuf] + reader.bytes[peeked..]
      modifies this`scratch, this`peeked, reader
      ensures reader.Valid() && |scratch| == MAXIMUM_TAG_LENGTH && peeked == 0
      ensures scratch[..nbuf] + reader.bytes == rest
      ensures old(narrow ==> reader.Narrow()) ==> (narrow ==> reader.Narrow())
      ensures old(Stalled()) ==> reader.current != [] && |reader.current| % 0x1_0000_0000 == 0
    {
      hide *;
      Bounds();
      StalledSize();
      FillScratch(Buf()[at..at + nbuf], 0);
      assert scratch[..0] == [] && scratch[0..nbuf] == scratch[..nbuf];
      reader.Skip(peeked);
      peeked := 0;
    }

    lemma StalledSize()
      ensures Stalled() <==> peeked < |reader.current| && (|reader.current| - peeked) % 0x1_0000_0000 == 0
    {
    }

    /**
     Fewer than `needed` bytes are left in the buffer: complete them in scratch. Where the next
     fragment's size is a multiple of 2^32 the loop makes no progress and would go on forever;
     here it is left.
     */
    method Stitch(at: nat, nbuf: nat, needed: nat) returns (ok: bool)
      requires InBounds() && at + nbuf <= ipLimit && nbuf < needed <= MAXIMUM_TAG_LENGTH
      modifies this, reader
      ensures InBounds() && eof == old(eof)
      ensures old(narrow ==> reader.Narrow()) ==> (narrow ==> reader.Narrow())
      ensures old(Valid() && at + nbuf == ipLimit) && ok ==>
        Valid() && inScratch && ip == 0 && ipLimit == needed && Rest(0) == old(Rest(at))
      ensures old(Valid() && at + nbuf == ipLimit) && !ok ==> |old(Rest(at))| < needed || Stalled()
      ensures old(Stuck()) ==> Stuck()
    {
      hide *;
      Bounds();
      Modes();
      StartStitch(at, nbuf);
      ghost var rest := Buf()[at..at + nbuf] + reader.bytes[peeked..];
      SaveToScratch(at, nbuf, rest);
      ok := PullAll(nbuf, needed, rest);
      if ok {
        inScratch, ip, ipLimit := true, 0, needed;
        ScratchFilled(rest);
      }
      StillInBounds();
      StalledSize();
      if old(Stuck()) {
        StuckIs();
      }
    }

    lemma StillInBounds()
      requires reader.Valid() && |scratch| == MAXIMUM_TAG_LENGTH && peeked == 0
      requires ip <= ipLimit <= if inScratch then MAXIMUM_TAG_LENGTH else |fragment|
      ensures InBounds()
    {
    }

    /** What is left, once the rest of the buffer has been moved to scratch and the reader advanced. */
    lemma StartStitch(at: nat, nbuf: nat)
      requires InBounds() && at + nbuf <= ipLimit
      ensures Valid() && at + nbuf == ipLimit ==> Rest(at) == Buf()[at..at + nbuf] + reader.bytes[peeked..]
    {
    }

    /** Enough bytes are left, but fewer than five: move them where five may be read. */
    method MoveToScratch(at: nat, nbuf: nat)
      requires InBounds() && at + nbuf <= ipLimit && nbuf < MAXIMUM_TAG_LENGTH
      modifies this, reader
      ensures InBounds() && inScratch && ip == 0 && ipLimit == nbuf && eof == old(eof)
      ensures old(narrow ==> reader.Narrow()) ==> (narrow ==> reader.Narrow())
      ensures old(Valid() && at + nbuf == ipLimit) ==> Valid() && Rest(0) == old(Rest(at))
      ensures old(Stuck()) ==> Stuck()
    {
      hide *;
      Bounds();
      Modes();
      StartStitch(at, nbuf);
      ghost var rest := Buf()[at..at + nbuf] + reader.bytes[peeked..];
      SaveToScratch(at, nbuf, rest);
      inScratch, ip, ipLimit := true, 0, nbuf;
      ScratchFilled(rest);
      StalledSize();
      if old(Stuck()) {
        StuckIs();
      }
    }

    /** The next tag is in the buffer; its trailer need not be. */
    lemma NextTag()
      requires Valid() && ip < ipLimit
      ensures (ipLimit - ip) % 0x1_0000_0000 == ipLimit - ip
      ensures Rest(ip) != [] && Rest(ip)[0] == Buf()[ip]
      ensures |Rest(ip)| < 1 + TrailerSize(Buf()[ip]) ==> ParseElement(Rest(ip)) == None
    {
      hide TrailerSize;
    }

    lemma TagReady(c: byte)
      requires Valid() && Rest(ip) != [] && Rest(ip)[0] == c
      requires 1 + TrailerSize(c) <= ipLimit - ip && ip + MAXIMUM_TAG_LENGTH <= |Buf()|
      ensures Ready(ip)
    {
      hide TrailerSize;
    }

    /**
     Make the tag at ip and its trailer available. Fails at the end of the input, which sets
     eof, and where the input ends inside a tag.
     */
    method RefillTag() returns (ok: bool)
      requires InBounds() && !eof
      modifies this, reader
      ensures InBounds() && (eof ==> reader.bytes == [])
      ensures old(narrow ==> reader.Narrow()) ==> (narrow ==> reader.Narrow())
      ensures old(Valid()) && ok ==> Stuck() || (Valid() && !eof && Rest(ip) == old(Rest(ip)) && Ready(ip))
      ensures old(Valid()) && !ok ==> Stuck() || eof == (old(Rest(ip)) == [])
      ensures old(Valid()) && !ok && !eof ==> Stuck() || ParseElement(old(Rest(ip))) == None
      ensures old(Stuck() || BeforeWide()) ==> Stuck()
    {
      Bounds();
      AtStart();
      Modes();
      hide Source.Valid, Source.Narrow, FragmentsExcess, Flatten, CharTable, Extra, TrailerSize;
      hide InBounds, Consistent, Valid, Stuck, BeforeWide, Stalled, Rest, Ready, ParseElement;
      if ip == ipLimit {
        FetchFragment();
        if eof {
          return false;
        }
      }
      Bounds();
      Modes();
      ghost var stuck := Stuck();
      if old(Valid()) && !stuck {
        NextTag();
      }
      var c := Buf()[ip];
      TableFields(c);
      var needed := Extra(CharTable(c)) + 1;
      var nbuf := (ipLimit - ip) % 0x1_0000_0000;
      if nbuf < needed {
        ok := Stitch(ip, nbuf, needed);
        if old(Valid()) && Stalled() {
          StuckIs();
        }
      } else {
        if nbuf < MAXIMUM_TAG_LENGTH {
          MoveToScratch(ip, nbuf);
        }
        ok := true;
      }
      if old(Valid()) && !stuck && ok {
        Bounds();
        TagReady(c);
      }
    }

    lemma AtStart()
      ensures BeforeWide() ==> ip == ipLimit
    {
    }

    /** From `at` on, exactly `rest` is left to decode. */
    ghost predicate Left(at: nat, rest: seq<byte>)
      reads this, reader
    {
      Valid() && !eof && at <= ipLimit && Rest(at) == rest
    }

    /** `rest` is left, and its first tag and trailer can be read at `at`. */
    ghost predicate AtTag(at: nat, rest: seq<byte>)
      reads this, reader
    {
      Left(at, rest) && Ready(at)
    }

    /** The reader may be advanced over what was peeked. */
    ghost predicate Closable()
      reads this, reader
    {
      InBounds() && (narrow ==> reader.Narrow())
    }

    /**
     MAYBE_REFILL: with fewer than five bytes left in the buffer, see to the next tag. Once the
     decoder is stuck, the input is never used up, whichever way the loop goes on; here it is left.
     */
    method MaybeRefill(at: nat, ghost rest: seq<byte>) returns (ok: bool, next: nat)
      requires Left(at, rest)
      modifies this, reader
      ensures Closable()
      ensures ok ==> AtTag(next, rest)
      ensures !ok ==> Stuck() || (eof == (rest == []) && (eof ==> reader.bytes == []))
      ensures !ok && !eof ==> Stuck() || ParseElement(rest) == None
      ensures old(BeforeWide()) && at == old(ip) ==> !ok && Stuck()
    {
      AtStart();
      Modes();
      if ipLimit - at < MAXIMUM_TAG_LENGTH {
        ip := at;
        ok := RefillTag();
        Modes();
        if ok && Stalled() {
          StuckIs();
          ok := false;
        }
        return ok, ip;
      }
      return true, at;
    }

    /** The next k bytes, when they are in the buffer. */
    lemma TakePiece(at: nat, k: nat, rest: seq<byte>)
      requires Left(at, rest) && at + k <= ipLimit
      ensures at + k <= |Buf()| && k <= |rest| && Buf()[at..at + k] == rest[..k]
      ensures Left(at + k, rest[k..])
    {
    }

    /** After j bytes of the header, the rest of `all` is left, and its excess. */
    ghost predicate InHeader(all: seq<byte>, excess: nat, single: bool, j: nat)
      reads reader
    {
      && reader.Valid() && j <= |all| && reader.bytes == all[j..] && reader.Excess() == Less(excess, j)
      && (single ==> reader.rest == [])
    }

    lemma InHeaderFacts(all: seq<byte>, excess: nat, single: bool, j: nat)
      requires InHeader(all, excess, single, j)
      ensures reader.Valid() && j <= |all|
    {
    }

    /** Peek at the next byte and skip it; false at the end of the input. */
    method TakeByte(ghost all: seq<byte>, ghost excess: nat, ghost single: bool, ghost j: nat)
      returns (more: bool, c: byte)
      requires InHeader(all, excess, single, j)
      modifies reader
      ensures reader.Valid() && more == (j < |all|)
      ensures more ==> c == all[j] && InHeader(all, excess, single, j + 1)
    {
      hide Source.Valid, Source.Excess, Source.Narrow, FragmentsExcess, Flatten;
      var next := reader.Peek();
      if |next| == 0 {
        return false, 0;
      }
      c := next[0];
      more := true;
      assert next[0] == reader.bytes[0];
      reader.Skip(1);
    }

    /** The body of the length loop: the byte at index j, shifted left by 7j. */
    method ReadLengthByte(result: nat, j: nat, ghost all: seq<byte>, ghost excess: nat, ghost single: bool)
      returns (s: Step)
      requires InHeader(all, excess, single, j) && j <= 5 && result < Scale(j)
      modifies reader
      ensures reader.Valid()
      ensures match s
        case Done(r) => ParseFrom(all, result, j) == r
                        && (r.Some? ==> InHeader(all, excess, single, r.value.1) && r.value.0 < 0x1_0000_0000)
        case More(next) => j < 5 && InHeader(all, excess, single, j + 1) && next < Scale(j + 1)
                           && ParseFrom(all, result, j) == ParseFrom(all, next, j + 1)
    {
      if 7 * j >= 32 {
        NothingAfterFive(all, result);
        return Done(None);
      }
      hide *;
      InHeaderFacts(all, excess, single, j);
      ParseEnd(all, result, j);
      var more, c := TakeByte(all, excess, single, j);
      if !more {
        return Done(None);
      }
      AddedBits(all, result, j);
      return AddBits(result, j, c);
    }

    /**
     The varint at the start of the stream, read a byte at a time; None where
     Parse32WithLimit returns NULL.
     */
    method ReadUncompressedLength() returns (r: Option<uint32>)
      requires Consistent() && !inScratch && fragment == []
      modifies reader
      ensures InBounds()
      ensures match ParseVarint(old(reader.bytes), 0)
        case None => r == None
        case Some((v, n)) =>
          r == Some(v) && InHeader(old(reader.bytes), old(reader.Excess()), old(reader.rest) == [], n)
    {
      ghost var all, excess, single := reader.bytes, reader.Excess(), reader.rest == [];
      assert all[0..] == all;
      assert ParseFrom(all, 0, 0) == ParseVarint(all, 0);
      assert 0 < Scale(0);
      hide Source.Valid, FragmentsExcess, ParseVarint, ParseFrom, Scale;
      var s, j := More(0), 0;
      while s.More?
        invariant reader.Valid()
        invariant match s
          case Done(r) => ParseVarint(all, 0) == r
                          && (r.Some? ==> InHeader(all, excess, single, r.value.1) && r.value.0 < 0x1_0000_0000)
          case More(result) => 0 <= j <= 5 && InHeader(all, excess, single, j) && result < Scale(j)
                               && ParseVarint(all, 0) == ParseFrom(all, result, j)
        decreases s.More?, 5 - j
      {
        s := ReadLengthByte(s.result, j, all, excess, single);
        j := j + 1;
      }
      return if s.r.Some? then Some(s.r.value.0) else None;
    }

    lemma Fresh()
      requires Consistent() && !inScratch && fragment == []
      ensures |scratch| == MAXIMUM_TAG_LENGTH && ip == ipLimit == peeked == 0
    {
    }

    /** Decoding can start. */
    lemma AfterHeader(all: seq<byte>, excess: nat, single: bool, n: nat)
      requires |scratch| == MAXIMUM_TAG_LENGTH && !inScratch && fragment == [] && ip == ipLimit == peeked == 0
      requires InHeader(all, excess, single, n) && (narrow ==> excess <= n)
      ensures Valid() && Rest(ip) == all[n..]
      ensures single && !narrow && !eof && |all| - n >= 0x1_0000_0000 ==> BeforeWide()
    {
      assert reader.rest == [] ==> reader.current + Flatten(reader.rest) == reader.current;
    }

    /** Whatever is decoded, the end of a fragment of 2^32 bytes or more is never reached. */
    method Starve(accesses: seq<Access>)
      requires Stuck() || BeforeWide()
      modifies this, reader
      ensures Stuck() && !eof
    {
      hide *;
      Modes();
      var ok := RefillTag();
      for i := 0 to |accesses|
        invariant Stuck()
      {
        Modes();
        match accesses[i] {
          case Refill(at) =>
            MoveTo(at);
            Modes();
            ok := RefillTag();
          case Proceed =>
            var n := NextFragment();
        }
      }
      Modes();
    }

    /** Move on to any place in the buffer. */
    method MoveTo(at: nat)
      requires Stuck()
      modifies this`ip
      ensures Stuck()
    {
      ip := if at <= ipLimit then at else ipLimit;
    }

    /** The writer is intact and does not share state with the decoder. */
    ghost predicate Apart(writer: Writer)
      reads writer, writer.repr
    {
      writer.Valid() && this !in writer.repr && reader !in writer.repr
    }

    /** Decoding `rest`, which is left at `at`, after the writer's output gives `goal`. */
    ghost predicate OnTrack(at: nat, rest: seq<byte>, writer: Writer, goal: Option<seq<byte>>)
      reads this, reader, writer, writer.repr
    {
      Left(at, rest) && Apart(writer) && writer.Outcome(rest) == goal
    }

    /** The decoder stopped: it took everything and set eof, or the goal was to reject, or it is stuck. */
    ghost predicate Stopped(writer: Writer, goal: Option<seq<byte>>)
      reads this, reader, writer, writer.repr
    {
      Closable()
      && if eof then Apart(writer) && reader.bytes == [] && (writer.roomy ==> goal == Some(writer.contents))
         else goal == None || Stuck()
    }

    /** An element has been appended; see to the next tag. */
    method AfterElement(at: nat, ghost rest: seq<byte>, writer: Writer, ghost goal: Option<seq<byte>>)
      returns (ok: bool, next: nat)
      requires OnTrack(at, rest, writer, goal)
      modifies this, reader
      ensures ok ==> OnTrack(next, rest, writer, goal) && AtTag(next, rest)
      ensures !ok ==> Stopped(writer, goal)
      ensures old(BeforeWide()) && at == old(ip) ==> !ok && Stuck()
    {
      ok, next := MaybeRefill(at, rest);
    }

    /** All but the last `left` bytes of a literal are appended; those follow at `at`. */
    ghost predicate InLiteral(at: nat, left: nat, writer: Writer, g: PendingLiteral)
      reads this, reader, writer, writer.repr
    {
      && left <= g.n <= |g.rest| + left && Left(at, g.rest[g.n - left..])
      && Apart(writer) && writer.limit == g.limit
      && (writer.roomy ==> writer.contents == g.before + g.rest[..g.n - left])
    }

    /** The next k bytes of the literal, which are in the buffer. */
    lemma LiteralPiece(at: nat, k: nat, left: nat, writer: Writer, g: PendingLiteral)
      requires InLiteral(at, left, writer, g) && at + k <= ipLimit && k <= left
      ensures at + k <= |Buf()| && left <= g.n && g.n - left + k <= |g.rest| && Closable()
      ensures Buf()[at..at + k] == g.rest[g.n - left..][..k] && Left(at + k, g.rest[g.n - left + k..])
      ensures writer.Valid() && this !in writer.repr && reader !in writer.repr
      ensures writer.limit == g.limit && (writer.roomy ==> writer.contents == g.before + g.rest[..g.n - left])
    {
      TakePiece(at, k, g.rest[g.n - left..]);
      g.Advance(g.n - left, k);
      assert Closable();
      hide Buf, Closable, Writer.Valid;
    }

    lemma LiteralContinues(at: nat, left: nat, writer: Writer, g: PendingLiteral)
      requires left <= g.n <= |g.rest| + left && Left(at, g.rest[g.n - left..])
      requires writer.Valid() && this !in writer.repr && reader !in writer.repr
      requires writer.limit == g.limit && (writer.roomy ==> writer.contents == g.before + g.rest[..g.n - left])
      ensures InLiteral(at, left, writer, g)
    {
      hide Left, Writer.Valid;
    }

    /** Append k bytes of the literal from the buffer. */
    method AppendPiece(at: nat, k: nat, left: nat, writer: Writer, ghost g: PendingLiteral) returns (ok: bool)
      requires InLiteral(at, left, writer, g) && at + k <= ipLimit && k <= left
      modifies writer.repr
      ensures writer.limit == old(writer.limit) && writer.roomy == old(writer.roomy)
      ensures Closable() && eof == old(eof)
      ensures ok ==> InLiteral(at + k, left - k, writer, g) && fresh(writer.repr - old(writer.repr))
      ensures writer.roomy && !ok ==> g.Fails()
      ensures writer.roomy && ok && k == left ==> !g.Fails()
    {
      hide *;
      LiteralPiece(at, k, left, writer, g);
      g.AppendStep(g.n - left, k);
      ok := writer.Append(Buf()[at..at + k]);
      if ok {
        LiteralContinues(at + k, left - k, writer, g);
      }
    }

    lemma LiteralFacts(at: nat, left: nat, writer: Writer, g: PendingLiteral)
      requires InLiteral(at, left, writer, g)
      ensures this !in writer.repr && reader !in writer.repr && at <= ipLimit && !eof
      ensures writer.Valid() && left <= g.n <= |g.rest| + left && Left(at, g.rest[g.n - left..])
      ensures writer.limit == g.limit && (writer.roomy ==> writer.contents == g.before + g.rest[..g.n - left])
    {
      hide Writer.Valid;
    }

    /** The buffer is used up. */
    lemma NothingInBuffer(rest: seq<byte>)
      requires Left(ipLimit, rest)
      ensures Valid() && !eof && peeked <= |reader.bytes| && rest == reader.bytes[peeked..]
    {
    }

    lemma LeftIs(rest: seq<byte>)
      requires Valid() && !eof && ip == 0 && Rest(0) == rest
      ensures Left(ip, rest)
    {
    }

    lemma ClosableIs()
      requires InBounds() && (narrow ==> reader.Narrow())
      ensures Closable()
    {
    }

    lemma TooShort(left: nat, g: PendingLiteral)
      requires 0 < left <= g.n <= |g.rest| + left && g.rest[g.n - left..] == []
      ensures g.Fails()
    {
    }

    /** The buffer is used up within a literal: go to the next fragment, if there is one. */
    method NextInLiteral(left: nat, writer: Writer, ghost g: PendingLiteral) returns (more: bool)
      requires InLiteral(ipLimit, left, writer, g) && left > 0
      modifies this, reader
      ensures Closable() && !eof
      ensures more ==> ip < ipLimit && InLiteral(ip, left, writer, g)
      ensures !more ==> g.Fails() || Stuck()
    {
      hide *;
      LiteralFacts(ipLimit, left, writer, g);
      ghost var rest := g.rest[g.n - left..];
      NothingInBuffer(rest);
      Modes();
      var avail := NextFragment();
      more := 0 < avail < 0x1_0000_0000;
      ClosableIs();
      if more {
        LeftIs(rest);
        LiteralContinues(ip, left, writer, g);
      } else if avail == 0 {
        TooShort(left, g);
      } else {
        StuckIs();
      }
    }

    /** One turn of the literal loop: append the rest of the buffer, fetch the next fragment. */
    method LiteralTurn(at: nat, left: nat, writer: Writer, ghost g: PendingLiteral) returns (ok: bool)
      requires InLiteral(at, left, writer, g) && ipLimit < at + left
      modifies this, reader, writer.repr
      ensures writer.limit == old(writer.limit) && writer.roomy == old(writer.roomy)
      ensures Closable() && !eof
      ensures ok ==> at <= old(ipLimit) && ip < ipLimit && InLiteral(ip, left - (old(ipLimit) - at), writer, g)
      ensures ok ==> fresh(writer.repr - old(writer.repr))
      ensures writer.roomy && !ok ==> g.Fails() || Stuck()
    {
      hide *;
      LiteralFacts(at, left, writer, g);
      ok := AppendPiece(at, ipLimit - at, left, writer, g);
      if ok {
        ok := NextInLiteral(left - (ipLimit - at), writer, g);
      }
    }

    /**
     Append a literal, all of which is still to come at `at`, fetching fragments as they run
     out. Fails if the literal is too long for the output or for the input.
     */
    method AppendLiteral(at: nat, literalLength: nat, writer: Writer, ghost g: PendingLiteral)
      returns (ok: bool, next: nat)
      requires InLiteral(at, literalLength, writer, g) && this !in writer.repr
      modifies this, reader, writer.repr
      ensures writer.limit == old(writer.limit) && writer.roomy == old(writer.roomy)
      ensures Closable() && !eof
      ensures ok ==> InLiteral(next, 0, writer, g) && fresh(writer.repr - old(writer.repr))
      ensures writer.roomy && ok ==> !g.Fails()
      ensures writer.roomy && !ok ==> g.Fails() || Stuck()
    {
      hide *;
      next := at;
      ghost var repr := writer.repr;
      var left: nat := literalLength;
      LiteralFacts(next, left, writer, g);
      while ipLimit - next < left
        invariant InLiteral(next, left, writer, g) && next <= ipLimit && !eof
        invariant fresh(writer.repr - repr) && writer.limit == old(writer.limit) && writer.roomy == old(writer.roomy)
        decreases left, ipLimit == next
      {
        var avail := ipLimit - next;
        ok := LiteralTurn(next, left, writer, g);
        if !ok {
          return;
        }
        next, left := ip, left - avail;
      }
      LiteralFacts(next, left, writer, g);
      ok := AppendPiece(next, left, left, writer, g);
      next := next + left;
    }

    /** Just past the tag byte c at the start of `rest`, with its trailer in the buffer. */
    ghost predicate AtTrailer(at: nat, c: byte, rest: seq<byte>)
      reads this, reader
    {
      && rest != [] && rest[0] == c && Left(at, rest[1..])
      && at + 4 <= |Buf()| && TrailerSize(c) <= ipLimit - at
    }

    lemma PastTag(at: nat, rest: seq<byte>)
      requires AtTag(at, rest)
      ensures rest != [] && at < |Buf()| && Buf()[at] == rest[0] && AtTrailer(at + 1, rest[0], rest)
    {
      TakePiece(at, 1, rest);
      assert rest[..1][0] == rest[0] == Buf()[at..at + 1][0];
    }

    lemma AtTrailerFacts(at: nat, c: byte, rest: seq<byte>)
      requires AtTrailer(at, c, rest)
      ensures rest != [] && rest[0] == c && Left(at, rest[1..])
      ensures at + 4 <= |Buf()| && TrailerSize(c) <= ipLimit - at && TrailerSize(c) <= 4
    {
      hide Left;
    }

    /** The trailer as the decoder computes it. */
    lemma TrailerValue(at: nat, c: byte, rest: seq<byte>)
      requires AtTrailer(at, c, rest)
      ensures rest != [] && rest[0] == c && at + 4 <= |Buf()| && 1 + TrailerSize(c) <= |rest|
      ensures Left(at + TrailerSize(c), rest[1 + TrailerSize(c)..])
      ensures LowBits(Load(Buf(), at, 4), 8 * TrailerSize(c)) == LittleEndian(rest[1..1 + TrailerSize(c)])
    {
      hide *;
      AtTrailerFacts(at, c, rest);
      var n := TrailerSize(c);
      TakePiece(at, n, rest[1..]);
      MaskedLoad(Buf(), at, n);
      assert rest[1..][..n] == rest[1..1 + n];
      assert rest[1..][n..] == rest[1 + n..];
    }

    /** Append a copy, which moves the decoding on by that element. */
    method AppendCopy(at: nat, offset: nat, length: nat, writer: Writer,
          ghost after: seq<byte>, ghost goal: Option<seq<byte>>)
      returns (ok: bool)
      requires Left(at, after) && Apart(writer)
      requires var e := Copy(offset, length);
        goal == if !writer.roomy || !Applies(writer.contents, e, writer.limit) then None
                else Decode(after, Apply(writer.contents, e), writer.limit)
      modifies writer.repr
      ensures writer.limit == old(writer.limit) && writer.roomy == old(writer.roomy)
      ensures ok ==> OnTrack(at, after, writer, goal) && fresh(writer.repr - old(writer.repr))
      ensures !ok ==> Closable() && goal == None
    {
      assert Closable();
      hide Decode, Apply, Writer.Valid, Left, Closable;
      ok := writer.AppendFromSelf(offset, length);
    }

    /** A copy: look the tag up, add the trailer to the offset, append. */
    method CopyElement(at: nat, c: byte, writer: Writer, ghost rest: seq<byte>, ghost goal: Option<seq<byte>>)
      returns (ok: bool, next: nat, ghost after: seq<byte>)
      requires AtTrailer(at, c, rest) && c % 4 != LITERAL && Apart(writer)
      requires goal == writer.Outcome(rest)
      modifies writer.repr
      ensures writer.limit == old(writer.limit) && writer.roomy == old(writer.roomy)
      ensures |after| < |rest|
      ensures ok ==> OnTrack(next, after, writer, goal) && fresh(writer.repr - old(writer.repr))
      ensures !ok ==> Closable() && goal == None
    {
      hide *;
      TrailerValue(at, c, rest);
      CopyParses(c, rest);
      writer.OutcomeIs(rest);
      var entry := CharTable(c);
      var trailer := LowBits(Load(Buf(), at, 4), 8 * Extra(entry));
      var length := Length(entry);
      next := at + Extra(entry);
      var copyOffset := HighOffset(entry);
      DecodeStep(rest, writer.contents, writer.limit, Copy(copyOffset + trailer, length), 1 + Extra(entry));
      after := rest[1 + Extra(entry)..];
      ok := AppendCopy(next, copyOffset + trailer, length, writer, after, goal);
    }

    /** The pending literal at the start of a literal element's data. */
    lemma BeginLiteral(at: nat, c: byte, rest: seq<byte>, writer: Writer, g: PendingLiteral)
      requires AtTrailer(at, c, rest) && Apart(writer) && 1 + TrailerSize(c) <= |rest|
      requires g == PendingLiteral(rest[1 + TrailerSize(c)..], writer.contents, g.n, writer.limit)
      ensures InLiteral(at + TrailerSize(c), g.n, writer, g) && Closable() && !eof
    {
      TrailerValue(at, c, rest);
      hide TrailerSize, Writer.Valid;
      assert g.rest[0..] == g.rest && g.before + g.rest[..0] == g.before;
    }

    /** What is left once a whole literal has been appended. */
    lemma EndLiteral(next: nat, writer: Writer, g: PendingLiteral, goal: Option<seq<byte>>)
      requires InLiteral(next, 0, writer, g)
      requires |g.rest| < g.n
        || goal == if writer.roomy then Decode(g.rest[g.n..], g.before + g.rest[..g.n], g.limit) else None
      ensures g.n <= |g.rest| && OnTrack(next, g.rest[g.n..], writer, goal)
    {
      hide Decode, Left, Writer.Valid;
    }

    /** A literal: short, or with its length in the trailer. */
    method LiteralElement(at: nat, c: byte, writer: Writer, ghost rest: seq<byte>, ghost goal: Option<seq<byte>>)
      returns (ok: bool, next: nat, ghost after: seq<byte>)
      requires AtTrailer(at, c, rest) && c % 4 == LITERAL && Apart(writer)
      requires goal == writer.Outcome(rest)
      modifies this, reader, writer.repr
      ensures writer.limit == old(writer.limit) && writer.roomy == old(writer.roomy)
      ensures |after| < |rest|
      ensures ok ==> OnTrack(next, after, writer, goal) && fresh(writer.repr - old(writer.repr))
      ensures !ok ==> Closable() && !eof && (goal == None || Stuck())
    {
      hide *;
      TrailerFacts(at, c, rest, writer);
      TrailerValue(at, c, rest);
      LiteralFields(c, LittleEndian(rest[1..1 + TrailerSize(c)]));
      var start, literalLength := at, c / 4 + 1;
      if literalLength >= 61 {
        var lengthLength := literalLength - 60;
        literalLength := (LowBits(Load(Buf(), at, 4), 8 * lengthLength) + 1) % 0x1_0000_0000;
        start := at + lengthLength;
      }
      ghost var body := rest[1 + TrailerSize(c)..];
      ghost var g := PendingLiteral(body, writer.contents, literalLength, writer.limit);
      LiteralStep(c, rest, g, Decode(rest, writer.contents, writer.limit));
      writer.OutcomeIs(rest);
      BeginLiteral(at, c, rest, writer, g);
      ok, next := AppendLiteral(start, literalLength, writer, g);
      if ok {
        EndLiteral(next, writer, g, goal);
        after := body[literalLength..];
      } else {
        after := [];
      }
    }

    /** Enough bytes follow a short literal for the next tag to be read without a refill. */
    lemma RoomForTag(at: nat, k: nat, rest: seq<byte>)
      requires Left(at, rest) && k + MAXIMUM_TAG_LENGTH <= ipLimit - at
      ensures k <= |rest| && at + k <= |Buf()| && Buf()[at..at + k] == rest[..k] && AtTag(at + k, rest[k..])
    {
      TakePiece(at, k, rest);
    }

    /** What appending a short literal from the buffer would mean. */
    lemma ShortLiteral(at: nat, c: byte, k: nat, rest: seq<byte>, before: seq<byte>, limit: nat)
      requires AtTrailer(at, c, rest) && c % 4 == LITERAL && k == c / 4 + 1 <= 16
      requires k + MAXIMUM_TAG_LENGTH <= ipLimit - at
      ensures rest != [] && at + k <= |Buf()| && k <= |rest[1..]| && AtTag(at + k, rest[1..][k..])
      ensures var e := Literal(Buf()[at..at + k]);
        Applies(before, e, limit) ==> Decode(rest, before, limit) == Decode(rest[1..][k..], Apply(before, e), limit)
    {
      TrailerValue(at, c, rest);
      RoomForTag(at, k, rest[1..]);
      LiteralFields(c, LittleEndian(rest[1..1 + TrailerSize(c)]));
      hide Decode, LiteralLength, TrailerSize, LittleEndian, AtTag, Buf;
      LiteralStep(c, rest, PendingLiteral(rest[1..], before, k, limit), Decode(rest, before, limit));
    }

    /** The writer is ready for the next tag. */
    lemma Track(at: nat, rest: seq<byte>, writer: Writer)
      requires AtTag(at, rest) && writer.Valid() && this !in writer.repr && reader !in writer.repr
      ensures OnTrack(at, rest, writer, writer.Outcome(rest))
    {
      hide Decode, Writer.Valid;
    }

    lemma TrailerFacts(at: nat, c: byte, rest: seq<byte>, writer: Writer)
      requires AtTrailer(at, c, rest) && Apart(writer)
      ensures at <= ipLimit <= |Buf()| && rest != []
      ensures writer.Valid() && this !in writer.repr && reader !in writer.repr
    {
    }

    /** Let the writer take a short literal without checking for a refill. */
    method FastLiteral(at: nat, c: byte, writer: Writer, ghost rest: seq<byte>, ghost goal: Option<seq<byte>>)
      returns (taken: bool, next: nat, ghost after: seq<byte>)
      requires AtTrailer(at, c, rest) && c % 4 == LITERAL && Apart(writer)
      requires goal == writer.Outcome(rest)
      modifies writer.repr
      ensures writer.limit == old(writer.limit) && writer.roomy == old(writer.roomy)
      ensures taken ==> OnTrack(next, after, writer, goal) && AtTag(next, after) && |after| < |rest|
      ensures !taken ==> AtTrailer(at, c, rest) && Apart(writer) && goal == writer.Outcome(rest)
      ensures writer.repr == old(writer.repr)
    {
      hide *;
      TrailerFacts(at, c, rest, writer);
      var literalLength := c / 4 + 1;
      ghost var before := writer.contents;
      writer.OutcomeIs(rest);
      if literalLength <= 16 && literalLength + MAXIMUM_TAG_LENGTH <= ipLimit - at {
        ShortLiteral(at, c, literalLength, rest, before, writer.limit);
      }
      taken := writer.TryFastAppend(Buf(), at, ipLimit - at, literalLength);
      next := at + literalLength;
      after := [];
      if taken {
        after := rest[1..][literalLength..];
        writer.OutcomeIs(after);
        Track(next, after, writer);
      } else {
        writer.OutcomeIs(rest);
        StillApart(writer);
      }
    }

    lemma StillApart(writer: Writer)
      requires writer.Valid() && this !in writer.repr && reader !in writer.repr
      ensures Apart(writer)
    {
    }

    lemma TrackFacts(at: nat, rest: seq<byte>, writer: Writer, goal: Option<seq<byte>>)
      requires OnTrack(at, rest, writer, goal)
      ensures Apart(writer) && this !in writer.repr && reader !in writer.repr && !eof
      ensures goal == writer.Outcome(rest)
    {
      hide Decode, Left, Writer.Valid;
      assert !eof by { NotAtEnd(at, rest); }
    }

    lemma NotAtEnd(at: nat, rest: seq<byte>)
      requires Left(at, rest)
      ensures !eof
    {
    }

    lemma Rejected(writer: Writer, goal: Option<seq<byte>>)
      requires Closable() && !eof && (goal == None || Stuck())
      ensures Stopped(writer, goal)
    {
    }

    /** One turn of the decoder's loop: one element, then see to the next tag. */
    method DecompressTag(at: nat, writer: Writer, ghost rest: seq<byte>, ghost goal: Option<seq<byte>>)
      returns (ok: bool, next: nat, ghost after: seq<byte>)
      requires OnTrack(at, rest, writer, goal) && AtTag(at, rest)
      modifies this, reader, writer.repr
      ensures writer.limit == old(writer.limit) && writer.roomy == old(writer.roomy)
      ensures ok ==> OnTrack(next, after, writer, goal) && AtTag(next, after) && |after| < |rest|
      ensures ok || eof ==> fresh(writer.repr - old(writer.repr))
      ensures !ok ==> Stopped(writer, goal)
    {
      hide *;
      PastTag(at, rest);
      TrackFacts(at, rest, writer, goal);
      var c := Buf()[at];
      if c % 4 == LITERAL {
        ok, next, after := FastLiteral(at + 1, c, writer, rest, goal);
        if ok {
          return;
        }
        ok, next, after := LiteralElement(at + 1, c, writer, rest, goal);
      } else {
        ok, next, after := CopyElement(at + 1, c, writer, rest, goal);
      }
      if ok {
        ok, next := AfterElement(next, after, writer, goal);
      } else {
        Rejected(writer, goal);
      }
    }

    /** Everything is still to be decoded. */
    lemma Begin(writer: Writer)
      requires Valid() && !eof && Apart(writer)
      ensures OnTrack(ip, Rest(ip), writer, writer.Outcome(Rest(ip)))
    {
      hide Decode, Writer.Valid;
    }

    /** The destructor: advance the reader past what was peeked. */
    method Close()
      requires InBounds()
      modifies reader
      ensures reader.Valid() && (old(reader.bytes) == [] ==> reader.bytes == [])
      ensures old(Stalled()) ==> reader.current != [] && |reader.current| % 0x1_0000_0000 == 0
    {
      hide Source.Valid, Source.Narrow;
      reader.Skip(peeked);
    }

    /** Decode everything that is left. */
    method DecompressAllTags(writer: Writer, ghost all: seq<byte>, ghost goal: Option<seq<byte>>)
      requires OnTrack(ip, all, writer, goal)
      modifies this, reader, writer.repr
      ensures Stopped(writer, goal) && writer.limit == old(writer.limit) && writer.roomy == old(writer.roomy)
      ensures eof ==> fresh(writer.repr - old(writer.repr))
      ensures old(BeforeWide()) ==> Stuck()
    {
      hide *;
      TrackFacts(ip, all, writer, goal);
      ghost var rest, repr := all, writer.repr;
      var ok, at := AfterElement(ip, rest, writer, goal);
      while ok
        invariant if ok then OnTrack(at, rest, writer, goal) && AtTag(at, rest) else Stopped(writer, goal)
        invariant writer.limit == old(writer.limit) && writer.roomy == old(writer.roomy)
        invariant (ok || eof ==> fresh(writer.repr - repr)) && (old(BeforeWide()) ==> !ok && Stuck())
        decreases ok, |rest|
      {
        ok, at, rest := DecompressTag(at, writer, rest, goal);
      }
    }
  }

  /** The table fields give the copy that the format describes. */
  lemma CopyParses(c: byte, rest: seq<byte>)
    requires rest != [] && rest[0] == c && c % 4 != LITERAL && 1 + TrailerSize(c) <= |rest|
    ensures Extra(CharTable(c)) == TrailerSize(c)
    ensures var offset := HighOffset(CharTable(c)) + LittleEndian(rest[1..1 + TrailerSize(c)]);
      ParseElement(rest) == Some((Copy(offset, Length(CharTable(c))), 1 + TrailerSize(c)))
  {
    TableFields(c);
    hide Extra, Length, HighOffset, CharTable, LittleEndian, TrailerSize, CopyLength;
  }

  /** The length of a literal, with c / 4 + 1 as the decoder's table gives it. */
  lemma LiteralFields(c: byte, trailer: nat)
    requires c % 4 == LITERAL
    ensures c / 4 + 1 < 61 ==> TrailerSize(c) == 0 && LiteralLength(c, trailer) == c / 4 + 1
    ensures c / 4 + 1 >= 61 ==>
      TrailerSize(c) == c / 4 + 1 - 60 && LiteralLength(c, trailer) == (trailer + 1) % 0x1_0000_0000
  {
  }

  lemma LiteralSlices(rest: seq<byte>, head: nat, n: nat)
    requires head + n <= |rest|
    ensures rest[head..head + n] == rest[head..][..n] && rest[head + n..] == rest[head..][n..]
  {
  }

  lemma LiteralParses(c: byte, rest: seq<byte>, n: nat)
    requires rest != [] && rest[0] == c && c % 4 == LITERAL && 1 + TrailerSize(c) <= |rest|
    requires n == LiteralLength(c, LittleEndian(rest[1..1 + TrailerSize(c)]))
    ensures var head := 1 + TrailerSize(c);
      ParseElement(rest) == if |rest| < head + n then None else Some((Literal(rest[head..head + n]), head + n))
  {
    hide LittleEndian, TrailerSize, LiteralLength;
  }

  /** What a literal element contributes to decoding. */
  lemma LiteralStep(c: byte, rest: seq<byte>, g: PendingLiteral, goal: Option<seq<byte>>)
    requires rest != [] && rest[0] == c && c % 4 == LITERAL && 1 + TrailerSize(c) <= |rest|
    requires g.rest == rest[1 + TrailerSize(c)..]
    requires g.n == LiteralLength(c, LittleEndian(rest[1..1 + TrailerSize(c)]))
    requires goal == Decode(rest, g.before, g.limit)
    ensures g.Fails() ==> goal == None
    ensures !g.Fails() ==> goal == Decode(g.rest[g.n..], g.before + g.rest[..g.n], g.limit)
  {
    hide *;
    var head := 1 + TrailerSize(c);
    LiteralIs(c, rest, g);
    g.FailsIs();
    if |g.rest| < g.n {
      DecodeFails(rest, g.before, g.limit);
    } else {
      DecodeStep(rest, g.before, g.limit, Literal(g.rest[..g.n]), head + g.n);
    }
  }

  lemma LiteralIs(c: byte, rest: seq<byte>, g: PendingLiteral)
    requires rest != [] && rest[0] == c && c % 4 == LITERAL && 1 + TrailerSize(c) <= |rest|
    requires g.rest == rest[1 + TrailerSize(c)..]
    requires g.n == LiteralLength(c, LittleEndian(rest[1..1 + TrailerSize(c)]))
    ensures |g.rest| < g.n ==> ParseElement(rest) == None
    ensures g.n <= |g.rest| ==>
      var size := 1 + TrailerSize(c) + g.n;
      ParseElement(rest) == Some((Literal(g.rest[..g.n]), size)) && rest[size..] == g.rest[g.n..]
  {
    hide *;
    LiteralParses(c, rest, g.n);
    if g.n <= |g.rest| {
      LiteralSlices(rest, 1 + TrailerSize(c), g.n);
    }
  }

  /** n bytes of `rest` to be appended to `before` as long as `limit` is not exceeded. */
  datatype PendingLiteral = PendingLiteral(rest: seq<byte>, before: seq<byte>, n: nat, limit: nat)
  {
    ghost predicate Fails() {
      |rest| < n || limit < |before| + n
    }

    lemma FailsIs()
      ensures Fails() <==> |rest| < n || limit < |before| + n
      ensures n <= |rest| ==>
        var e := Literal(rest[..n]);
        (Applies(before, e, limit) <==> !Fails()) && Apply(before, e) == before + rest[..n]
    {
    }

    /** Appending k bytes of the literal after `done` of them. */
    lemma AppendStep(done: nat, k: nat)
      requires done + k <= |rest| && done + k <= n
      ensures var out, e := before + rest[..done], Literal(rest[done..][..k]);
        && (!Applies(out, e, limit) ==> Fails())
        && Apply(out, e) == before + rest[..done + k]
        && (Applies(out, e, limit) && done + k == n ==> !Fails())
    {
      Advance(done, k);
    }

    lemma Advance(done: nat, k: nat)
      requires done + k <= |rest|
      ensures rest[done..][k..] == rest[done + k..]
      ensures before + rest[..done + k] == (before + rest[..done]) + rest[done..][..k]
    {
      assert rest[..done + k] == rest[..done] + rest[done..][..k];
    }
  }

  lemma NothingAfterFive(all: seq<byte>, result: nat)
    requires |all| >= 5
    ensures ParseFrom(all, result, 5) == None
  {
  }

  /** ((val << shift) >> shift) != val, for shift = 7j in a 32-bit word. */
  predicate LosesBits(val: nat, j: nat)
    requires j <= 4
  {
    (Scale(j) * val) % 0x1_0000_0000 / Scale(j) != val
  }

  /** Add the seven bits of c to the length, unless they do not fit. */
  function AddBits(result: nat, j: nat, c: byte): Step
    requires j <= 4
  {
    var val := c % 128;
    if LosesBits(val, j) then Done(None)
    else if c < 128 then Done(Some((result + Scale(j) * val, j + 1)))
    else More(result + Scale(j) * val)
  }

  lemma AddedBits(all: seq<byte>, result: nat, j: nat)
    requires j < |all| && j <= 4 && result < Scale(j)
    ensures match AddBits(result, j, all[j])
      case Done(r) => ParseFrom(all, result, j) == r && (r.Some? ==> r.value.1 == j + 1 && r.value.0 < 0x1_0000_0000)
      case More(next) => next < Scale(j + 1) && ParseFrom(all, result, j) == ParseFrom(all, next, j + 1)
  {
    ParseStep(all, result, j);
    LostBits(all[j] % 128, j, result);
    if j == 4 {
      NothingAfterFive(all, result + Scale(j) * (all[j] % 128));
    }
    hide ParseFrom, Scale, LosesBits;
  }

  lemma ParseEnd(all: seq<byte>, result: nat, j: nat)
    requires j <= |all| && j <= 4
    ensures j == |all| ==> ParseFrom(all, result, j) == None
  {
  }

  /** A shift by 7j loses bits of a seven-bit value only for j = 4 and values of 16 or more. */
  lemma LostBits(val: nat, j: nat, result: nat)
    requires val < 128 && j <= 4 && result < Scale(j)
    ensures LosesBits(val, j) <==> j == 4 && val >= 16
    ensures j < 4 || val < 16 ==> result + Scale(j) * val < 0x1_0000_0000
    ensures j < 4 ==> result + Scale(j) * val < Scale(j + 1)
  {
  }
}
