/**
 The emitters of snappy.cc: literals and copies written at a moving output position, with
 stores that may run past the position they advance to.
 */
module SnappyEmit {
  import opened Bytes
  import opened SnappyCopy
  import opened SnappyFormat

  /** MaxCompressedLength */
  function MaxCompressedLength(sourceLen: nat): nat {
    32 + sourceLen + sourceLen / 6
  }

  /** memcpy(out + op, mem + from, n) */
  method CopyIn(out: array<byte>, op: nat, mem: seq<byte>, from: nat, n: nat)
    requires from + n <= |mem| && op + n <= out.Length
    modifies out
    ensures out[..op + n] == old(out[..op]) + mem[from..from + n]
  {
    forall k | op <= k < op + n {
      out[k] := mem[from + (k - op)];
    }
  }

  lemma LiteralSize(data: seq<byte>)
    requires 1 <= |data| < 0x1_0000_0000
    ensures |EncodeElement(Literal(data))| == |data|
      + (if |data| <= 60 then 1 else if |data| <= 0x100 then 2 else if |data| <= 0x1_0000 then 3
         else if |data| <= 0x100_0000 then 4 else 5)
  {
    MinimalBytesLength(|data| - 1);
  }

  lemma MinimalBytesNext(n: nat)
    ensures MinimalBytes(n) == if n == 0 then [] else [n % 256] + MinimalBytes(n / 256)
  {
  }

  /** The code of a literal in its parts. */
  lemma LiteralCode(data: seq<byte>)
    requires 1 <= |data| < 0x1_0000_0000
    ensures var n := |data| - 1; var code := EncodeElement(Literal(data));
      && |MinimalBytes(n)| <= 4
      && (n < 60 ==> code == [4 * n] + data)
      && (n >= 60 ==> 1 <= |MinimalBytes(n)| && code == [4 * (59 + |MinimalBytes(n)|)] + MinimalBytes(n) + data)
  {
    MinimalBytesLength(|data| - 1);
    hide MinimalBytes;
  }

  /** The bytes of n from `start` on, least significant first, as long as any are left. */
  method EmitLengthBytes(out: array<byte>, start: nat, n: nat) returns (op: nat, count: nat)
    requires start + |MinimalBytes(n)| <= out.Length
    modifies out
    ensures count == |MinimalBytes(n)| && op == start + count
    ensures out[..op] == old(out[..start]) + MinimalBytes(n)
  {
    hide MinimalBytes;
    op, count := start, 0;
    var rest: nat := n;
    while rest > 0
      invariant op == start + count && count + |MinimalBytes(rest)| == |MinimalBytes(n)|
      invariant out[..op] + MinimalBytes(rest) == old(out[..start]) + MinimalBytes(n)
      decreases rest
    {
      MinimalBytesNext(rest);
      ghost var done := out[..op];
      ConcatAssociative(done, [rest % 256], MinimalBytes(rest / 256));
      out[op] := rest % 256;
      op := op + 1;
      assert out[..op] == done + [rest % 256];
      rest := rest / 256;
      count := count + 1;
    }
    MinimalBytesNext(0);
    assert out[..op] + [] == out[..op];
  }

  /** The tag and the length bytes of a literal of more than 60 bytes; the tag is written last. */
  method EmitLongLength(out: array<byte>, base: nat, n: nat) returns (op: nat)
    requires 60 <= n < 0x8000_0000 && 1 <= |MinimalBytes(n)| <= 4 && base + 1 + |MinimalBytes(n)| <= out.Length
    modifies out
    ensures op == base + 1 + |MinimalBytes(n)|
    ensures out[..op] == old(out[..base]) + ([4 * (59 + |MinimalBytes(n)|)] + MinimalBytes(n))
  {
    hide *;
    LiteralIsZero();
    var count;
    op, count := EmitLengthBytes(out, base + 1, n);
    ghost var written := out[..op];
    assert written[..base] == old(out[..base]) && written[base + 1..] == MinimalBytes(n);
    SetByte(out, base, op, LITERAL + 4 * (59 + count));
  }

  /** One byte of the first op. */
  method SetByte(out: array<byte>, base: nat, op: nat, c: byte)
    requires base < op <= out.Length
    modifies out
    ensures out[..op] == old(out[..base]) + ([c] + old(out[base + 1..op]))
  {
    ghost var written := out[..op];
    out[base] := c;
    assert out[..op] == written[..base] + ([c] + written[base + 1..]);
    assert written[base + 1..] == old(out[base + 1..op]) && written[..base] == old(out[..base]);
  }

  lemma LiteralIsZero()
    ensures LITERAL == 0
  {
  }

  /** A literal of at most 16 bytes, of which 16 are copied in any case. */
  method EmitShortLiteral(out: array<byte>, start: nat, mem: seq<byte>, literal: nat, len: nat) returns (op: nat)
    requires 1 <= len <= 16 && literal + 16 <= |mem| && start + 17 <= out.Length
    modifies out
    ensures op == start + 1 + len
    ensures out[..op] == old(out[..start]) + ([4 * (len - 1)] + mem[literal..literal + len])
  {
    op := start;
    out[op] := LITERAL + 4 * (len - 1);
    op := op + 1;
    assert out[..op] == old(out[..start]) + [4 * (len - 1)];
    CopyIn(out, op, mem, literal, 16);
    assert mem[literal..literal + 16][..len] == mem[literal..literal + len];
    op := op + len;
    assert out[..op] == out[..op - len + 16][..op];
  }

  method EmitLiteral(out: array<byte>, start: nat, mem: seq<byte>, literal: nat, len: nat, allowFastPath: bool)
    returns (op: nat)
    requires 1 <= len < 0x8000_0000 && literal + len <= |mem|
    requires start + |EncodeElement(Literal(mem[literal..literal + len]))| <= out.Length
    requires allowFastPath ==> literal + 16 <= |mem| && start + 17 <= out.Length
    modifies out
    ensures op == start + |EncodeElement(Literal(mem[literal..literal + len]))| <= out.Length
    ensures out[..op] == old(out[..start]) + EncodeElement(Literal(mem[literal..literal + len]))
  {
    hide EncodeElement, MinimalBytes;
    ghost var data, before := mem[literal..literal + len], out[..start];
    LiteralCode(data);
    if allowFastPath && len <= 16 {
      op := EmitShortLiteral(out, start, mem, literal, len);
      return;
    }
    op := start;
    var n := len - 1;
    if n < 60 {
      out[op] := LITERAL + 4 * n;
      op := op + 1;
      assert out[..op] == before + [4 * n];
      ConcatAssociative(before, [4 * n], data);
    } else {
      ghost var tag, length := [4 * (59 + |MinimalBytes(n)|)], MinimalBytes(n);
      op := EmitLongLength(out, op, n);
      ConcatAssociative(before, tag + length, data);
    }
    CopyIn(out, op, mem, literal, len);
    op := op + len;
  }

  method EmitCopyAtMost64(out: array<byte>, start: nat, offset: nat, len: nat, lenLessThan12: bool) returns (op: nat)
    requires 4 <= len <= 64 && 1 <= offset < 0x1_0000 && (lenLessThan12 <==> len < 12)
    requires start + 4 <= out.Length
    modifies out
    ensures op == start + |EncodeElement(Copy(offset, len))| < start + 4
    ensures out[..op] == old(out[..start]) + EncodeElement(Copy(offset, len))
  {
    op := start;
    if lenLessThan12 && offset < 2048 {
      ElevenBitOffset(offset);
      out[op] := COPY_1_BYTE_OFFSET + 4 * (len - 4) + ((offset / 8) / 32 % 8) * 32;
      op := op + 1;
      out[op] := offset % 256;
      op := op + 1;
      assert out[..op] == old(out[..start]) + [out[start], out[start + 1]];
    } else {
      // A four-byte little-endian store of which three bytes count.
      StoredWord(COPY_2_BYTE_OFFSET + 4 * (len - 1), offset);
      var u := COPY_2_BYTE_OFFSET + 4 * (len - 1) + 256 * offset;
      Store32(out, op, u);
      op := op + 3;
      assert out[..op] == old(out[..start]) + [out[start], out[start + 1], out[start + 2]];
    }
  }

  /** LittleEndian::Store32 */
  method Store32(out: array<byte>, p: nat, u: uint32)
    requires p + 4 <= out.Length
    modifies out
    ensures out[p] == u % 256 && out[p + 1] == (u / 256) % 256
    ensures out[p + 2] == (u / 0x1_0000) % 256 && out[p + 3] == u / 0x100_0000
    ensures forall k :: 0 <= k < out.Length && !(p <= k < p + 4) ==> out[k] == old(out[k])
  {
    out[p], out[p + 1], out[p + 2], out[p + 3] := u % 256, (u / 256) % 256, (u / 0x1_0000) % 256, u / 0x100_0000;
  }

  lemma ElevenBitOffset(offset: nat)
    requires offset < 2048
    ensures ((offset / 8) / 32 % 8) * 32 == 32 * (offset / 256)
  {
  }

  lemma StoredWord(tag: byte, offset: uint16)
    ensures var u := tag + 256 * offset;
      u % 256 == tag && (u / 256) % 256 == offset % 256 && (u / 0x1_0000) % 256 == offset / 256 && u / 0x100_0000 == 0
  {
  }

  /** How EmitCopy splits a match: 64 bytes at a time, always leaving at least four. */
  function SplitCopy(offset: nat, len: nat): (r: seq<Element>)
    requires len >= 4
  {
    if len >= 68 then [Copy(offset, 64)] + SplitCopy(offset, len - 64)
    else if len > 64 then [Copy(offset, 60), Copy(offset, len - 60)]
    else [Copy(offset, len)]
  }

  lemma PieceSize(offset: nat, len: nat)
    requires 1 <= offset < 0x1_0000 && 4 <= len <= 64
    ensures Encodable(Copy(offset, len)) && |EncodeElement(Copy(offset, len))| <= 3
  {
  }

  lemma SplitCopyIs(offset: nat, len: nat)
    requires len >= 4
    ensures len >= 68 ==> SplitCopy(offset, len) == [Copy(offset, 64)] + SplitCopy(offset, len - 64)
    ensures 64 < len < 68 ==> SplitCopy(offset, len) == [Copy(offset, 60)] + [Copy(offset, len - 60)]
    ensures len <= 64 ==> SplitCopy(offset, len) == [Copy(offset, len)]
  {
  }

  /** Each piece is 4..64 bytes long and at least one byte shorter in the stream. */
  lemma {:induction false} SplitCopySize(offset: nat, len: nat)
    requires 1 <= offset < 0x1_0000 && len >= 4
    ensures AllEncodable(SplitCopy(offset, len))
    ensures |EncodeAll(SplitCopy(offset, len))| < len
    decreases len
  {
    hide *;
    SplitCopyIs(offset, len);
    var first := if len >= 68 then 64 else if len > 64 then 60 else len;
    PieceSize(offset, first);
    EncodeOne(Copy(offset, first));
    if len >= 68 {
      SplitCopySize(offset, len - 64);
      EncodeAllAppend([Copy(offset, 64)], SplitCopy(offset, len - 64));
    } else if len > 64 {
      PieceSize(offset, len - 60);
      EncodeOne(Copy(offset, len - 60));
      EncodeAllAppend([Copy(offset, 60)], [Copy(offset, len - 60)]);
    }
  }

  /** The pieces compose to the one copy that was asked for. */
  lemma {:induction false} SplitCopyIsCopy(out: seq<byte>, offset: nat, len: nat, limit: nat)
    requires 1 <= offset <= |out| && len >= 4 && |out| + len <= limit
    ensures ApplyAll(out, SplitCopy(offset, len), limit) == Some(CopyFromSelf(out, offset, len))
    decreases len
  {
    hide CopyFromSelf;
    var pieces := SplitCopy(offset, len);
    if len >= 68 {
      SplitCopyIsCopy(CopyFromSelf(out, offset, 64), offset, len - 64, limit);
      CopyCompose(out, offset, 64, len - 64);
      assert pieces[1..] == SplitCopy(offset, len - 64);
    } else if len > 64 {
      CopyCompose(out, offset, 60, len - 60);
      assert pieces[1..] == [Copy(offset, len - 60)];
      ApplyOne(CopyFromSelf(out, offset, 60), Copy(offset, len - 60), limit);
    } else {
      ApplyOne(out, Copy(offset, len), limit);
    }
  }

  /** One more piece of a copy, after the pieces already written. */
  method EmitPiece(out: array<byte>, start: nat, offset: nat, len: nat, lenLessThan12: bool,
        ghost before: seq<byte>, ghost done: seq<Element>)
    returns (op: nat)
    requires 4 <= len <= 64 && 1 <= offset < 0x1_0000 && (lenLessThan12 <==> len < 12)
    requires start + 4 <= out.Length && AllEncodable(done)
    requires out[..start] == before + EncodeAll(done)
    modifies out
    ensures AllEncodable(done + [Copy(offset, len)])
    ensures start < op < start + len && op <= out.Length
    ensures out[..op] == before + EncodeAll(done + [Copy(offset, len)])
  {
    op := EmitCopyAtMost64(out, start, offset, len, lenLessThan12);
    EncodeSnoc(done, Copy(offset, len));
  }

  /** `done` are the pieces of `all` that come before the last len bytes. */
  ghost predicate PiecesLeft(all: seq<Element>, done: seq<Element>, offset: nat, len: nat)
  {
    len >= 4 && all == done + SplitCopy(offset, len)
  }

  lemma NoPieceTaken(offset: nat, len: nat)
    requires len >= 4 && 1 <= offset < 0x1_0000
    ensures PiecesLeft(SplitCopy(offset, len), [], offset, len)
    ensures AllEncodable(SplitCopy(offset, len)) && AllEncodable([]) && EncodeAll([]) == []
  {
    hide SplitCopy;
    SplitCopySize(offset, len);
  }

  lemma PieceTaken(all: seq<Element>, done: seq<Element>, offset: nat, len: nat)
    requires PiecesLeft(all, done, offset, len)
    ensures len >= 68 ==> PiecesLeft(all, done + [Copy(offset, 64)], offset, len - 64)
    ensures 64 < len < 68 ==> PiecesLeft(all, done + [Copy(offset, 60)], offset, len - 60)
    ensures len <= 64 ==> all == done + [Copy(offset, len)]
  {
    if len >= 68 {
      assert all == done + [Copy(offset, 64)] + SplitCopy(offset, len - 64);
    } else if len > 64 {
      assert all == done + [Copy(offset, 60)] + [Copy(offset, len - 60)];
    }
  }

  method EmitCopy(out: array<byte>, start: nat, offset: nat, length: nat, lenLessThan12: bool) returns (op: nat)
    requires length >= 4 && 1 <= offset < 0x1_0000 && (lenLessThan12 <==> length < 12)
    requires start + length <= out.Length
    modifies out
    ensures AllEncodable(SplitCopy(offset, length))
    ensures start <= op < start + length
    ensures out[..op] == old(out[..start]) + EncodeAll(SplitCopy(offset, length))
  {
    hide *;
    NoPieceTaken(offset, length);
    ghost var before, all := out[..start], SplitCopy(offset, length);
    ghost var done: seq<Element> := [];
    op := start;
    var len := length;
    if lenLessThan12 {
      PieceTaken(all, done, offset, len);
      op := EmitPiece(out, op, offset, len, true, before, done);
      return;
    }
    while len >= 68
      invariant len >= 4 && op + len <= start + length && start <= op
      invariant AllEncodable(done) && PiecesLeft(all, done, offset, len)
      invariant out[..op] == before + EncodeAll(done)
    {
      PieceTaken(all, done, offset, len);
      op := EmitPiece(out, op, offset, 64, false, before, done);
      done := done + [Copy(offset, 64)];
      len := len - 64;
    }
    PieceTaken(all, done, offset, len);
    if len > 64 {
      op := EmitPiece(out, op, offset, 60, false, before, done);
      done := done + [Copy(offset, 60)];
      len := len - 60;
      PieceTaken(all, done, offset, len);
    }
    op := EmitPiece(out, op, offset, len, len < 12, before, done);
  }
}
