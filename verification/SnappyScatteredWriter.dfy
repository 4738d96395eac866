/**
 `SnappyScatteredWriter`: output kept as blocks of 64 KB, all but the last of them full, with
 copies that may reach back across blocks.
 */
module SnappyScatteredWriter {
  import opened Bytes
  import opened SnappyCopy
  import opened SnappyFormat
  import opened SnappyEmit
  import opened SnappyArrayWriter

  /** What a copy within out[k..] appends to that and to all of the output. */
  lemma CopyOfBlock(out: seq<byte>, k: nat, offset: nat, len: nat)
    requires k <= |out| && 1 <= offset <= |out| - k
    ensures var copied := CopyFromSelf(out, offset, len);
      && copied == out + copied[|out|..]
      && CopyFromSelf(out[k..], offset, len) == out[k..] + copied[|out|..]
  {
    hide CopyFromSelf;
    CopyExtends(out, k, offset, len);
    var copied := CopyFromSelf(out, offset, len);
    assert copied == out + copied[|out|..];
    assert copied[k..] == out[k..] + copied[|out|..];
  }

  /** When a copy fits, and what it comes to. */
  lemma CopyFits(out: seq<byte>, offset: nat, length: nat, limit: nat)
    requires |out| <= limit < SIZE_MAX
    ensures Applies(out, Copy(offset, length), limit) <==> OffsetMinusOne(offset) < |out| && length <= limit - |out|
    ensures 1 <= offset <= |out| && length <= limit - |out| ==> Applies(out, Copy(offset, length), limit)
    ensures Applies(out, Copy(offset, length), limit) ==>
      && 1 <= offset <= |out| && CopyFromSelf(out, offset, 0) == out
      && Apply(out, Copy(offset, length)) == CopyFromSelf(out, offset, length)
  {
  }

  lemma CopyStep(out: seq<byte>, offset: nat, n: nat)
    requires 1 <= offset <= |out|
    ensures var prev := CopyFromSelf(out, offset, n);
      |prev| == |out| + n && CopyFromSelf(out, offset, n + 1) == prev + [prev[|prev| - offset]]
  {
  }

  /** The first n bytes from ip on are taken, after the ip bytes before them. */
  lemma Taken(before: seq<byte>, bytes: seq<byte>, ip: nat, n: nat)
    requires ip + n <= |bytes|
    ensures before + bytes[..ip + n] == before + bytes[..ip] + bytes[ip..ip + n]
    ensures before + bytes[..0] == before && bytes[..|bytes|] == bytes
  {
    assert bytes[..ip + n] == bytes[..ip] + bytes[ip..ip + n];
    ConcatAssociative(before, bytes[..ip], bytes[ip..ip + n]);
  }

  /** A copy whose source is past k keeps what was there and copies what is past k. */
  lemma CopyExtends(out: seq<byte>, k: nat, offset: nat, len: nat)
    requires k <= |out| && 1 <= offset <= |out| - k
    ensures CopyFromSelf(out, offset, len)[..|out|] == out
    ensures CopyFromSelf(out, offset, len)[k..] == CopyFromSelf(out[k..], offset, len)
  {
    hide CopyFromSelf;
    CopyRepeats(out, offset, len);
    CopyWithPrefix(out[..k], out[k..], offset, len);
    assert out == out[..k] + out[k..];
  }

  class SnappyScatteredWriter {
    var blocks: seq<array<byte>>
    var expected: nat
    /** Total size of the blocks before the current one. */
    var fullSize: nat
    /** The current block, the next free byte in it, and its size. */
    var opBase: array?<byte>
    var opPtr: nat
    var opLimit: nat

    ghost var contents: seq<byte>

    ghost function Repr(): set<object>
      reads this
    {
      {this} + (set i | 0 <= i < |blocks| :: blocks[i])
    }

    /** Blocks 0..n-1 are full and hold the first n * BLOCK_SIZE bytes of the output. */
    ghost predicate FullBlocks(n: nat)
      reads this, blocks
    {
      && n <= |blocks| && n * BLOCK_SIZE <= |contents|
      && forall i :: 0 <= i < n ==> blocks[i].Length == BLOCK_SIZE && BlockHolds(i)
    }

    ghost predicate BlockHolds(i: nat)
      requires i < |blocks|
      reads this, blocks
    {
      (i + 1) * BLOCK_SIZE <= |contents| && contents[i * BLOCK_SIZE..(i + 1) * BLOCK_SIZE] == blocks[i][..]
    }

    ghost predicate Valid()
      reads this, blocks
    {
      && expected < SIZE_MAX && |contents| == fullSize + opPtr
      && (forall i, j :: 0 <= i < j < |blocks| ==> blocks[i] != blocks[j])
      && if blocks == [] then opBase == null && fullSize == 0 && opPtr == opLimit == 0
         else
           && opBase == blocks[|blocks| - 1] && opPtr <= opLimit == opBase.Length
           && fullSize == (|blocks| - 1) * BLOCK_SIZE && FullBlocks(|blocks| - 1)
           && contents[fullSize..] == opBase[..opPtr]
           && fullSize < expected
           && opLimit == (if BLOCK_SIZE <= expected - fullSize then BLOCK_SIZE else expected - fullSize)
    }

    constructor ()
      ensures Valid() && contents == [] && expected == 0 && blocks == []
    {
      blocks, expected, fullSize, opBase, opPtr, opLimit, contents := [], 0, 0, null, 0, 0, [];
    }

    method SetExpectedLength(len: nat)
      requires Valid() && blocks == [] && len < SIZE_MAX
      modifies this
      ensures Valid() && blocks == [] && contents == [] && expected == len
    {
      expected := len;
    }

    method Size() returns (n: nat)
      requires Valid()
      ensures n == |contents|
    {
      return fullSize + opPtr;
    }

    method CheckLength() returns (ok: bool)
      requires Valid()
      ensures ok <==> |contents| == expected
    {
      var n := Size();
      return n == expected;
    }

    /** Writing to the current block only, from the write position on, appends. */
    twostate lemma Extended(bytes: seq<byte>)
      requires old(Valid()) && blocks == old(blocks) && blocks != []
      requires opBase == old(opBase) && fullSize == old(fullSize) && opLimit == old(opLimit)
      requires expected == old(expected)
      requires opPtr == old(opPtr) + |bytes| <= opLimit && contents == old(contents) + bytes
      requires opBase[..opPtr] == old(opBase[..opPtr]) + bytes
      requires forall i :: 0 <= i < |blocks| - 1 ==> blocks[i][..] == old(blocks[i][..])
      ensures Valid() && Repr() == old(Repr())
    {
      assert forall i :: 0 <= i < |blocks| - 1 ==> old(BlockHolds(i)) ==> BlockHolds(i);
      assert contents[fullSize..] == old(contents)[fullSize..] + bytes;
    }

    /** memcpy to the current block, which has room. */
    method AppendToBlock(bytes: seq<byte>)
      requires Valid() && |bytes| <= opLimit - opPtr
      modifies Repr()
      ensures Valid() && blocks == old(blocks) && expected == old(expected) && Repr() == old(Repr())
      ensures contents == old(contents) + bytes && opPtr == old(opPtr) + |bytes| && opLimit == old(opLimit)
    {
      hide FullBlocks, BlockHolds;
      if blocks != [] {
        CopyIn(opBase, opPtr, bytes, 0, |bytes|);
      }
      contents := contents + bytes;
      opPtr := opPtr + |bytes|;
      if blocks != [] {
        Extended(bytes);
      }
    }

    /** The current block is full and `remaining` bytes are still to come: start another block. */
    method NextBlock(remaining: nat) returns (ok: bool)
      requires Valid() && opPtr == opLimit && remaining > 0
      modifies this
      ensures ok <==> |old(contents)| + remaining <= expected
      ensures expected == old(expected) && contents == old(contents)
      ensures ok ==> Valid() && opPtr == 0 < opLimit && fresh(Repr() - old(Repr()))
    {
      if |contents| + remaining <= expected {
        BlocksAreFull();
      }
      fullSize := fullSize + opPtr;
      assert |contents| + remaining <= expected ==> FullBlocks(|blocks|);
      hide FullBlocks, BlockHolds, Valid;
      if fullSize + remaining > expected {
        return false;
      }
      StartBlock();
      return true;
    }

    /** All blocks are full: start another one, for as much as is still expected. */
    method StartBlock()
      requires FullBlocks(|blocks|) && |contents| == |blocks| * BLOCK_SIZE == fullSize < expected < SIZE_MAX
      requires forall i, j :: 0 <= i < j < |blocks| ==> blocks[i] != blocks[j]
      modifies this
      ensures Valid() && opPtr == 0 < opLimit && fresh(Repr() - old(Repr()))
      ensures expected == old(expected) && contents == old(contents)
    {
      var bsize := if BLOCK_SIZE <= expected - fullSize then BLOCK_SIZE else expected - fullSize;
      ghost var m := |blocks|;
      opBase := new byte[bsize];
      opPtr := 0;
      opLimit := bsize;
      blocks := blocks + [opBase];
      assert forall i :: 0 <= i < m ==> old(BlockHolds(i)) ==> BlockHolds(i);
    }

    /** A full last block, short of the expected length, is like all the others. */
    lemma BlocksAreFull()
      requires Valid() && opPtr == opLimit && |contents| < expected
      ensures FullBlocks(|blocks|) && |contents| == |blocks| * BLOCK_SIZE
    {
      if blocks != [] {
        var m := |blocks|;
        assert opBase[..opPtr] == blocks[m - 1][..];
        assert contents[(m - 1) * BLOCK_SIZE..m * BLOCK_SIZE] == contents[fullSize..];
        assert BlockHolds(m - 1);
      }
    }

    /** Fill up the current block and start another for the `remaining` bytes. */
    method FillBlock(bytes: seq<byte>, remaining: nat) returns (ok: bool)
      requires Valid() && |bytes| == opLimit - opPtr && remaining > 0
      modifies Repr()
      ensures ok <==> |old(contents)| + |bytes| + remaining <= expected
      ensures expected == old(expected)
      ensures ok ==> Valid() && contents == old(contents) + bytes && opPtr < opLimit && fresh(Repr() - old(Repr()))
    {
      hide Valid, FullBlocks, BlockHolds;
      Space();
      AppendToBlock(bytes);
      ok := NextBlock(remaining);
    }

    lemma Space()
      requires Valid()
      ensures opPtr <= opLimit && |contents| + (opLimit - opPtr) <= expected && this in Repr()
    {
    }

    method SlowAppend(bytes: seq<byte>) returns (ok: bool)
      requires Valid()
      modifies Repr()
      ensures ok <==> |old(contents)| + |bytes| <= expected
      ensures expected == old(expected)
      ensures ok ==> Valid() && contents == old(contents) + bytes && fresh(Repr() - old(Repr()))
    {
      hide Valid, FullBlocks, BlockHolds;
      Space();
      var avail: nat, ip: nat, len: nat := opLimit - opPtr, 0, |bytes|;
      ghost var before, repr := contents, Repr();
      Taken(before, bytes, 0, 0);
      while len > avail
        invariant Valid() && avail == opLimit - opPtr && ip + len == |bytes|
        invariant contents == before + bytes[..ip] && |contents| == |before| + ip && expected == old(expected)
        invariant fresh(Repr() - repr)
        decreases len, if avail == 0 then 1 else 0
      {
        Taken(before, bytes, ip, avail);
        len := len - avail;
        ok := FillBlock(bytes[ip..ip + avail], len);
        ip := ip + avail;
        if !ok {
          return;
        }
        avail := opLimit - opPtr;
      }
      AppendToBlock(bytes[ip..ip + len]);
      Taken(before, bytes, ip, len);
      Space();
      return true;
    }

    method Append(bytes: seq<byte>) returns (ok: bool)
      requires Valid()
      modifies Repr()
      ensures ok <==> Applies(old(contents), Literal(bytes), expected)
      ensures expected == old(expected)
      ensures ok ==> Valid() && contents == Apply(old(contents), Literal(bytes)) && fresh(Repr() - old(Repr()))
    {
      if |bytes| <= opLimit - opPtr {
        AppendToBlock(bytes);
        return true;
      }
      ok := SlowAppend(bytes);
    }

    method TryFastAppend(mem: seq<byte>, ip: nat, available: nat, len: nat) returns (taken: bool)
      requires Valid() && ip + available <= |mem|
      modifies Repr()
      ensures taken ==> len + MAXIMUM_TAG_LENGTH <= available && len <= 16
      ensures taken ==> Applies(old(contents), Literal(mem[ip..ip + len]), expected)
      ensures Valid() && expected == old(expected) && Repr() == old(Repr())
      ensures contents == if taken then Apply(old(contents), Literal(mem[ip..ip + len])) else old(contents)
    {
      var spaceLeft := opLimit - opPtr;
      if len <= 16 && available >= 16 + MAXIMUM_TAG_LENGTH && spaceLeft >= 16 {
        hide FullBlocks, BlockHolds;
        UnalignedCopy128(mem, ip, opBase, opPtr, len);
        contents := contents + mem[ip..ip + len];
        opPtr := opPtr + len;
        Extended(mem[ip..ip + len]);
        return true;
      }
      return false;
    }

    /** Where byte src of the output is stored. */
    lemma Locate(src: nat)
      requires Valid() && src < |contents|
      ensures src / BLOCK_SIZE < |blocks| && src % BLOCK_SIZE < blocks[src / BLOCK_SIZE].Length
      ensures blocks[src / BLOCK_SIZE][src % BLOCK_SIZE] == contents[src]
    {
      var i, j := src / BLOCK_SIZE, src % BLOCK_SIZE;
      assert src == i * BLOCK_SIZE + j;
      if src < fullSize {
        assert i < |blocks| - 1 && BlockHolds(i);
        assert contents[i * BLOCK_SIZE..(i + 1) * BLOCK_SIZE][j] == contents[src];
        assert blocks[i][..][j] == blocks[i][j];
      } else {
        assert i == |blocks| - 1 && j == src - fullSize;
        assert contents[fullSize..][j] == contents[src];
        assert opBase[..opPtr][j] == opBase[j];
      }
    }

    /** Append a copy of byte src of the output. */
    method AppendByteAt(src: nat)
      requires Valid() && src < |contents| < expected
      modifies Repr()
      ensures Valid() && expected == old(expected) && fresh(Repr() - old(Repr()))
      ensures contents == old(contents) + [old(contents)[src]]
    {
      Locate(src);
      var c := blocks[src / BLOCK_SIZE][src % BLOCK_SIZE];
      var appended := Append([c]);
    }

    lemma ExpectedFits()
      requires Valid()
      ensures |contents| <= expected < SIZE_MAX
    {
    }

    method SlowAppendFromSelf(offset: nat, length: nat) returns (ok: bool)
      requires Valid()
      modifies Repr()
      ensures ok <==> Applies(old(contents), Copy(offset, length), expected)
      ensures expected == old(expected)
      ensures ok ==> Valid() && contents == Apply(old(contents), Copy(offset, length)) && fresh(Repr() - old(Repr()))
    {
      hide Valid, CopyFromSelf, Apply, Applies, BlockHolds, FullBlocks, OffsetMinusOne;
      ExpectedFits();
      CopyFits(contents, offset, length, expected);
      var cur := Size();
      if OffsetMinusOne(offset) >= cur {
        return false;
      }
      if expected - cur < length {
        return false;
      }
      var src: nat, len: nat := cur - offset, length;
      while len > 0
        invariant Valid() && expected == old(expected) && fresh(Repr() - old(Repr()))
        invariant len <= length && src == |contents| - offset
        invariant contents == CopyFromSelf(old(contents), offset, length - len)
      {
        CopyStep(old(contents), offset, length - len);
        AppendByteAt(src);
        src := src + 1;
        len := len - 1;
      }
      return true;
    }

    lemma OffsetInBlock(offset: nat)
      requires Valid() && OffsetMinusOne(offset) < opPtr
      ensures 1 <= offset <= opPtr
    {
    }

    /** The source of the copy is in the current block, and so is the room for it. */
    method CopyInBlock(offset: nat, len: nat)
      requires Valid() && 1 <= offset <= opPtr && opPtr + len <= opLimit
      modifies Repr()
      ensures Applies(old(contents), Copy(offset, len), expected)
      ensures Valid() && expected == old(expected) && Repr() == old(Repr())
      ensures contents == Apply(old(contents), Copy(offset, len))
    {
      hide *;
      CurrentBlock();
      CopyFits(contents, offset, len, expected);
      ghost var block, copied := opBase[..opPtr], CopyFromSelf(contents, offset, len);
      CopyOfBlock(contents, fullSize, offset, len);
      IncrementalCopy(opBase, opPtr - offset, opPtr, opPtr + len, opLimit);
      contents := copied;
      opPtr := opPtr + len;
      Extended(copied[|old(contents)|..]);
    }

    lemma CurrentBlock()
      requires Valid() && opPtr > 0
      ensures blocks != [] && opBase != null && opPtr <= opLimit == opBase.Length && this in Repr() && opBase in Repr()
      ensures |contents| == fullSize + opPtr && contents[fullSize..] == opBase[..opPtr]
      ensures |contents| + (opLimit - opPtr) <= expected < SIZE_MAX
      ensures forall i :: 0 <= i < |blocks| - 1 ==> blocks[i] != opBase
    {
    }

    method AppendFromSelf(offset: nat, len: nat) returns (ok: bool)
      requires Valid()
      modifies Repr()
      ensures ok <==> Applies(old(contents), Copy(offset, len), expected)
      ensures expected == old(expected)
      ensures ok ==> Valid() && contents == Apply(old(contents), Copy(offset, len)) && fresh(Repr() - old(Repr()))
    {
      hide *;
      var opEnd := opPtr + len;
      if OffsetMinusOne(offset) < opPtr && opEnd <= opLimit {
        OffsetInBlock(offset);
        CopyInBlock(offset, len);
        return true;
      }
      ok := SlowAppendFromSelf(offset, len);
    }

    /** How much has been handed over with the first i blocks. */
    ghost function Flushed(i: nat): nat
      reads this
    {
      if i < |blocks| then i * BLOCK_SIZE else |contents|
    }

    lemma FlushedStart()
      requires Valid()
      ensures Flushed(0) == 0 && contents[..0] == [] && contents[..|contents|] == contents
    {
    }

    lemma FlushedNext(i: nat)
      requires Valid() && i < |blocks|
      ensures Flushed(i) <= |contents| && Flushed(|blocks|) == |contents|
      ensures var rest := |contents| - Flushed(i);
        var n := if blocks[i].Length <= rest then blocks[i].Length else rest;
        Flushed(i + 1) == Flushed(i) + n <= |contents|
        && contents[..Flushed(i + 1)] == contents[..Flushed(i)] + blocks[i][..n]
    {
      if i + 1 < |blocks| {
        assert BlockHolds(i);
        assert contents[i * BLOCK_SIZE..(i + 1) * BLOCK_SIZE] == blocks[i][..];
      } else {
        assert contents[fullSize..] == opBase[..opPtr];
      }
    }

    /** Hand the blocks over to the sink, the last one only as far as it was written. */
    method Flush(dest: BlockSink)
      requires Valid()
      modifies this, dest
      ensures dest.contents == old(dest.contents) + contents && contents == old(contents) && blocks == []
    {
      hide Valid, FullBlocks, BlockHolds;
      var size := Size();
      var sizeWritten: nat := 0;
      var i := 0;
      FlushedStart();
      while i < |blocks|
        invariant 0 <= i <= |blocks| && Valid() && sizeWritten == Flushed(i) <= |contents|
        invariant dest.contents == old(dest.contents) + contents[..sizeWritten]
        modifies dest
      {
        var blockSize := if blocks[i].Length <= size - sizeWritten then blocks[i].Length else size - sizeWritten;
        FlushedNext(i);
        dest.AppendAndTakeOwnership(blocks[i], blockSize);
        sizeWritten := sizeWritten + blockSize;
        i := i + 1;
      }
      blocks := [];
    }
  }

  /** A sink that keeps the blocks it is given. */
  class BlockSink {
    var owned: seq<array<byte>>
    ghost var contents: seq<byte>

    constructor ()
      ensures contents == []
    {
      owned, contents := [], [];
    }

    method AppendAndTakeOwnership(data: array<byte>, n: nat)
      requires n <= data.Length
      modifies this
      ensures contents == old(contents) + data[..n]
    {
      owned := owned + [data];
      contents := contents + data[..n];
    }
  }
}
