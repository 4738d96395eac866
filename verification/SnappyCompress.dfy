/**
 `Compress` and `RawCompress`: the block loop around `CompressFragment`, for any hash function
 into the table.
 */
module SnappyCompress {
  import opened Bytes
  import opened SnappyFormat
  import opened SnappyFormatMeaning
  import opened SnappyEmit
  import opened SnappyMatch
  import opened SnappyFragment
  import opened SnappyVarint
  import opened SnappyStream

  const MAX_HASH_TABLE_SIZE := 0x4000
  const MULTIPLIER := 0x1e35a7bd

  /** HashBytes: a 32-bit multiplicative hash, of which the top bits are kept. */
  function HashBytes(bytes: nat, shift: nat): nat {
    ShiftR((bytes * MULTIPLIER) % 0x1_0000_0000, shift)
  }

  /** A hash function: of four bytes, and the shift that leaves as many bits as the table has. */
  type Hash = (nat, nat) -> nat

  /** It hashes into each of the tables that are used. */
  ghost predicate IntoTable(hash: Hash) {
    forall bytes: nat, shift: nat :: 18 <= shift <= 24 ==> hash(bytes, shift) < Pow2(32 - shift)
  }

  /** The hash function of snappy.cc does. */
  lemma HashInTable()
    ensures IntoTable(HashBytes)
  {
    forall bytes: nat, shift: nat | 18 <= shift <= 24 ensures HashBytes(bytes, shift) < Pow2(32 - shift) {
      HashBound(bytes, 32 - shift);
    }
  }

  lemma HashBound(bytes: nat, bits: nat)
    requires bits <= 32
    ensures HashBytes(bytes, 32 - bits) < Pow2(bits)
  {
    Pow2Values();
    ShiftRBound((bytes * MULTIPLIER) % 0x1_0000_0000, bits, 32 - bits);
  }

  class WorkingMemory {
    const smallTable: array<uint16>
    var largeTable: array?<uint16>

    constructor ()
      ensures Valid() && fresh(smallTable) && largeTable == null
    {
      smallTable := new uint16[1024];
      largeTable := null;
    }

    ghost predicate Valid()
      reads this
    {
      smallTable.Length == 1024 && (largeTable != null ==> largeTable.Length == MAX_HASH_TABLE_SIZE)
    }

    /** A cleared table whose size is a power of two from 2^8 to 2^14. */
    method GetHashTable(inputSize: nat) returns (table: array<uint16>, tableSize: nat, ghost bits: nat)
      requires Valid()
      modifies this, smallTable, largeTable
      ensures Valid() && (largeTable == old(largeTable) || fresh(largeTable))
      ensures table == smallTable || table == largeTable
      ensures 8 <= bits <= 14 && tableSize == Pow2(bits) <= table.Length
      ensures forall i :: 0 <= i < tableSize ==> table[i] == 0
    {
      tableSize, bits := HashTableSize(inputSize);
      if tableSize <= 1024 {
        table := smallTable;
      } else {
        if largeTable == null {
          largeTable := new uint16[MAX_HASH_TABLE_SIZE];
        }
        table := largeTable;
      }
      forall i | 0 <= i < tableSize {
        table[i] := 0;
      }
    }
  }

  method HashTableSize(inputSize: nat) returns (htsize: nat, ghost bits: nat)
    ensures 8 <= bits <= 14 && htsize == Pow2(bits) <= MAX_HASH_TABLE_SIZE
    ensures inputSize <= htsize || htsize == MAX_HASH_TABLE_SIZE
  {
    Pow2Values();
    Pow2Monotone(8, 14);
    htsize := 256;
    bits := 8;
    while htsize < MAX_HASH_TABLE_SIZE && htsize < inputSize
      invariant 8 <= bits <= 14 && htsize == Pow2(bits) <= MAX_HASH_TABLE_SIZE
      decreases MAX_HASH_TABLE_SIZE - htsize
    {
      Pow2Monotone(14, bits);
      Pow2Monotone(bits + 1, 14);
      htsize := htsize * 2;
      bits := bits + 1;
    }
  }

  lemma {:induction false} Pow2Monotone(a: nat, b: nat)
    ensures a <= b ==> Pow2(a) <= Pow2(b)
    ensures Pow2(14) == MAX_HASH_TABLE_SIZE
    decreases b
  {
    assert Pow2(14) == 64 * Pow2(8) && Pow2(8) == 256 by {
      Pow2Values();
      assert Pow2(11) == 8 * Pow2(8);
    }
    if a < b {
      Pow2Monotone(a, b - 1);
    }
  }

  /**
   The next num bytes of the source: a prefix of the peeked fragment if it is long enough,
   otherwise gathered fragment by fragment into scratch memory. `pendingAdvance` bytes are
   still to be skipped.
   */
  method ReadBlock(reader: Source, num: nat, scratch0: array?<byte>)
    returns (fragment: seq<byte>, pendingAdvance: nat, scratch: array?<byte>)
    requires reader.Valid() && 0 < num <= |reader.bytes|
    requires scratch0 != null ==> scratch0.Length >= num
    modifies reader, scratch0
    ensures reader.Valid() && fragment == old(reader.bytes)[..num]
    ensures pendingAdvance <= |reader.bytes| && reader.bytes[pendingAdvance..] == old(reader.bytes)[num..]
    ensures scratch == scratch0 || (scratch0 == null && fresh(scratch))
    ensures scratch != null ==> scratch.Length >= num
  {
    ghost var all := reader.bytes;
    fragment := reader.Peek();
    scratch := scratch0;
    var bytesRead := |fragment|;
    if bytesRead >= num {
      pendingAdvance := num;
      fragment := fragment[..num];
      return;
    }
    if scratch == null {
      scratch := new byte[num];
    }
    CopyIn(scratch, 0, fragment, 0, bytesRead);
    assert scratch[..bytesRead] == all[..bytesRead];
    reader.Skip(bytesRead);
    Gather(reader, num, scratch, bytesRead, all);
    fragment := scratch[..num];
    pendingAdvance := 0;
  }

  lemma NextPiece(all: seq<byte>, read: nat, n: nat, piece: seq<byte>)
    requires read + n <= |all| && n <= |piece| && piece <= all[read..]
    ensures all[..read + n] == all[..read] + piece[0..n]
  {
  }

  method Gather(reader: Source, num: nat, scratch: array<byte>, alreadyRead: nat, ghost all: seq<byte>)
    requires reader.Valid() && alreadyRead <= num <= scratch.Length && num <= |all|
    requires scratch[..alreadyRead] == all[..alreadyRead] && reader.bytes == all[alreadyRead..]
    modifies reader, scratch
    ensures reader.Valid() && scratch[..num] == all[..num] && reader.bytes == all[num..]
  {
    var bytesRead := alreadyRead;
    while bytesRead < num
      invariant reader.Valid() && bytesRead <= num
      invariant scratch[..bytesRead] == all[..bytesRead] && reader.bytes == all[bytesRead..]
      decreases num - bytesRead
    {
      var next := reader.Peek();
      var n := if |next| <= num - bytesRead then |next| else num - bytesRead;
      NextPiece(all, bytesRead, n, next);
      CopyIn(scratch, bytesRead, next, 0, n);
      bytesRead := bytesRead + n;
      reader.Skip(n);
    }
  }

  /** Compress one block into the sink's own buffer. */
  method CompressBlock(hash: Hash, fragment: seq<byte>, writer: UncheckedByteArraySink, wmem: WorkingMemory)
    returns (n: nat, ghost elements: seq<Element>)
    requires IntoTable(hash)
    requires |fragment| <= BLOCK_SIZE && writer.Valid() && wmem.Valid()
    requires writer.dest + |fragment| + |fragment| / 6 + 27 <= writer.buffer.Length
    modifies writer, writer.buffer, wmem, wmem.smallTable, wmem.largeTable
    ensures writer.Valid() && wmem.Valid() && (wmem.largeTable == old(wmem.largeTable) || fresh(wmem.largeTable))
    ensures AllEncodable(elements) && ApplyAll([], elements, |fragment|) == Some(fragment)
    ensures writer.Contents() == old(writer.Contents()) + EncodeAll(elements)
    ensures writer.dest == old(writer.dest) + n && n <= |fragment| + |fragment| / 32 + 3
  {
    hide Pow2, EncodeAll, ApplyAll, AllEncodable, ShiftR;
    var table, tableSize, bits := wmem.GetHashTable(|fragment|);
    Pow2Values();
    Pow2Monotone(bits, 14);
    var log := Log2Floor(tableSize);
    Pow2Injective(bits, log);
    var shift := 32 - log;
    assert forall x: nat :: hash(x, shift) < tableSize;
    var hashOfWord := (x: nat) => hash(x, shift);
    var data, at := writer.GetAppendBuffer();
    var end;
    end, elements := CompressFragment(fragment, data, at, table, tableSize, hashOfWord);
    n := end - at;
    writer.Append(data, at, n);
  }

  lemma Pow2Injective(bits: nat, log: nat)
    requires Pow2(log) <= Pow2(bits) < Pow2(log + 1)
    ensures bits == log
  {
    Pow2Monotone(bits + 1, log);
    Pow2Monotone(log + 1, bits);
  }

  /** A header and elements that rebuild the first `done` bytes of data follow `before`. */
  ghost predicate Progress(contents: seq<byte>, before: seq<byte>, data: seq<byte>, done: nat, elements: seq<Element>)
  {
    && done <= |data| && AllEncodable(elements)
    && contents == before + (EncodeVarint(|data|) + EncodeAll(elements))
    && ApplyAll([], elements, |data|) == Some(data[..done])
  }

  lemma PrefixGrows(data: seq<byte>, from: nat, to: nat)
    requires from <= to <= |data|
    ensures data[..from] + [] == data[..from] && data[..from] + data[from..to] == data[..to]
  {
  }

  lemma NextBlockApplies(data: seq<byte>, from: nat, to: nat, all: seq<Element>, block: seq<Element>)
    requires from <= to <= |data|
    requires ApplyAll([], all, |data|) == Some(data[..from]) && ApplyAll([], block, to - from) == Some(data[from..to])
    ensures ApplyAll([], all + block, |data|) == Some(data[..to])
  {
    hide *;
    PrefixGrows(data, from, to);
    ApplyAllAppend([], all, block, |data|);
    ApplyAllWithPrefix(data[..from], [], block, to - from);
    ApplyAllGrows(data[..from], block, to, |data|);
  }

  /** Elements that rebuild the next block carry the progress forward. */
  lemma NextBlock(contents: seq<byte>, before: seq<byte>, data: seq<byte>, from: nat, to: nat,
        all: seq<Element>, block: seq<Element>)
    requires Progress(contents, before, data, from, all) && from <= to <= |data|
    requires AllEncodable(block) && ApplyAll([], block, to - from) == Some(data[from..to])
    ensures Progress(contents + EncodeAll(block), before, data, to, all + block)
  {
    hide EncodeAll, ApplyAll, AllEncodable, EncodeVarint;
    EncodeAllAppend(all, block);
    ConcatAssociative(EncodeVarint(|data|), EncodeAll(all), EncodeAll(block));
    ConcatAssociative(before, EncodeVarint(|data|) + EncodeAll(all), EncodeAll(block));
    NextBlockApplies(data, from, to, all, block);
  }

  lemma ProgressDone(contents: seq<byte>, before: seq<byte>, data: seq<byte>, elements: seq<Element>)
    requires Progress(contents, before, data, |data|, elements) && |data| < 0x1_0000_0000
    ensures contents[..|before|] == before
    ensures Uncompressed(contents[|before|..]) == FormatUncompressed(contents[|before|..]) == Some(data)
  {
    assert data[..|data|] == data;
    StreamMeansData(elements, data);
    StreamMeansByFormat(elements, data);
    hide Uncompressed, FormatUncompressed;
    assert contents[|before|..] == EncodeVarint(|data|) + EncodeAll(elements);
  }

  /** Room used after `done` bytes, all but the last block being full. */
  ghost predicate RoomUsed(used: int, done: nat, finished: bool) {
    used <= (if finished then 8 else 5) + done + done / 6
  }

  lemma RoomBeforeBlock(used: int, done: nat, num: nat, total: nat)
    requires RoomUsed(used, done, false) && done + num <= total
    ensures used + num + num / 6 + 27 <= MaxCompressedLength(total)
  {
    assert done / 6 + num / 6 <= (done + num) / 6 <= total / 6;
  }

  lemma RoomInTheEnd(used: int, total: nat)
    requires RoomUsed(used, total, true)
    ensures used <= MaxCompressedLength(total)
  {
  }

  lemma RoomAfterBlock(used: int, used': int, done: nat, num: nat, finished: bool)
    requires RoomUsed(used, done, false) && num <= BLOCK_SIZE && (num == BLOCK_SIZE || finished)
    requires used' <= used + num + num / 32 + 3
    ensures RoomUsed(used', done + num, finished)
  {
    assert done / 6 + num / 6 <= (done + num) / 6;
  }

  lemma BlockSlices(data: seq<byte>, done: nat, num: nat)
    requires done + num <= |data|
    ensures data[done..][..num] == data[done..done + num] && data[done..][num..] == data[done + num..]
  {
  }

  /** One turn of the block loop: read a block, compress it, move on in the source. */
  method CompressNext(hash: Hash, reader: Source, writer: UncheckedByteArraySink, wmem: WorkingMemory,
        scratch0: array?<byte>, num: nat, written: nat,
        ghost before: seq<byte>, ghost data: seq<byte>, ghost done: nat, ghost all: seq<Element>)
    returns (n: nat, scratch: array?<byte>, ghost extended: seq<Element>)
    requires IntoTable(hash)
    requires reader.Valid() && writer.Valid() && wmem.Valid()
    requires 0 < num <= BLOCK_SIZE && done + num <= |data| && (num == BLOCK_SIZE || done + num == |data|)
    requires reader.bytes == data[done..]
    requires scratch0 != null ==> scratch0.Length >= num && scratch0 != writer.buffer
    requires Progress(writer.Contents(), before, data, done, all) && RoomUsed(written, done, false)
    requires writer.dest - written + MaxCompressedLength(|data|) <= writer.buffer.Length
    modifies reader, writer, writer.buffer, wmem, wmem.smallTable, wmem.largeTable, scratch0
    ensures reader.Valid() && writer.Valid() && wmem.Valid()
    ensures wmem.largeTable == old(wmem.largeTable) || fresh(wmem.largeTable)
    ensures scratch == scratch0 || (scratch0 == null && fresh(scratch))
    ensures scratch != null ==> scratch.Length >= num
    ensures reader.bytes == data[done + num..] && writer.dest == old(writer.dest) + n
    ensures Progress(writer.Contents(), before, data, done + num, extended)
    ensures RoomUsed(written + n, done + num, done + num == |data|)
  {
    hide *;
    ghost var contents := writer.Contents();
    BlockSlices(data, done, num);
    RoomBeforeBlock(written, done, num, |data|);
    var fragment, pendingAdvance;
    fragment, pendingAdvance, scratch := ReadBlock(reader, num, scratch0);
    assert writer.Contents() == contents;
    ghost var block;
    n, block := CompressBlock(hash, fragment, writer, wmem);
    NextBlock(contents, before, data, done, done + num, all, block);
    RoomAfterBlock(written, written + n, done, num, done + num == |data|);
    extended := all + block;
    reader.Skip(pendingAdvance);
  }

  /** The varint length in front of the blocks. */
  method AppendLength(writer: UncheckedByteArraySink, ghost data: seq<byte>, N: nat) returns (p: nat)
    requires writer.Valid() && N == |data| < 0x1_0000_0000
    requires writer.dest + 5 <= writer.buffer.Length
    modifies writer, writer.buffer
    ensures writer.Valid() && writer.dest == old(writer.dest) + p
    ensures Progress(writer.Contents(), old(writer.Contents()), data, 0, [])
    ensures RoomUsed(p, 0, N == 0)
  {
    var ulength := new byte[5];
    p := Encode32(ulength, N);
    writer.Append(ulength, 0, p);
    assert data[..0] == [];
    assert EncodeVarint(|data|) + [] == EncodeVarint(|data|);
  }

  /** The block loop. */
  method CompressBlocks(hash: Hash, reader: Source, writer: UncheckedByteArraySink, wmem: WorkingMemory,
        header: nat, total: nat, ghost before: seq<byte>, ghost data: seq<byte>)
    returns (written: nat, ghost all: seq<Element>)
    requires IntoTable(hash)
    requires reader.Valid() && writer.Valid() && wmem.Valid() && wmem.largeTable == null
    requires reader.bytes == data && total == |data|
    requires Progress(writer.Contents(), before, data, 0, []) && RoomUsed(header, 0, total == 0)
    requires writer.dest - header + MaxCompressedLength(|data|) <= writer.buffer.Length
    modifies reader, writer, writer.buffer, wmem, wmem.smallTable
    ensures reader.Valid() && writer.Valid() && reader.bytes == []
    ensures writer.dest == old(writer.dest) - header + written && RoomUsed(written, total, true)
    ensures Progress(writer.Contents(), before, data, total, all)
  {
    hide Progress, RoomUsed, IntoTable;
    assert data[0..] == data;
    written, all := header, [];
    var N: nat, scratch: array?<byte> := total, null;
    while N > 0
      invariant 0 <= N <= total
      invariant reader.Valid() && reader.bytes == data[total - N..]
      invariant writer.Valid() && writer.dest == old(writer.dest) - header + written
      invariant wmem.Valid() && (wmem.largeTable != null ==> fresh(wmem.largeTable))
      invariant scratch != null ==> fresh(scratch) && (scratch.Length >= N || scratch.Length >= BLOCK_SIZE)
      invariant Progress(writer.Contents(), before, data, total - N, all)
      invariant RoomUsed(written, total - N, N == 0)
    {
      var num := if N <= BLOCK_SIZE then N else BLOCK_SIZE;
      var n;
      n, scratch, all := CompressNext(hash, reader, writer, wmem, scratch, num, written, before, data, total - N, all);
      written := written + n;
      N := N - num;
    }
  }

  /**
   Compress everything the source holds: a varint length, then block after block. What is
   appended uncompresses to the source's bytes, as the format has it, and is at most
   MaxCompressedLength long.
   */
  method Compress(hash: Hash, reader: Source, writer: UncheckedByteArraySink) returns (written: nat)
    requires IntoTable(hash)
    requires reader.Valid() && writer.Valid() && |reader.bytes| < 0x1_0000_0000
    requires writer.dest + MaxCompressedLength(|reader.bytes|) <= writer.buffer.Length
    modifies reader, writer, writer.buffer
    ensures reader.Valid() && writer.Valid() && reader.bytes == []
    ensures writer.dest == old(writer.dest) + written && written <= MaxCompressedLength(|old(reader.bytes)|)
    ensures writer.Contents()[..old(writer.dest)] == old(writer.Contents())
    ensures Uncompressed(writer.Contents()[old(writer.dest)..]) == Some(old(reader.bytes))
    ensures FormatUncompressed(writer.Contents()[old(writer.dest)..]) == Some(old(reader.bytes))
  {
    ghost var data, before := reader.bytes, writer.Contents();
    hide Progress, RoomUsed, Uncompressed, FormatUncompressed, IntoTable;
    var N: nat := reader.Available();
    var p := AppendLength(writer, data, N);
    var wmem := new WorkingMemory();
    ghost var all;
    written, all := CompressBlocks(hash, reader, writer, wmem, p, N, before, data);
    ProgressDone(writer.Contents(), before, data, all);
    RoomInTheEnd(written, N);
  }
}
