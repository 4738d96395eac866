/**
 `CompressFragment`: the hash-table match finder of snappy.cc. The hash is any function into
 the table; the table holds candidate positions and is overwritten as the scan advances.
 */
module SnappyFragment {
  import opened Bytes
  import opened SnappyCopy
  import opened SnappyFormat
  import opened SnappyEmit
  import opened SnappyMatch

  const INPUT_MARGIN_BYTES := 15

  lemma BlockSizeValue()
    ensures BLOCK_SIZE == 0x1_0000
  {
  }

  /** The elements are encodable and rebuild exactly the first `upto` bytes of the input. */
  ghost predicate Tiles(elements: seq<Element>, input: seq<byte>, upto: nat)
  {
    && upto <= |input|
    && AllEncodable(elements)
    && ApplyAll([], elements, |input|) == Some(input[..upto])
  }

  /** The output holds `before` and then the code of the elements. */
  ghost predicate Written(out: array<byte>, op: nat, before: seq<byte>, elements: seq<Element>)
    reads out
  {
    op <= out.Length && AllEncodable(elements) && out[..op] == before + EncodeAll(elements)
  }

  /** Every entry of the table is a position before `bound`. */
  ghost predicate TableBelow(table: array<uint16>, tableSize: nat, bound: nat)
    reads table
  {
    tableSize <= table.Length && forall i :: 0 <= i < tableSize ==> table[i] < bound
  }

  lemma TileLiteral(elements: seq<Element>, input: seq<byte>, from: nat, to: nat)
    requires Tiles(elements, input, from) && from < to <= |input| && to - from <= BLOCK_SIZE
    ensures Tiles(elements + [Literal(input[from..to])], input, to)
  {
    hide *;
    BlockSizeValue();
    TilesFacts(elements, input, from);
    var e := Literal(input[from..to]);
    LiteralFits(input[..from], input[from..to], |input|);
    EncodeSnoc(elements, e);
    ApplyAllAppend([], elements, [e], |input|);
    ApplyOne(input[..from], e, |input|);
    assert input[..from] + input[from..to] == input[..to];
    TilesIs(elements + [e], input, to);
  }

  lemma LiteralFits(out: seq<byte>, data: seq<byte>, limit: nat)
    requires 0 < |data| <= 0x1_0000 && |out| + |data| <= limit
    ensures var e := Literal(data); Encodable(e) && Applies(out, e, limit) && Apply(out, e) == out + data
  {
  }

  lemma TileCopy(elements: seq<Element>, input: seq<byte>, at: nat, candidate: nat, matched: nat)
    requires Tiles(elements, input, at) && candidate < at < candidate + BLOCK_SIZE
    requires matched >= 4 && at + matched <= |input|
    requires input[candidate..candidate + matched] == input[at..at + matched]
    ensures Tiles(elements + SplitCopy(at - candidate, matched), input, at + matched)
  {
    hide *;
    BlockSizeValue();
    var pieces := SplitCopy(at - candidate, matched);
    TilesFacts(elements, input, at);
    SplitCopySize(at - candidate, matched);
    AllEncodableAppend(elements, pieces);
    ApplyAllAppend([], elements, pieces, |input|);
    SplitCopyIsCopy(input[..at], at - candidate, matched, |input|);
    CopyReproduces(input, at, at - candidate, matched);
    TilesIs(elements + pieces, input, at + matched);
  }

  lemma TilesFacts(elements: seq<Element>, input: seq<byte>, upto: nat)
    requires Tiles(elements, input, upto)
    ensures upto <= |input| && AllEncodable(elements) && ApplyAll([], elements, |input|) == Some(input[..upto])
  {
  }

  lemma TilesIs(elements: seq<Element>, input: seq<byte>, upto: nat)
    requires upto <= |input| && AllEncodable(elements) && ApplyAll([], elements, |input|) == Some(input[..upto])
    ensures Tiles(elements, input, upto)
  {
  }

  /** GetUint32AtOffset on 64-bit machines: a 32-bit word out of a loaded 64-bit one. */
  function GetUint32AtOffset(v: nat, offset: nat): nat {
    LowBits(ShiftR(v, 8 * offset), 32)
  }

  lemma Uint32AtOffset(mem: seq<byte>, p: nat, offset: nat)
    requires p + 8 <= |mem| && offset <= 4
    ensures GetUint32AtOffset(Load(mem, p, 8), offset) == Load(mem, p + offset, 4)
  {
    var s := mem[p..p + 8];
    LittleEndianSplit(s, offset);
    LittleEndianSplit(s[offset..], 4);
    assert s[offset..][..4] == mem[p + offset..p + offset + 4];
  }

  lemma SameWord(mem: seq<byte>, p: nat, q: nat)
    requires p + 4 <= |mem| && q + 4 <= |mem|
    ensures Load(mem, p, 4) == Load(mem, q, 4) <==> mem[p..p + 4] == mem[q..q + 4]
  {
    LittleEndianInjective(mem[p..p + 4], mem[q..q + 4]);
  }

  /** From `from` on, the input repeats what is `offset` bytes before. */
  ghost predicate Periodic(input: seq<byte>, from: nat, offset: nat) {
    1 <= offset <= from && forall k :: from <= k < |input| ==> input[k] == input[k - offset]
  }

  /** The bytes at p agree with the candidate that the table has for them. */
  ghost predicate AgreesAt(input: seq<byte>, p: nat, c: nat) {
    p + 4 <= |input| && c + 4 <= |input| && input[c..c + 4] == input[p..p + 4]
  }

  /** Step 1: scan for a four-byte match, skipping ahead faster the longer none is found. */
  method FindCandidate(input: seq<byte>, start: nat, startHash: nat, table: array<uint16>,
        ghost tableSize: nat, hash: nat -> nat)
    returns (found: bool, ip: nat, candidate: nat)
    requires INPUT_MARGIN_BYTES <= |input| <= BLOCK_SIZE && 1 <= start <= |input| - INPUT_MARGIN_BYTES + 1
    requires forall x: nat :: hash(x) < tableSize
    requires startHash == hash(Load(input, start, 4))
    requires TableBelow(table, tableSize, start)
    modifies table
    ensures found ==>
      && start <= ip < |input| - INPUT_MARGIN_BYTES && candidate < ip
      && input[candidate..candidate + 4] == input[ip..ip + 4]
      && TableBelow(table, tableSize, ip + 1)
    ensures start < |input| - INPUT_MARGIN_BYTES && AgreesAt(input, start, old(table[startHash])) ==>
      found && ip == start && candidate == old(table[startHash])
  {
    hide Load;
    var ipLimit := |input| - INPUT_MARGIN_BYTES;
    var skip: uint32 := 32;
    var nextIp: nat, nextHash: nat := start, startHash;
    ghost var first := start < ipLimit && AgreesAt(input, start, table[startHash]);
    while true
      invariant start <= nextIp <= ipLimit + 1 && nextIp - start == skip - 32 && skip >= 32
      invariant nextHash == hash(Load(input, nextIp, 4))
      invariant TableBelow(table, tableSize, nextIp)
      invariant if nextIp == start then nextHash == startHash && table[startHash] == old(table[startHash]) else !first
      decreases ipLimit - nextIp
    {
      ip := nextIp;
      var h := nextHash;
      var bytesBetweenHashLookups := skip / 32;
      skip := skip + bytesBetweenHashLookups;
      nextIp := ip + bytesBetweenHashLookups;
      if nextIp > ipLimit {
        return false, ip, 0;
      }
      nextHash := hash(Load(input, nextIp, 4));
      candidate := table[h];
      table[h] := ip;
      SameWord(input, ip, candidate);
      if Load(input, ip, 4) == Load(input, candidate, 4) {
        return true, ip, candidate;
      }
    }
  }

  lemma LiteralWritten(out: array<byte>, start: nat, before: seq<byte>, elements: seq<Element>, e: Element)
    requires Written(out, start, before, elements) && e.Literal? && 1 <= |e.data| <= BLOCK_SIZE
    ensures Encodable(e) && AllEncodable(elements + [e])
    ensures out[..start] + EncodeElement(e) == before + EncodeAll(elements + [e])
  {
    hide EncodeAll, EncodeElement, AllEncodable;
    EncodeSnoc(elements, e);
    ConcatAssociative(before, EncodeAll(elements), EncodeElement(e));
  }

  lemma PiecesWritten(out: array<byte>, start: nat, before: seq<byte>,
        elements: seq<Element>, pieces: seq<Element>)
    requires Written(out, start, before, elements) && AllEncodable(pieces)
    ensures AllEncodable(elements + pieces)
    ensures out[..start] + EncodeAll(pieces) == before + EncodeAll(elements + pieces)
  {
    hide EncodeAll, AllEncodable;
    EncodeAllAppend(elements, pieces);
    ConcatAssociative(before, EncodeAll(elements), EncodeAll(pieces));
  }

  lemma WrittenIs(out: array<byte>, op: nat, before: seq<byte>, elements: seq<Element>)
    requires op <= out.Length && AllEncodable(elements) && out[..op] == before + EncodeAll(elements)
    ensures Written(out, op, before, elements)
  {
  }

  /** Emit bytes [from, to) as a literal. */
  method EmitTileLiteral(input: seq<byte>, from: nat, to: nat, out: array<byte>, start: nat, allowFastPath: bool,
        ghost before: seq<byte>, ghost elements: seq<Element>)
    returns (op: nat, ghost extended: seq<Element>)
    requires from < to <= |input| <= BLOCK_SIZE
    requires Tiles(elements, input, from) && Written(out, start, before, elements)
    requires start + (to - from) + 3 <= out.Length
    requires allowFastPath ==> from + 16 <= |input| && start + 17 <= out.Length
    modifies out
    ensures Tiles(extended, input, to) && Written(out, op, before, extended)
    ensures extended == elements + [Literal(input[from..to])]
    ensures op - start == (to - from) + (if to - from <= 60 then 1 else if to - from <= 256 then 2 else 3)
  {
    hide *;
    BlockSizeValue();
    var e := Literal(input[from..to]);
    LiteralSize(input[from..to]);
    extended := elements + [e];
    ghost var was := out[..start];
    TileLiteral(elements, input, from, to);
    LiteralWritten(out, start, before, elements, e);
    op := EmitLiteral(out, start, input, from, to - from, allowFastPath);
    WrittenIs(out, op, before, extended);
  }

  /** Emit `matched` bytes at `at` as copies of what starts at `candidate`. */
  method EmitTileCopy(input: seq<byte>, at: nat, candidate: nat, matched: nat, lessThan12: bool,
        out: array<byte>, start: nat, ghost before: seq<byte>, ghost elements: seq<Element>)
    returns (op: nat, ghost extended: seq<Element>)
    requires candidate < at && matched >= 4 && at + matched <= |input| <= BLOCK_SIZE && (lessThan12 <==> matched < 12)
    requires input[candidate..candidate + matched] == input[at..at + matched]
    requires Tiles(elements, input, at) && Written(out, start, before, elements)
    requires start + matched <= out.Length
    modifies out
    ensures Tiles(extended, input, at + matched) && Written(out, op, before, extended)
    ensures extended == elements + SplitCopy(at - candidate, matched)
    ensures start <= op < start + matched
  {
    hide *;
    BlockSizeValue();
    var pieces := SplitCopy(at - candidate, matched);
    TileCopy(elements, input, at, candidate, matched);
    SplitCopySize(at - candidate, matched);
    PiecesWritten(out, start, before, elements, pieces);
    extended := elements + pieces;
    op := EmitCopy(out, start, at - candidate, matched, lessThan12);
    WrittenIs(out, op, before, extended);
  }

  /** Emitted bytes exceed the input covered by at most 1/32 of it, plus `slack`/32. */
  ghost predicate WithinBudget(op: nat, start: nat, covered: nat, slack: nat) {
    32 * (op - start) <= 33 * covered + slack
  }

  /** The whole length of a match whose first four bytes are known to agree. */
  method MatchLength(input: seq<byte>, at: nat, candidate: nat) returns (matched: nat, lessThan12: bool)
    requires candidate < at && at + 4 <= |input|
    requires input[candidate..candidate + 4] == input[at..at + 4]
    ensures matched >= 4 && at + matched <= |input| && (lessThan12 <==> matched < 12)
    ensures input[candidate..candidate + matched] == input[at..at + matched]
    ensures Periodic(input, at, at - candidate) ==> at + matched == |input|
  {
    var n, lessThan8 := FindMatchLength(input, candidate + 4, at + 4, |input|);
    ExtendMatch(input, candidate, at, 4, n);
    return 4 + n, lessThan8;
  }

  /**
   Record the two positions up to ip and look for another match right at ip; if there is
   none, hash the position after ip.
   */
  method Rehash(input: seq<byte>, ip: nat, table: array<uint16>, ghost tableSize: nat, hash: nat -> nat)
    returns (candidate: nat, again: bool, nextHash: nat)
    requires 1 <= ip && ip + 7 <= |input| <= BLOCK_SIZE
    requires forall x: nat :: hash(x) < tableSize
    requires TableBelow(table, tableSize, ip)
    modifies table
    ensures candidate < ip && TableBelow(table, tableSize, ip + 1)
    ensures again <==> input[candidate..candidate + 4] == input[ip..ip + 4]
    ensures !again ==> nextHash == hash(Load(input, ip + 1, 4))
  {
    var inputBytes := Load(input, ip - 1, 8);
    Uint32AtOffset(input, ip - 1, 1);
    Uint32AtOffset(input, ip - 1, 2);
    hide Load, GetUint32AtOffset, LittleEndian;
    var prevHash := hash(GetUint32AtOffset(inputBytes, 0));
    table[prevHash] := ip - 1;
    var curHash := hash(GetUint32AtOffset(inputBytes, 1));
    candidate := table[curHash];
    var candidateBytes := Load(input, candidate, 4);
    table[curHash] := ip;
    again := GetUint32AtOffset(inputBytes, 1) == candidateBytes;
    nextHash := if again then 0 else hash(GetUint32AtOffset(inputBytes, 2));
    SameWord(input, candidate, ip);
  }

  /**
   Step 3: a four-byte match is at ip. Emit copies for as long as the input right after a
   copy matches again. `nextHash` is only meaningful when there is more input to scan.
   */
  method EmitMatches(input: seq<byte>, at: nat, firstCandidate: nat, out: array<byte>, start: nat,
        table: array<uint16>, ghost tableSize: nat, hash: nat -> nat,
        ghost begin: nat, ghost before: seq<byte>, ghost elements: seq<Element>)
    returns (op: nat, nextEmit: nat, more: bool, nextHash: nat, ghost extended: seq<Element>)
    requires INPUT_MARGIN_BYTES <= |input| <= BLOCK_SIZE && firstCandidate < at < |input| - INPUT_MARGIN_BYTES
    requires forall x: nat :: hash(x) < tableSize
    requires input[firstCandidate..firstCandidate + 4] == input[at..at + 4]
    requires TableBelow(table, tableSize, at + 1)
    requires Tiles(elements, input, at) && Written(out, start, before, elements)
    requires begin <= start && WithinBudget(start, begin, at, 32)
    requires begin + |input| + |input| / 6 + 27 <= out.Length
    modifies out, table
    ensures at < nextEmit <= |input| && Tiles(extended, input, nextEmit) && Written(out, op, before, extended)
    ensures begin <= op && WithinBudget(op, begin, nextEmit, 0)
    ensures Periodic(input, at, at - firstCandidate) ==>
      !more && nextEmit == |input| && extended == elements + SplitCopy(at - firstCandidate, |input| - at)
    ensures more ==>
      && nextEmit < |input| - INPUT_MARGIN_BYTES
      && nextHash == hash(Load(input, nextEmit + 1, 4))
      && TableBelow(table, tableSize, nextEmit + 1)
  {
    hide Load, Tiles, Written, TableBelow, Periodic, SplitCopy;
    op, extended, nextHash := start, elements, 0;
    var ip: nat, candidate: nat := at, firstCandidate;
    while true
      invariant at <= ip < |input| - INPUT_MARGIN_BYTES && candidate < ip
      invariant input[candidate..candidate + 4] == input[ip..ip + 4]
      invariant TableBelow(table, tableSize, ip + 1)
      invariant Tiles(extended, input, ip) && Written(out, op, before, extended)
      invariant begin <= op && WithinBudget(op, begin, ip, 32)
      invariant Periodic(input, at, at - firstCandidate) ==>
        ip == at && candidate == firstCandidate && extended == elements
      decreases |input| - ip
    {
      var matched, lessThan12 := MatchLength(input, ip, candidate);
      op, extended := EmitTileCopy(input, ip, candidate, matched, lessThan12, out, op, before, extended);
      TableStaysBelow(table, tableSize, ip + 1, ip + matched);
      ip := ip + matched;
      nextEmit := ip;
      if ip >= |input| - INPUT_MARGIN_BYTES {
        more := false;
        return;
      }
      var again;
      candidate, again, nextHash := Rehash(input, ip, table, tableSize, hash);
      if !again {
        more := true;
        return;
      }
    }
  }

  lemma TableStaysBelow(table: array<uint16>, tableSize: nat, bound: nat, larger: nat)
    requires TableBelow(table, tableSize, bound) && bound <= larger
    ensures TableBelow(table, tableSize, larger)
  {
  }

  /** A run of one byte, long enough to be searched. */
  ghost predicate IsRun(input: seq<byte>) {
    |input| > INPUT_MARGIN_BYTES + 1 && forall k :: 0 <= k < |input| ==> input[k] == input[0]
  }

  /** The byte itself, and then a copy of it. */
  ghost function RunElements(input: seq<byte>): seq<Element>
    requires |input| > 4
  {
    [Literal(input[0..1])] + SplitCopy(1, |input| - 1)
  }

  lemma RunFacts(input: seq<byte>, table: array<uint16>, tableSize: nat, h: nat)
    requires IsRun(input) && TableBelow(table, tableSize, 1) && h < tableSize
    ensures |input| > INPUT_MARGIN_BYTES + 1 && |input| > 4 && h < table.Length && table[h] == 0
    ensures AgreesAt(input, 1, 0) && Periodic(input, 1, 1)
  {
  }

  /** A copy takes three bytes for every 64 that it covers. */
  lemma {:induction false} CopyBytes(offset: nat, len: nat)
    requires 1 <= offset < 0x1_0000 && len >= 4
    ensures AllEncodable(SplitCopy(offset, len)) && |EncodeAll(SplitCopy(offset, len))| <= 3 * ((len + 63) / 64)
    decreases len
  {
    hide *;
    SplitCopySize(offset, len);
    SplitCopyIs(offset, len);
    var first := if len >= 68 then 64 else if len > 64 then 60 else len;
    PieceSize(offset, first);
    EncodeOne(Copy(offset, first));
    if len >= 68 {
      CopyBytes(offset, len - 64);
      EncodeAllAppend([Copy(offset, 64)], SplitCopy(offset, len - 64));
    } else if len > 64 {
      PieceSize(offset, len - 60);
      EncodeOne(Copy(offset, len - 60));
      EncodeAllAppend([Copy(offset, 60)], [Copy(offset, len - 60)]);
    }
  }

  /** A run of up to 64 KB takes about 3/64 of its size. */
  lemma RunBytes(input: seq<byte>)
    requires IsRun(input) && |input| > 4
    ensures AllEncodable(RunElements(input))
    ensures |EncodeAll(RunElements(input))| <= 2 + 3 * ((|input| + 62) / 64)
  {
    var data, n := input[0..1], |input| - 1;
    LiteralSize(data);
    assert Encodable(Literal(data));
    hide *;
    RunElementsAre(input);
    EncodeOne(Literal(data));
    CopyBytes(1, n);
    EncodeAllAppend([Literal(data)], SplitCopy(1, n));
  }

  lemma RunElementsAre(input: seq<byte>)
    requires |input| > 4
    ensures RunElements(input) == [Literal(input[0..1])] + SplitCopy(1, |input| - 1)
  {
    hide SplitCopy;
  }

  /** The main loop: alternate scanning and copying until the input is nearly exhausted. */
  method CompressLoop(input: seq<byte>, out: array<byte>, start: nat,
        table: array<uint16>, ghost tableSize: nat, hash: nat -> nat, ghost before: seq<byte>)
    returns (op: nat, nextEmit: nat, ghost elements: seq<Element>)
    requires INPUT_MARGIN_BYTES <= |input| <= BLOCK_SIZE
    requires forall x: nat :: hash(x) < tableSize
    requires TableBelow(table, tableSize, 1)
    requires Tiles([], input, 0) && Written(out, start, before, [])
    requires start + |input| + |input| / 6 + 27 <= out.Length
    modifies out, table
    ensures nextEmit <= |input| && Tiles(elements, input, nextEmit) && Written(out, op, before, elements)
    ensures start <= op && WithinBudget(op, start, nextEmit, 0)
    ensures IsRun(input) ==> nextEmit == |input| > 4 && elements == RunElements(input)
  {
    hide Tiles, Written, Load, TableBelow, Periodic, AgreesAt, SplitCopy, IsRun;
    op, nextEmit, elements := start, 0, [];
    if IsRun(input) {
      RunFacts(input, table, tableSize, hash(Load(input, 1, 4)));
    }
    var ip: nat, nextHash: nat, more := 1, hash(Load(input, 1, 4)), true;
    while more
      invariant nextEmit < ip && nextEmit <= |input|
      invariant more ==>
        && ip == nextEmit + 1 <= |input| - INPUT_MARGIN_BYTES + 1
        && nextHash == hash(Load(input, ip, 4)) && TableBelow(table, tableSize, ip)
      invariant Tiles(elements, input, nextEmit) && Written(out, op, before, elements)
      invariant start <= op && WithinBudget(op, start, nextEmit, 0)
      invariant IsRun(input) && more ==> ip == 1 && elements == [] && table[..] == old(table[..])
      invariant IsRun(input) && !more ==> nextEmit == |input| > 4 && elements == RunElements(input)
      decreases more, |input| - nextEmit
    {
      var found, at, candidate := FindCandidate(input, ip, nextHash, table, tableSize, hash);
      if !found {
        return;
      }
      op, elements := EmitTileLiteral(input, nextEmit, at, out, op, true, before, elements);
      op, nextEmit, more, nextHash, elements :=
        EmitMatches(input, at, candidate, out, op, table, tableSize, hash, start, before, elements);
      ip := nextEmit + 1;
    }
  }

  /**
   Compress one block of at most 64 KB to out[start..]. The emitted elements rebuild the
   block; the code is at most |input|/32 + 3 bytes longer than the block, and no store goes
   past the stated room.
   */
  method CompressFragment(input: seq<byte>, out: array<byte>, start: nat,
        table: array<uint16>, ghost tableSize: nat, hash: nat -> nat)
    returns (op: nat, ghost elements: seq<Element>)
    requires |input| <= BLOCK_SIZE
    requires forall x: nat :: hash(x) < tableSize
    requires tableSize <= table.Length && forall i :: 0 <= i < tableSize ==> table[i] == 0
    requires start + |input| + |input| / 6 + 27 <= out.Length
    modifies out, table
    ensures AllEncodable(elements) && ApplyAll([], elements, |input|) == Some(input)
    ensures op <= start + |input| + |input| / 32 + 3 && op <= out.Length
    ensures out[..op] == old(out[..start]) + EncodeAll(elements)
    ensures IsRun(input) ==> op <= start + 2 + 3 * ((|input| + 62) / 64)
  {
    ghost var before := out[..start];
    hide IsRun, RunElements;
    var nextEmit: nat := 0;
    op, elements := start, [];
    assert Tiles(elements, input, 0);
    assert Written(out, op, before, elements);
    if |input| >= INPUT_MARGIN_BYTES {
      op, nextEmit, elements := CompressLoop(input, out, start, table, tableSize, hash, before);
    }
    if nextEmit < |input| {
      op, elements := EmitTileLiteral(input, nextEmit, |input|, out, op, false, before, elements);
    }
    assert input[..|input|] == input;
    if IsRun(input) {
      RunBytes(input);
    }
  }
}
