/**
 The two simplest decompression targets of snappy.cc: a flat array, and a validator that only
 counts. Every writer has the same contract over its `Contents()`: appending succeeds exactly
 when the element `Applies` within the expected length, and then has the effect of `Apply`.
 */
module SnappyArrayWriter {
  import opened Bytes
  import opened SnappyCopy
  import opened SnappyFormat
  import opened SnappyEmit

  const MAXIMUM_TAG_LENGTH := 5

  /** UnalignedCopy128(mem + ip, buf + op), of which only the first len bytes are wanted. */
  method UnalignedCopy128(mem: seq<byte>, ip: nat, buf: array<byte>, op: nat, ghost len: nat)
    requires ip + 16 <= |mem| && op + 16 <= buf.Length && len <= 16
    modifies buf
    ensures buf[..op + len] == old(buf[..op]) + mem[ip..ip + len]
    ensures buf[op + 16..] == old(buf[op + 16..])
  {
    forall k | op <= k < op + 16 {
      buf[k] := mem[ip + (k - op)];
    }
  }

  const SIZE_MAX := 0xFFFF_FFFF_FFFF_FFFF

  /** offset - 1u in a 64-bit size_t: zero wraps round to the largest value. */
  function OffsetMinusOne(offset: nat): nat {
    if offset == 0 then SIZE_MAX else offset - 1
  }

  class SnappyArrayWriter {
    const buffer: array<byte>
    var op: nat
    var opLimit: nat

    ghost predicate Valid()
      reads this
    {
      op <= opLimit <= buffer.Length <= SIZE_MAX
    }

    ghost function Repr(): set<object> {
      {this, buffer}
    }

    ghost function Contents(): seq<byte>
      requires Valid()
      reads this, buffer
    {
      buffer[..op]
    }

    ghost function Limit(): nat
      reads this
    {
      opLimit
    }

    constructor (dst: array<byte>)
      requires dst.Length <= SIZE_MAX
      ensures buffer == dst && Valid() && Contents() == [] && Limit() == 0
    {
      buffer, op, opLimit := dst, 0, 0;
    }

    method SetExpectedLength(len: nat)
      requires Valid() && op + len <= buffer.Length
      modifies this
      ensures Valid() && op == old(op) && Limit() == op + len
    {
      opLimit := op + len;
    }

    method CheckLength() returns (ok: bool)
      requires Valid()
      ensures ok <==> |Contents()| == Limit()
    {
      return op == opLimit;
    }

    method Append(bytes: seq<byte>) returns (ok: bool)
      requires Valid()
      modifies this, buffer
      ensures ok <==> Applies(old(Contents()), Literal(bytes), Limit())
      ensures Valid() && Limit() == old(Limit())
      ensures ok ==> Contents() == Apply(old(Contents()), Literal(bytes))
    {
      var spaceLeft := opLimit - op;
      if spaceLeft < |bytes| {
        return false;
      }
      CopyIn(buffer, op, bytes, 0, |bytes|);
      op := op + |bytes|;
      return true;
    }

    /** May decline; when it does not, five bytes of input are left after the literal. */
    method TryFastAppend(mem: seq<byte>, ip: nat, available: nat, len: nat) returns (taken: bool)
      requires Valid() && ip + available <= |mem|
      modifies this, buffer
      ensures taken ==> len + MAXIMUM_TAG_LENGTH <= available && len <= 16
      ensures taken ==> Applies(old(Contents()), Literal(mem[ip..ip + len]), Limit())
      ensures Valid() && Limit() == old(Limit())
      ensures Contents() == if taken then Apply(old(Contents()), Literal(mem[ip..ip + len])) else old(Contents())
    {
      var spaceLeft := opLimit - op;
      if len <= 16 && available >= 16 + MAXIMUM_TAG_LENGTH && spaceLeft >= 16 {
        UnalignedCopy128(mem, ip, buffer, op, len);
        op := op + len;
        return true;
      }
      return false;
    }

    method AppendFromSelf(offset: nat, len: nat) returns (ok: bool)
      requires Valid()
      modifies this, buffer
      ensures ok <==> Applies(old(Contents()), Copy(offset, len), Limit())
      ensures Valid() && Limit() == old(Limit())
      ensures ok ==> Contents() == Apply(old(Contents()), Copy(offset, len))
    {
      var opEnd := op + len;
      if op <= OffsetMinusOne(offset) || opEnd > opLimit {
        return false;
      }
      IncrementalCopy(buffer, op - offset, op, opEnd, opLimit);
      op := opEnd;
      return true;
    }
  }

  /** Writes nothing; `contents` is what a storing writer would hold. */
  class SnappyDecompressionValidator {
    var expected: nat
    var produced: nat
    ghost var contents: seq<byte>

    ghost predicate Valid()
      reads this
    {
      produced == |contents| <= expected < SIZE_MAX
    }

    constructor ()
      ensures Valid() && contents == [] && expected == 0
    {
      expected, produced, contents := 0, 0, [];
    }

    method SetExpectedLength(len: nat)
      requires Valid() && contents == [] && len < SIZE_MAX
      modifies this
      ensures Valid() && contents == [] && expected == len
    {
      expected := len;
    }

    method CheckLength() returns (ok: bool)
      requires Valid()
      ensures ok <==> |contents| == expected
    {
      return expected == produced;
    }

    method Append(bytes: seq<byte>) returns (ok: bool)
      requires Valid()
      modifies this
      ensures ok <==> Applies(old(contents), Literal(bytes), expected)
      ensures expected == old(expected)
      ensures ok ==> Valid() && contents == Apply(old(contents), Literal(bytes))
    {
      produced := produced + |bytes|;
      contents := contents + bytes;
      return produced <= expected;
    }

    method AppendFromSelf(offset: nat, len: nat) returns (ok: bool)
      requires Valid()
      modifies this
      ensures ok <==> Applies(old(contents), Copy(offset, len), expected)
      ensures expected == old(expected)
      ensures ok ==> Valid() && contents == Apply(old(contents), Copy(offset, len))
    {
      if produced <= OffsetMinusOne(offset) {
        return false;
      }
      produced := produced + len;
      contents := CopyFromSelf(contents, offset, len);
      return produced <= expected;
    }
  }
}
