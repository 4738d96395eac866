/**
 `SnappyIOVecWriter`: output spread over caller-supplied buffers of any sizes, zero included.
 A copy first walks backwards to the buffer that holds its source.
 */
module SnappyIOVecWriter {
  import opened Bytes
  import opened SnappyCopy
  import opened SnappyFormat
  import opened SnappyEmit
  import opened SnappyArrayWriter

  /** The contents of the first n buffers, one after the other. */
  ghost function Joined(iovs: seq<array<byte>>, n: nat): seq<byte>
    requires n <= |iovs|
    reads iovs
  {
    if n == 0 then [] else Joined(iovs, n - 1) + iovs[n - 1][..]
  }

  ghost function Room(iovs: seq<array<byte>>, n: nat): nat
    requires n <= |iovs|
  {
    if n == 0 then 0 else Room(iovs, n - 1) + iovs[n - 1].Length
  }

  lemma {:induction false} JoinedSize(iovs: seq<array<byte>>, n: nat)
    requires n <= |iovs|
    ensures |Joined(iovs, n)| == Room(iovs, n)
    decreases n
  {
    if n > 0 {
      JoinedSize(iovs, n - 1);
    }
  }

  lemma {:induction false} JoinedGrows(iovs: seq<array<byte>>, m: nat, n: nat)
    requires m <= n <= |iovs|
    ensures Joined(iovs, m) <= Joined(iovs, n)
    decreases n
  {
    if m < n {
      JoinedGrows(iovs, m, n - 1);
    }
  }

  lemma {:induction false} RoomGrows(iovs: seq<array<byte>>, m: nat, n: nat)
    requires m <= n <= |iovs|
    ensures Room(iovs, m) <= Room(iovs, n)
    decreases n
  {
    if m < n {
      RoomGrows(iovs, m, n - 1);
    }
  }

  lemma CopyAppends(out: seq<byte>, offset: nat, n: nat)
    requires 1 <= offset <= |out|
    ensures CopyFromSelf(out, offset, n) == out + CopyFromSelf(out, offset, n)[|out|..]
  {
    CopyRepeats(out, offset, n);
  }

  /** What the decoder asks of a writer. */
  datatype Append =
    | OfLiteral(bytes: seq<byte>)
    | OfShortLiteral(mem: seq<byte>, ip: nat, len: nat)
    | OfCopy(offset: nat, length: nat)

  class SnappyIOVecWriter {
    const iovs: seq<array<byte>>
    /** The current buffer, the next free byte in it, and how many are free from there. */
    var curr: nat
    var currOutput: nat
    var currRemaining: nat
    var totalWritten: nat
    var outputLimit: nat

    ghost function Repr(): set<object> {
      {this} + (set i | 0 <= i < |iovs| :: iovs[i])
    }

    /** All full buffers before the current one, then the used part of the current one. */
    ghost predicate Valid()
      reads this, iovs
    {
      && (forall i, j :: 0 <= i < j < |iovs| ==> iovs[i] != iovs[j])
      && totalWritten <= outputLimit < SIZE_MAX
      && if iovs == [] then curr == currOutput == currRemaining == totalWritten == 0
         else
           && curr < |iovs| && currOutput + currRemaining == iovs[curr].Length
           && totalWritten == Room(iovs, curr) + currOutput
    }

    /** There is room for all the output that is expected. */
    ghost predicate Roomy()
      reads this
    {
      outputLimit <= Room(iovs, |iovs|)
    }

    /** Every buffer is full. */
    ghost predicate Full()
      reads this
    {
      currRemaining == 0 && curr + 1 >= |iovs| && totalWritten == Room(iovs, |iovs|)
    }

    ghost function Contents(): seq<byte>
      requires Valid()
      reads this, iovs
    {
      if iovs == [] then [] else Joined(iovs, curr) + iovs[curr][..currOutput]
    }

    lemma ContentsSize()
      requires Valid()
      ensures |Contents()| == totalWritten
    {
      JoinedSize(iovs, curr);
    }

    /** No more is written than the buffers have room for, and all of that once the last is full. */
    lemma WithinRoom()
      requires Valid()
      ensures totalWritten <= Room(iovs, |iovs|)
      ensures currRemaining == 0 && curr + 1 >= |iovs| ==> totalWritten == Room(iovs, |iovs|)
    {
      if iovs != [] {
        RoomGrows(iovs, curr + 1, |iovs|);
      }
    }

    /** The output fills the buffers in order. */
    lemma ContentsArePrefix()
      requires Valid()
      ensures Contents() <= Joined(iovs, |iovs|)
    {
      if iovs != [] {
        JoinedGrows(iovs, curr + 1, |iovs|);
        assert iovs[curr][..currOutput] <= iovs[curr][..];
      }
    }

    constructor (iov: seq<array<byte>>)
      requires forall i, j :: 0 <= i < j < |iov| ==> iov[i] != iov[j]
      ensures iovs == iov && Valid() && Contents() == [] && outputLimit == 0
    {
      iovs := iov;
      curr, currOutput, totalWritten, outputLimit := 0, 0, 0, 0;
      currRemaining := if |iov| > 0 then iov[0].Length else 0;
    }

    method SetExpectedLength(len: nat)
      requires Valid() && Contents() == [] && len < SIZE_MAX
      modifies this
      ensures Valid() && outputLimit == len && Contents() == []
    {
      ContentsSize();
      outputLimit := len;
    }

    method CheckLength() returns (ok: bool)
      requires Valid()
      ensures ok <==> |Contents()| == outputLimit
    {
      ContentsSize();
      return totalWritten == outputLimit;
    }

    /** Move to the next buffer, the current one being full. */
    method NextIov()
      requires Valid() && curr + 1 < |iovs| && currRemaining == 0
      modifies this
      ensures Valid() && outputLimit == old(outputLimit) && totalWritten == old(totalWritten)
      ensures curr == old(curr) + 1 && currOutput == 0 && currRemaining == iovs[curr].Length
      ensures Contents() == old(Contents())
    {
      curr := curr + 1;
      currOutput := 0;
      currRemaining := iovs[curr].Length;
    }

    twostate lemma JoinedUntouched(n: nat)
      requires n <= |iovs|
      requires forall i :: 0 <= i < n ==> iovs[i][..] == old(iovs[i][..])
      ensures Joined(iovs, n) == old(Joined(iovs, n))
    {
      if n > 0 {
        JoinedUntouched(n - 1);
      }
    }

    /** Writing bytes at the write position and advancing over them appends them. */
    twostate lemma Appended(bytes: seq<byte>)
      requires old(Valid()) && iovs != [] && curr == old(curr) && outputLimit == old(outputLimit)
      requires currOutput == old(currOutput) + |bytes| && currRemaining == old(currRemaining) - |bytes|
      requires totalWritten == old(totalWritten) + |bytes| <= outputLimit
      requires forall i :: 0 <= i < curr ==> iovs[i][..] == old(iovs[i][..])
      requires iovs[curr][..currOutput] == old(iovs[curr][..currOutput]) + bytes
      ensures Valid() && Contents() == old(Contents()) + bytes
    {
      JoinedUntouched(curr);
    }

    /** memcpy into the current buffer. */
    method CopyHere(bytes: seq<byte>)
      requires Valid() && |bytes| <= currRemaining && totalWritten + |bytes| <= outputLimit
      modifies Repr()
      ensures Valid() && outputLimit == old(outputLimit) && curr == old(curr)
      ensures totalWritten == old(totalWritten) + |bytes| && currRemaining == old(currRemaining) - |bytes|
      ensures Contents() == old(Contents()) + bytes
    {
      hide Joined, Room;
      if iovs != [] {
        CopyIn(iovs[curr], currOutput, bytes, 0, |bytes|);
        currOutput := currOutput + |bytes|;
        currRemaining := currRemaining - |bytes|;
        totalWritten := totalWritten + |bytes|;
        Appended(bytes);
      }
    }

    /** Fails, with the buffers full, exactly if they have no room for all of the bytes. */
    method AppendNoCheck(bytes: seq<byte>) returns (ok: bool)
      requires Valid() && totalWritten + |bytes| <= outputLimit
      modifies Repr()
      ensures Valid() && outputLimit == old(outputLimit) && old(curr) <= curr
      ensures ok <==> old(totalWritten) + |bytes| <= Room(iovs, |iovs|)
      ensures (!ok ==> Full()) && (old(Full()) ==> Full())
      ensures ok ==> totalWritten == old(totalWritten) + |bytes| && Contents() == old(Contents()) + bytes
    {
      hide Joined, Room, Contents;
      var ip: nat, len: nat := 0, |bytes|;
      assert Contents() + bytes[..0] == Contents();
      while len > 0
        invariant Valid() && outputLimit == old(outputLimit) && old(curr) <= curr
        invariant ip + len == |bytes| && totalWritten == old(totalWritten) + ip
        invariant Contents() == old(Contents()) + bytes[..ip]
        decreases len, |iovs| - curr
      {
        if currRemaining == 0 {
          if curr + 1 >= |iovs| {
            WithinRoom();
            return false;
          }
          NextIov();
        }
        var toWrite := if len <= currRemaining then len else currRemaining;
        CopyHere(bytes[ip..ip + toWrite]);
        assert bytes[..ip + toWrite] == bytes[..ip] + bytes[ip..ip + toWrite];
        ip := ip + toWrite;
        len := len - toWrite;
      }
      WithinRoom();
      return true;
    }

    /** Refuses exactly what exceeds the expected length or the room in the buffers. */
    method Append(bytes: seq<byte>) returns (ok: bool)
      requires Valid()
      modifies Repr()
      ensures Valid() && outputLimit == old(outputLimit)
      ensures ok <==>
        Applies(old(Contents()), Literal(bytes), outputLimit) && |old(Contents())| + |bytes| <= Room(iovs, |iovs|)
      ensures ok ==> Contents() == Apply(old(Contents()), Literal(bytes))
      ensures Roomy() ==> (ok <==> Applies(old(Contents()), Literal(bytes), outputLimit))
    {
      ContentsSize();
      if totalWritten + |bytes| > outputLimit {
        return false;
      }
      ok := AppendNoCheck(bytes);
    }

    method TryFastAppend(mem: seq<byte>, ip: nat, available: nat, len: nat) returns (taken: bool)
      requires Valid() && ip + available <= |mem|
      modifies Repr()
      ensures taken ==> len + MAXIMUM_TAG_LENGTH <= available && len <= 16
      ensures taken ==> Applies(old(Contents()), Literal(mem[ip..ip + len]), outputLimit)
      ensures Valid() && outputLimit == old(outputLimit)
      ensures Contents() == if taken then Apply(old(Contents()), Literal(mem[ip..ip + len])) else old(Contents())
    {
      var spaceLeft := outputLimit - totalWritten;
      if len <= 16 && available >= 16 + MAXIMUM_TAG_LENGTH && spaceLeft >= 16 && currRemaining >= 16 {
        ContentsSize();
        hide Joined, Room;
        UnalignedCopy128(mem, ip, iovs[curr], currOutput, len);
        currOutput := currOutput + len;
        currRemaining := currRemaining - len;
        totalWritten := totalWritten + len;
        Appended(mem[ip..ip + len]);
        return true;
      }
      return false;
    }

    /** (fromIov, fromOffset) is where byte `at` of the output is, or would be written next. */
    ghost predicate At(fromIov: nat, fromOffset: nat, at: nat)
      requires Valid()
      reads this, iovs
    {
      && fromIov <= curr < |iovs| && fromOffset <= iovs[fromIov].Length
      && Room(iovs, fromIov) + fromOffset == at
    }

    /** Walk back from the current position over `distance` bytes. */
    method Locate(distance: nat) returns (fromIov: nat, fromOffset: nat)
      requires Valid() && 1 <= distance <= totalWritten
      ensures At(fromIov, fromOffset, totalWritten - distance)
    {
      var offset := distance;
      fromIov, fromOffset := curr, currOutput;
      while offset > 0
        invariant 0 <= offset && At(fromIov, fromOffset, totalWritten - distance + offset)
        decreases offset, fromIov
      {
        if fromOffset >= offset {
          fromOffset := fromOffset - offset;
          break;
        }
        offset := offset - fromOffset;
        fromIov := fromIov - 1;
        fromOffset := iovs[fromIov].Length;
      }
    }

    /** What a buffer before the current one holds is that stretch of the output. */
    lemma {:induction false} StoredAt(fromIov: nat, n: nat)
      requires Valid() && fromIov < n <= curr < |iovs|
      ensures Room(iovs, fromIov) + iovs[fromIov].Length <= Room(iovs, n)
      ensures var b, l := Room(iovs, fromIov), iovs[fromIov].Length;
        |Joined(iovs, n)| == Room(iovs, n) && Joined(iovs, n)[b..b + l] == iovs[fromIov][..]
      decreases n
    {
      JoinedSize(iovs, n);
      JoinedSize(iovs, n - 1);
      if n > fromIov + 1 {
        StoredAt(fromIov, n - 1);
      }
    }

    /** Copying from a buffer before the current one: source and destination cannot overlap. */
    lemma StoredBytes(fromIov: nat, fromOffset: nat, offset: nat, n: nat)
      requires Valid() && 1 <= offset <= totalWritten && At(fromIov, fromOffset, totalWritten - offset)
      requires fromIov < curr && fromOffset + n <= iovs[fromIov].Length
      ensures |Contents()| == totalWritten
      ensures CopyFromSelf(Contents(), offset, n) == Contents() + iovs[fromIov][fromOffset..fromOffset + n]
    {
      var before := Contents();
      ContentsSize();
      StoredAt(fromIov, curr);
      hide Joined, Room;
      var at := totalWritten - offset;
      assert iovs[fromIov][fromOffset..fromOffset + n] == before[at..at + n];
      if n > 0 {
        CopyNoOverlap(before, offset, n);
      }
    }

    lemma Current()
      requires Valid() && iovs != []
      ensures curr < |iovs| && currOutput + currRemaining == iovs[curr].Length
      ensures forall i :: 0 <= i < curr ==> iovs[i] != iovs[curr]
      ensures this in Repr() && iovs[curr] in Repr()
    {
    }

    /** A copy whose source is in the current buffer is a copy within what that holds. */
    lemma CopyInBuffer(offset: nat, n: nat)
      requires Valid() && iovs != [] && 1 <= offset <= currOutput
      ensures offset <= |Contents()|
      ensures var block := iovs[curr][..currOutput]; var copied := CopyFromSelf(block, offset, n);
        && copied == block + copied[|block|..]
        && CopyFromSelf(Contents(), offset, n) == Contents() + copied[|block|..]
    {
      hide Joined, Room, CopyFromSelf;
      var prefix, block := Joined(iovs, curr), iovs[curr][..currOutput];
      CopyWithPrefix(prefix, block, offset, n);
      CopyAppends(block, offset, n);
      ConcatAssociative(prefix, block, CopyFromSelf(block, offset, n)[|block|..]);
    }

    /** Copy within the current buffer. */
    method CopyWithin(fromOffset: nat, toCopy: nat)
      requires Valid() && iovs != [] && fromOffset < currOutput && toCopy <= currRemaining
      requires totalWritten + toCopy <= outputLimit
      modifies Repr()
      ensures Valid() && outputLimit == old(outputLimit) && curr == old(curr)
      ensures totalWritten == old(totalWritten) + toCopy && currRemaining == old(currRemaining) - toCopy
      ensures old(currOutput) - fromOffset <= |old(Contents())|
      ensures Contents() == CopyFromSelf(old(Contents()), old(currOutput) - fromOffset, toCopy)
    {
      hide *;
      Current();
      ghost var block, offset := iovs[curr][..currOutput], currOutput - fromOffset;
      CopyInBuffer(offset, toCopy);
      ghost var bytes := CopyFromSelf(block, offset, toCopy)[|block|..];
      IncrementalCopy(iovs[curr], fromOffset, currOutput, currOutput + toCopy, currOutput + currRemaining);
      currOutput := currOutput + toCopy;
      currRemaining := currRemaining - toCopy;
      totalWritten := totalWritten + toCopy;
      Appended(bytes);
    }

    /**
     One turn of the copy loop while the source is in a buffer before the current one. Whether the
     bytes could be appended is not looked at.
     */
    method EarlierStep(fromIov: nat, fromOffset: nat, len: nat) returns (nextIov: nat, nextOffset: nat, rest: nat)
      requires Valid() && fromIov < curr < |iovs| && fromOffset <= iovs[fromIov].Length
      requires 0 < len && totalWritten + len <= outputLimit
      modifies Repr()
      ensures Valid() && outputLimit == old(outputLimit) && old(curr) <= curr
      ensures rest <= len && fromOffset + (len - rest) <= iovs[fromIov].Length
      ensures rest > 0 ==> nextIov == fromIov + 1 && nextOffset == 0 && len - rest == iovs[fromIov].Length - fromOffset
      ensures var n := len - rest;
        if old(totalWritten) + n <= Room(iovs, |iovs|) then
          && totalWritten == old(totalWritten) + n
          && Contents() == old(Contents()) + old(iovs[fromIov][fromOffset..fromOffset + n])
        else Full()
      ensures old(Full()) ==> Full()
    {
      hide Room, Contents;
      var inIov := iovs[fromIov].Length - fromOffset;
      var toCopy := if inIov <= len then inIov else len;
      var ok := AppendNoCheck(iovs[fromIov][fromOffset..fromOffset + toCopy]);
      rest := len - toCopy;
      nextIov, nextOffset := fromIov, fromOffset;
      if rest > 0 {
        nextIov := fromIov + 1;
        nextOffset := 0;
      }
    }

    /**
     One turn of the copy loop while the source is in the current buffer. Fails if that is full and
     there is no other.
     */
    method CurrentStep(fromOffset: nat, offset: nat, len: nat) returns (more: bool, nextOffset: nat, rest: nat)
      requires Valid() && (Full() || (1 <= offset <= totalWritten && At(curr, fromOffset, totalWritten - offset)))
      requires 0 < len && totalWritten + len <= outputLimit
      modifies Repr()
      ensures Valid() && outputLimit == old(outputLimit) && rest <= len
      ensures (!more ==> Full() && totalWritten == old(totalWritten)) && (old(Full()) ==> !more)
      ensures more ==>
        && totalWritten == old(totalWritten) + (len - rest)
        && |old(Contents())| == old(totalWritten)
        && Contents() == CopyFromSelf(old(Contents()), offset, len - rest)
        && At(old(curr), nextOffset, totalWritten - offset)
        && (rest < len || curr == old(curr) + 1)
    {
      ContentsSize();
      var toCopy := currRemaining;
      if toCopy == 0 {
        if curr + 1 >= |iovs| {
          WithinRoom();
          return false, fromOffset, len;
        }
        NextIov();
        return true, fromOffset, len;
      }
      if toCopy > len {
        toCopy := len;
      }
      hide Room, Joined, CopyFromSelf;
      CopyWithin(fromOffset, toCopy);
      return true, fromOffset + toCopy, len - toCopy;
    }

    /** After n of its bytes, a copy from `offset` back continues at this place. */
    ghost predicate Copying(before: seq<byte>, offset: nat, n: nat)
      reads this, iovs
    {
      && Valid() && 1 <= offset <= |before| && totalWritten == |before| + n
      && Contents() == CopyFromSelf(before, offset, n)
    }

    lemma StartsCopying(offset: nat)
      requires Valid() && 1 <= offset <= totalWritten
      ensures Copying(Contents(), offset, 0)
    {
      ContentsSize();
      hide Contents;
    }

    /** The copy has got so far, and goes on at this place if there are more bytes. */
    ghost predicate Aligned(fromIov: nat, fromOffset: nat, offset: nat, len: nat, before: seq<byte>, n: nat)
      reads this, iovs
    {
      Copying(before, offset, n) && (len > 0 ==> At(fromIov, fromOffset, totalWritten - offset))
    }

    lemma AlignedFacts(fromIov: nat, fromOffset: nat, offset: nat, len: nat, before: seq<byte>, n: nat)
      requires Aligned(fromIov, fromOffset, offset, len, before, n)
      ensures Valid() && 1 <= offset <= |before| && totalWritten == |before| + n
      ensures Contents() == CopyFromSelf(before, offset, n)
      ensures len > 0 ==> At(fromIov, fromOffset, totalWritten - offset)
    {
      hide Contents, CopyFromSelf;
    }

    lemma AlignedIs(fromIov: nat, fromOffset: nat, offset: nat, len: nat, before: seq<byte>, n: nat)
      requires Valid() && 1 <= offset <= |before| && totalWritten == |before| + n
      requires Contents() == CopyFromSelf(before, offset, n)
      requires len > 0 ==> At(fromIov, fromOffset, totalWritten - offset)
      ensures Aligned(fromIov, fromOffset, offset, len, before, n)
    {
      hide Contents, CopyFromSelf;
    }

    /** The copy is under way, or the buffers have become full, having no room for it. */
    ghost predicate Tracks(fromIov: nat, fromOffset: nat, offset: nat, len: nat, before: seq<byte>, n: nat, fits: bool)
      reads this, iovs
    {
      && Valid() && totalWritten + len <= outputLimit
      && (len > 0 ==> fromIov <= curr < |iovs| && fromOffset <= iovs[fromIov].Length)
      && (fits ==> |before| + n + len <= Room(iovs, |iovs|))
      && (Aligned(fromIov, fromOffset, offset, len, before, n) || (!fits && Full()))
    }

    lemma TracksIs(fromIov: nat, fromOffset: nat, offset: nat, len: nat, before: seq<byte>, n: nat, fits: bool)
      ensures Tracks(fromIov, fromOffset, offset, len, before, n, fits) <==>
        && Valid() && totalWritten + len <= outputLimit
        && (len > 0 ==> fromIov <= curr < |iovs| && fromOffset <= iovs[fromIov].Length)
        && (fits ==> |before| + n + len <= Room(iovs, |iovs|))
        && (Aligned(fromIov, fromOffset, offset, len, before, n) || (!fits && Full()))
    {
      hide Room, Full, Aligned, Valid;
    }

    lemma AtFacts(fromIov: nat, fromOffset: nat, at: nat)
      requires Valid() && At(fromIov, fromOffset, at)
      ensures fromIov <= curr < |iovs| && fromOffset <= iovs[fromIov].Length
    {
      hide Room;
    }

    lemma NextBuffer(fromIov: nat, fromOffset: nat, at: nat, n: nat)
      requires fromIov < curr < |iovs| && Room(iovs, fromIov) + fromOffset == at
      requires Valid() && fromOffset + n == iovs[fromIov].Length
      ensures At(fromIov + 1, 0, at + n)
    {
    }

    /** One turn of the copy loop, from a buffer before the current one. */
    method CopyEarlier(fromIov: nat, fromOffset: nat, offset: nat, len: nat,
          ghost before: seq<byte>, ghost n: nat, ghost fits: bool)
      returns (nextIov: nat, nextOffset: nat, rest: nat)
      requires Tracks(fromIov, fromOffset, offset, len, before, n, fits) && 0 < len && fromIov < curr
      modifies Repr()
      ensures rest <= len && outputLimit == old(outputLimit) && old(curr) <= curr
      ensures Tracks(nextIov, nextOffset, offset, rest, before, n + (len - rest), fits)
      ensures rest > 0 ==> nextIov == fromIov + 1
    {
      hide *;
      TracksIs(fromIov, fromOffset, offset, len, before, n, fits);
      ghost var aligned := Aligned(fromIov, fromOffset, offset, len, before, n);
      ghost var at := totalWritten - offset;
      ghost var inIov := iovs[fromIov].Length - fromOffset;
      ghost var k := if inIov <= len then inIov else len;
      if aligned {
        AlignedFacts(fromIov, fromOffset, offset, len, before, n);
        AtRoom(fromIov, fromOffset, at);
        StoredBytes(fromIov, fromOffset, offset, k);
        CopyCompose(before, offset, n, k);
      }
      FullFacts();
      nextIov, nextOffset, rest := EarlierStep(fromIov, fromOffset, len);
      Bounds();
      FullFacts();
      if aligned && |before| + n + (len - rest) <= Room(iovs, |iovs|) {
        if rest > 0 {
          NextBuffer(fromIov, fromOffset, at, len - rest);
        }
        AlignedIs(nextIov, nextOffset, offset, rest, before, n + (len - rest));
      }
      TracksIs(nextIov, nextOffset, offset, rest, before, n + (len - rest), fits);
    }

    lemma Bounds()
      requires Valid() && iovs != []
      ensures curr < |iovs|
    {
    }

    lemma AtRoom(fromIov: nat, fromOffset: nat, at: nat)
      requires Valid() && At(fromIov, fromOffset, at)
      ensures Room(iovs, fromIov) + fromOffset == at
    {
    }

    /** One turn of the copy loop, within the current buffer. */
    method CopyCurrent(fromOffset: nat, offset: nat, len: nat, ghost before: seq<byte>, ghost n: nat, ghost fits: bool)
      returns (more: bool, nextOffset: nat, rest: nat)
      requires Tracks(curr, fromOffset, offset, len, before, n, fits) && 0 < len
      modifies Repr()
      ensures rest <= len && outputLimit == old(outputLimit) && Valid()
      ensures more ==> Tracks(old(curr), nextOffset, offset, rest, before, n + (len - rest), fits)
      ensures more ==> rest < len || curr == old(curr) + 1
      ensures !more ==> !fits
    {
      hide *;
      ghost var from := curr;
      TracksIs(curr, fromOffset, offset, len, before, n, fits);
      if Aligned(curr, fromOffset, offset, len, before, n) {
        AlignedFacts(curr, fromOffset, offset, len, before, n);
      }
      WithinRoom();
      more, nextOffset, rest := CurrentStep(fromOffset, offset, len);
      if more {
        CopyCompose(before, offset, n, len - rest);
        if rest > 0 {
          AtFacts(from, nextOffset, totalWritten - offset);
        }
        AlignedIs(from, nextOffset, offset, rest, before, n + (len - rest));
        TracksIs(from, nextOffset, offset, rest, before, n + (len - rest), fits);
      } else {
        FullFacts();
      }
    }

    lemma FullFacts()
      ensures Full() ==> currRemaining == 0 && curr + 1 >= |iovs| && totalWritten == Room(iovs, |iovs|)
    {
      hide Room;
    }

    /** Copy length bytes from `offset` bytes back, one buffer at a time. */
    method CopyLoop(offset: nat, length: nat, ghost fits: bool) returns (ok: bool)
      requires Valid() && 1 <= offset <= totalWritten && totalWritten + length <= outputLimit
      requires fits ==> totalWritten + length <= Room(iovs, |iovs|)
      modifies Repr()
      ensures Valid() && outputLimit == old(outputLimit)
      ensures fits ==> ok
      ensures fits ==>
        |old(Contents())| == old(totalWritten) && Contents() == CopyFromSelf(old(Contents()), offset, length)
    {
      hide *;
      ContentsSize();
      var fromIov: nat, fromOffset: nat := Locate(offset);
      var len: nat := length;
      ghost var before := Contents();
      StartsCopying(offset);
      AtFacts(fromIov, fromOffset, totalWritten - offset);
      AlignedStart(fromIov, fromOffset, offset, len, before);
      TracksIs(fromIov, fromOffset, offset, len, before, 0, fits);
      while len > 0
        invariant len <= length && outputLimit == old(outputLimit) && Valid()
        invariant Tracks(fromIov, fromOffset, offset, len, before, length - len, fits)
        decreases len, |iovs| - curr + |iovs| - fromIov
      {
        TracksIs(fromIov, fromOffset, offset, len, before, length - len, fits);
        if fromIov != curr {
          fromIov, fromOffset, len := CopyEarlier(fromIov, fromOffset, offset, len, before, length - len, fits);
        } else {
          ok, fromOffset, len := CopyCurrent(fromOffset, offset, len, before, length - len, fits);
          if !ok {
            return;
          }
        }
        TracksIs(fromIov, fromOffset, offset, len, before, length - len, fits);
      }
      TracksIs(fromIov, fromOffset, offset, 0, before, length, fits);
      if fits {
        AlignedFacts(fromIov, fromOffset, offset, 0, before, length);
      }
      return true;
    }

    lemma AlignedStart(fromIov: nat, fromOffset: nat, offset: nat, len: nat, before: seq<byte>)
      requires Copying(before, offset, 0) && At(fromIov, fromOffset, totalWritten - offset)
      ensures Aligned(fromIov, fromOffset, offset, len, before, 0)
    {
      hide At, Contents, CopyFromSelf;
    }

    /**
     Refuses exactly what exceeds the expected length, and otherwise copies, as far as there is room
     in the buffers. (Without room it may yet report that it has copied.)
     */
    method AppendFromSelf(offset: nat, length: nat) returns (ok: bool)
      requires Valid()
      modifies Repr()
      ensures Valid() && outputLimit == old(outputLimit)
      ensures !Applies(old(Contents()), Copy(offset, length), outputLimit) ==> !ok && Contents() == old(Contents())
      ensures |old(Contents())| + length <= Room(iovs, |iovs|) ==>
        (ok <==> Applies(old(Contents()), Copy(offset, length), outputLimit))
        && (ok ==> Contents() == Apply(old(Contents()), Copy(offset, length)))
      ensures Roomy() ==>
        (ok <==> Applies(old(Contents()), Copy(offset, length), outputLimit))
        && (ok ==> Contents() == Apply(old(Contents()), Copy(offset, length)))
    {
      ContentsSize();
      if OffsetMinusOne(offset) >= totalWritten {
        return false;
      }
      var spaceLeft := outputLimit - totalWritten;
      if length > spaceLeft {
        return false;
      }
      ok := CopyLoop(offset, length, totalWritten + length <= Room(iovs, |iovs|));
    }

    /**
     With too little room in the buffers, no output is accepted: whatever is appended, the output
     never has the expected length.
     */
    method TooLittleRoom(appends: seq<Append>) returns (ok: bool)
      requires Valid() && !Roomy()
      modifies Repr()
      ensures Valid() && outputLimit == old(outputLimit) && !ok
    {
      hide Contents;
      for i := 0 to |appends|
        invariant Valid() && outputLimit == old(outputLimit)
      {
        match appends[i] {
          case OfLiteral(bytes) => ok := Append(bytes);
          case OfShortLiteral(mem, ip, len) =>
            if ip <= |mem| {
              ok := TryFastAppend(mem, ip, |mem| - ip, len);
            }
          case OfCopy(offset, length) => ok := AppendFromSelf(offset, length);
        }
      }
      ContentsSize();
      WithinRoom();
      ok := CheckLength();
    }
  }
}
