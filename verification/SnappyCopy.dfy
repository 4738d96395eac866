/**
 Overlapping copies within the output, as snappy.cc makes them. The meaning of a copy is
 given byte at a time; `IncrementalCopy` writes up to 16 bytes at once.
 */
module SnappyCopy {
  import opened Bytes

  /** Extending `out` by n bytes, each equal to the byte `offset` places before it. */
  function CopyFromSelf(out: seq<byte>, offset: nat, n: nat): (r: seq<byte>)
    requires 1 <= offset <= |out|
    ensures |r| == |out| + n
    decreases n
  {
    if n == 0 then out
    else
      var prev := CopyFromSelf(out, offset, n - 1);
      prev + [prev[|prev| - offset]]
  }

  /** What was there stays, and from there on the output repeats with period `offset`. */
  lemma {:induction false} CopyRepeats(out: seq<byte>, offset: nat, n: nat)
    requires 1 <= offset <= |out|
    ensures var r := CopyFromSelf(out, offset, n);
            && r[..|out|] == out
            && forall k :: |out| <= k < |r| ==> r[k] == r[k - offset]
    decreases n
  {
    if n > 0 {
      CopyRepeats(out, offset, n - 1);
    }
  }

  /** Two copies with the same offset, one after the other, are one copy. */
  lemma {:induction false} CopyCompose(out: seq<byte>, offset: nat, m: nat, n: nat)
    requires 1 <= offset <= |out|
    ensures CopyFromSelf(CopyFromSelf(out, offset, m), offset, n) == CopyFromSelf(out, offset, m + n)
    decreases n
  {
    if n > 0 {
      CopyCompose(out, offset, m, n - 1);
    }
  }

  /** Up to `offset` bytes, a copy only reads what was there before. */
  lemma {:induction false} CopyNoOverlap(out: seq<byte>, offset: nat, n: nat)
    requires 1 <= n <= offset <= |out|
    ensures CopyFromSelf(out, offset, n) == out + out[|out| - offset..|out| - offset + n]
    decreases n
  {
    if n > 1 {
      CopyNoOverlap(out, offset, n - 1);
    } else {
      assert CopyFromSelf(out, offset, 0) == out;
    }
  }

  /** Bytes before the part being copied do not matter. */
  lemma {:induction false} CopyWithPrefix(prefix: seq<byte>, out: seq<byte>, offset: nat, n: nat)
    requires 1 <= offset <= |out|
    ensures CopyFromSelf(prefix + out, offset, n) == prefix + CopyFromSelf(out, offset, n)
    decreases n
  {
    if n > 0 {
      CopyWithPrefix(prefix, out, offset, n - 1);
    }
  }

  lemma {:induction false} CopyPrefix(out: seq<byte>, offset: nat, m: nat, n: nat)
    requires 1 <= offset <= |out| && m <= n
    ensures CopyFromSelf(out, offset, n)[..|out| + m] == CopyFromSelf(out, offset, m)
    decreases n
  {
    if m < n {
      CopyPrefix(out, offset, m, n - 1);
      var prev := CopyFromSelf(out, offset, n - 1);
      assert CopyFromSelf(out, offset, n)[..|out| + m] == prev[..|out| + m];
    }
  }

  /** Copying a stretch that repeats itself reproduces it. */
  lemma {:induction false} CopyReproduces(data: seq<byte>, from: nat, offset: nat, n: nat)
    requires 1 <= offset <= from && from + n <= |data|
    requires data[from - offset..from - offset + n] == data[from..from + n]
    ensures CopyFromSelf(data[..from], offset, n) == data[..from + n]
    decreases n
  {
    if n > 0 {
      var src, dst := data[from - offset..from - offset + n], data[from..from + n];
      assert data[from - offset..from - offset + (n - 1)] == src[..n - 1];
      assert data[from..from + (n - 1)] == dst[..n - 1];
      CopyReproduces(data, from, offset, n - 1);
      assert src[n - 1] == dst[n - 1];
    } else {
      assert from + n == from;
    }
  }

  method UnalignedCopy64(buf: array<byte>, src: nat, dst: nat)
    requires src + 8 <= buf.Length && dst + 8 <= buf.Length
    modifies buf
    ensures forall k :: 0 <= k < buf.Length ==>
      buf[k] == if dst <= k < dst + 8 then old(buf[src + (k - dst)]) else old(buf[k])
  {
    var tmp := buf[src..src + 8];
    forall k | dst <= k < dst + 8 {
      buf[k] := tmp[k - dst];
    }
  }

  /** Copy buf[source..] to buf[start..opLimit] a byte at a time; nothing if start is past opLimit. */
  method IncrementalCopySlow(buf: array<byte>, source: nat, start: nat, opLimit: nat)
    requires source < start && opLimit <= buf.Length
    modifies buf
    ensures start <= opLimit ==>
      && buf[..opLimit] == CopyFromSelf(old(buf[..start]), start - source, opLimit - start)
      && buf[opLimit..] == old(buf[opLimit..])
    ensures opLimit < start ==> buf[..] == old(buf[..])
  {
    var src, op := source, start;
    while op < opLimit
      invariant op - src == start - source && (op == start || start <= op <= opLimit)
      invariant start <= opLimit ==>
        && buf[..op] == CopyFromSelf(old(buf[..start]), start - source, op - start)
        && buf[opLimit..] == old(buf[opLimit..])
      invariant opLimit < start ==> buf[..] == old(buf[..])
    {
      buf[op] := buf[src];
      op := op + 1;
      src := src + 1;
      assert buf[..op] == buf[..op - 1] + [buf[op - 1]];
    }
  }

  /** buf agrees with the finished copy `goal` up to op, and is untouched from `bufLimit` on. */
  ghost predicate CopiedUpTo(buf: array<byte>, goal: seq<byte>, op: nat, bufLimit: nat, before: seq<byte>)
    reads buf
  {
    && |before| == buf.Length
    && op <= bufLimit == |goal| <= buf.Length
    && (forall k :: 0 <= k < op ==> buf[k] == goal[k])
    && (forall k :: bufLimit <= k < buf.Length ==> buf[k] == before[k])
  }

  /** goal repeats with period p from index `from` on. */
  ghost predicate Periodic(goal: seq<byte>, from: nat, p: nat)
  {
    forall i, k :: from <= i < k < |goal| && k == i + p ==> goal[i] == goal[k]
  }

  lemma PeriodDoubles(goal: seq<byte>, from: nat, p: nat)
    requires Periodic(goal, from, p)
    ensures Periodic(goal, from, 2 * p)
  {
    forall i, k | from <= i < k < |goal| && k == i + 2 * p
      ensures goal[i] == goal[k]
    {
      assert goal[i] == goal[i + p];
    }
  }

  /** Eight bytes at distance p >= 8 of a p-periodic goal extend the copied part by eight. */
  method CopyEight(buf: array<byte>, p: nat, op: nat, bufLimit: nat, ghost goal: seq<byte>, ghost from: nat,
        ghost before: seq<byte>)
    requires CopiedUpTo(buf, goal, op, bufLimit, before) && Periodic(goal, from, p)
    requires p >= 8 && from + p <= op && op + 8 <= bufLimit
    modifies buf
    ensures CopiedUpTo(buf, goal, op + 8, bufLimit, before)
  {
    UnalignedCopy64(buf, op - p, op);
  }

  lemma CopyDone(buf: array<byte>, out: seq<byte>, offset: nat, op: nat, opLimit: nat, bufLimit: nat, before: seq<byte>)
    requires 1 <= offset <= |out| <= opLimit <= op <= bufLimit
    requires CopiedUpTo(buf, CopyFromSelf(out, offset, bufLimit - |out|), op, bufLimit, before)
    ensures buf[..opLimit] == CopyFromSelf(out, offset, opLimit - |out|)
    ensures buf[bufLimit..] == before[bufLimit..]
  {
    CopyPrefix(out, offset, opLimit - |out|, bufLimit - |out|);
  }

  /** The byte-at-a-time tail of a copy, at a distance p over which the goal repeats. */
  method CopyTail(buf: array<byte>, p: nat, op: nat, opLimit: nat, bufLimit: nat, ghost goal: seq<byte>,
        ghost from: nat, ghost before: seq<byte>)
    requires CopiedUpTo(buf, goal, op, bufLimit, before) && Periodic(goal, from, p)
    requires p >= 1 && from + p <= op && opLimit <= bufLimit
    modifies buf
    ensures CopiedUpTo(buf, goal, if op <= opLimit then opLimit else op, bufLimit, before)
  {
    IncrementalCopySlow(buf, op - p, op, opLimit);
    if op <= opLimit {
      ghost var r := CopyFromSelf(old(buf[..op]), p, opLimit - op);
      CopyRepeats(old(buf[..op]), p, opLimit - op);
      AgreeWhilePeriodic(r, goal, op, from, p, opLimit);
      assert forall k :: 0 <= k < opLimit ==> buf[..opLimit][k] == r[k];
      assert buf[bufLimit..] == buf[opLimit..][bufLimit - opLimit..] == old(buf[bufLimit..]);
      assert forall k :: bufLimit <= k < buf.Length ==> buf[k] == buf[bufLimit..][k - bufLimit];
    } else {
      assert forall k :: 0 <= k < buf.Length ==> buf[..][k] == old(buf[..])[k];
    }
  }

  lemma {:induction false} AgreeWhilePeriodic(r: seq<byte>, goal: seq<byte>, op: nat, from: nat, p: nat, end: nat)
    requires p >= 1 && from + p <= op <= end <= |goal| && end <= |r|
    requires Periodic(goal, from, p)
    requires forall k :: 0 <= k < op ==> r[k] == goal[k]
    requires forall k :: op <= k < |r| ==> r[k] == r[k - p]
    ensures forall k :: 0 <= k < end ==> r[k] == goal[k]
    decreases end
  {
    if op < end {
      AgreeWhilePeriodic(r, goal, op, from, p, end - 1);
      assert r[end - 1] == r[end - 1 - p] == goal[end - 1 - p];
    }
  }

  /** Doubling a pattern shorter than eight bytes until it is at least eight bytes long. */
  method ExpandPattern(buf: array<byte>, source: nat, start: nat, bufLimit: nat, ghost goal: seq<byte>,
        ghost before: seq<byte>)
    returns (op: nat, patternSize: nat)
    requires source < start < source + 8 && start + 11 <= bufLimit
    requires CopiedUpTo(buf, goal, start, bufLimit, before) && Periodic(goal, source, start - source)
    modifies buf
    ensures patternSize >= 8 && op - patternSize == source && start <= op
    ensures CopiedUpTo(buf, goal, op, bufLimit, before) && Periodic(goal, source, patternSize)
  {
    op, patternSize := start, start - source;
    while patternSize < 8
      invariant 1 <= patternSize <= 14 && op - patternSize == source && start <= op
      invariant patternSize < 8 ==>
        op + 8 + (if patternSize < 4 then patternSize else 0) + (if patternSize < 2 then 2 else 0) <= bufLimit
      invariant Periodic(goal, source, patternSize)
      invariant CopiedUpTo(buf, goal, op, bufLimit, before)
      decreases 8 - patternSize
    {
      UnalignedCopy64(buf, source, op);
      PeriodDoubles(goal, source, patternSize);
      op := op + patternSize;
      patternSize := patternSize * 2;
    }
  }

  /** Two eight-byte copies. */
  method CopySixteen(buf: array<byte>, p: nat, op: nat, bufLimit: nat, ghost goal: seq<byte>, ghost from: nat,
        ghost before: seq<byte>)
    requires CopiedUpTo(buf, goal, op, bufLimit, before) && Periodic(goal, from, p)
    requires p >= 8 && from + p <= op && op + 16 <= bufLimit
    modifies buf
    ensures CopiedUpTo(buf, goal, op + 16, bufLimit, before)
  {
    CopyEight(buf, p, op, bufLimit, goal, from, before);
    CopyEight(buf, p, op + 8, bufLimit, goal, from, before);
  }

  /** The part of IncrementalCopy after any pattern expansion: the distance is at least eight. */
  method CopyBlocks(buf: array<byte>, p: nat, start: nat, opLimit: nat, bufLimit: nat, ghost goal: seq<byte>,
        ghost from: nat, ghost before: seq<byte>)
    returns (op: nat)
    requires CopiedUpTo(buf, goal, start, bufLimit, before) && Periodic(goal, from, p)
    requires p >= 8 && from + p <= start <= opLimit <= bufLimit
    modifies buf
    ensures opLimit <= op && CopiedUpTo(buf, goal, op, bufLimit, before)
  {
    hide CopiedUpTo, Periodic;
    op := start;
    if opLimit <= bufLimit - 16 {
      // do { ... } while (op < opLimit)
      CopySixteen(buf, p, op, bufLimit, goal, from, before);
      op := op + 16;
      while op < opLimit
        invariant from + p <= op <= bufLimit && CopiedUpTo(buf, goal, op, bufLimit, before)
      {
        CopySixteen(buf, p, op, bufLimit, goal, from, before);
        op := op + 16;
      }
      return;
    }
    while op < bufLimit - 16
      invariant from + p <= op <= bufLimit && CopiedUpTo(buf, goal, op, bufLimit, before)
    {
      CopySixteen(buf, p, op, bufLimit, goal, from, before);
      op := op + 16;
    }
    if op >= opLimit {
      return;
    }
    if op <= bufLimit - 8 {
      CopyEight(buf, p, op, bufLimit, goal, from, before);
      op := op + 8;
    }
    CopyTail(buf, p, op, opLimit, bufLimit, goal, from, before);
    op := if op <= opLimit then opLimit else op;
  }

  /**
   `IncrementalCopy` without SSSE3: pattern doubling up to a distance of eight, then 16 bytes
   at a time, then whatever still fits before `bufLimit`. Bytes in [opLimit, bufLimit) may be
   clobbered; nothing at or past bufLimit is written.
   */
  method IncrementalCopy(buf: array<byte>, source: nat, start: nat, opLimit: nat, bufLimit: nat)
    requires source < start <= opLimit <= bufLimit <= buf.Length
    modifies buf
    ensures buf[..opLimit] == CopyFromSelf(old(buf[..start]), start - source, opLimit - start)
    ensures buf[bufLimit..] == old(buf[bufLimit..])
  {
    ghost var out, offset, before := buf[..start], start - source, buf[..];
    ghost var goal := CopyFromSelf(out, offset, bufLimit - start);
    CopyRepeats(out, offset, bufLimit - start);
    assert forall k :: 0 <= k < start ==> buf[k] == goal[..start][k];
    var op, patternSize := start, start - source;
    if patternSize < 8 {
      if op <= bufLimit - 11 {
        op, patternSize := ExpandPattern(buf, source, start, bufLimit, goal, before);
        if op >= opLimit {
          CopyDone(buf, out, offset, op, opLimit, bufLimit, before);
          return;
        }
      } else {
        IncrementalCopySlow(buf, source, op, opLimit);
        assert buf[bufLimit..] == buf[opLimit..][bufLimit - opLimit..];
        return;
      }
    }
    op := CopyBlocks(buf, patternSize, op, opLimit, bufLimit, goal, source, before);
    CopyDone(buf, out, offset, op, opLimit, bufLimit, before);
  }
}
