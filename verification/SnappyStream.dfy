/**
 `Source` and `Sink` of snappy-sinksource.h. A source is a run of fragments, as its contract
 promises; a peeked fragment is a value, so its lifetime does not matter.
 */
module SnappyStream {
  import opened Bytes

  ghost function Flatten(fragments: seq<seq<byte>>): seq<byte> {
    if fragments == [] then [] else fragments[0] + Flatten(fragments[1..])
  }

  /** n less k, but not below zero */
  function Less(n: nat, k: nat): nat {
    if n <= k then 0 else n - k
  }

  /** How many bytes have to be skipped before no fragment's size exceeds 32 bits. */
  ghost function FragmentsExcess(fragments: seq<seq<byte>>): nat {
    if fragments == [] then 0
    else if FragmentsExcess(fragments[1..]) > 0 then |fragments[0]| + FragmentsExcess(fragments[1..])
    else Less(|fragments[0]|, 0xFFFF_FFFF)
  }

  lemma {:induction false} NoExcess(fragments: seq<seq<byte>>)
    ensures FragmentsExcess(fragments) == 0 <==>
      forall i :: 0 <= i < |fragments| ==> |fragments[i]| < 0x1_0000_0000
  {
    if fragments != [] {
      NoExcess(fragments[1..]);
      assert forall i :: 0 <= i < |fragments| - 1 ==> fragments[1..][i] == fragments[i + 1];
      if FragmentsExcess(fragments) == 0 {
        forall i | 0 <= i < |fragments| ensures |fragments[i]| < 0x1_0000_0000 {
          assert i > 0 ==> fragments[i] == fragments[1..][i - 1];
        }
      }
    }
  }

  /** Skipping a first fragment whole, or only a part of it. */
  lemma ExcessLess(current: seq<byte>, rest: seq<seq<byte>>, n: nat)
    ensures n >= |current| ==> Less(FragmentsExcess([current] + rest), n) == Less(FragmentsExcess(rest), n - |current|)
    ensures n <= |current| ==> FragmentsExcess([current[n..]] + rest) == Less(FragmentsExcess([current] + rest), n)
    ensures rest != [] ==> [rest[0]] + rest[1..] == rest
  {
    assert ([current] + rest)[1..] == rest;
    if n <= |current| {
      assert ([current[n..]] + rest)[1..] == rest;
    }
  }

  class Source {
    var current: seq<byte>
    var rest: seq<seq<byte>>

    /** The bytes not yet skipped. */
    ghost var bytes: seq<byte>

    /** Only an exhausted source has an empty current fragment. */
    ghost predicate Valid()
      reads this
    {
      && bytes == current + Flatten(rest)
      && (forall i :: 0 <= i < |rest| ==> rest[i] != [])
      && (current == [] ==> rest == [])
    }

    /** How many bytes have to be skipped before no fragment's size exceeds 32 bits. */
    ghost function Excess(): nat
      reads this
    {
      FragmentsExcess([current] + rest)
    }

    ghost predicate Narrow()
      reads this
    {
      Excess() == 0
    }

    /** A fragment of 2^32 bytes or more has to be skipped first. */
    lemma WideIsExcess()
      requires |current| >= 0x1_0000_0000
      ensures !Narrow()
    {
      assert ([current] + rest)[0] == current;
    }

    constructor (fragments: seq<seq<byte>>)
      requires forall i :: 0 <= i < |fragments| ==> fragments[i] != []
      ensures Valid() && bytes == Flatten(fragments)
      ensures (forall i :: 0 <= i < |fragments| ==> |fragments[i]| < 0x1_0000_0000) ==> Narrow()
      ensures |fragments| <= 1 ==> rest == []
    {
      current := if fragments == [] then [] else fragments[0];
      rest := if fragments == [] then [] else fragments[1..];
      bytes := Flatten(fragments);
      new;
      NoExcess([current] + rest);
    }

    /** A single fragment counts as far as its size exceeds 32 bits. */
    lemma ExcessOfOne()
      requires Valid() && rest == []
      ensures bytes == current && Excess() == Less(|bytes|, 0xFFFF_FFFF)
    {
      assert current + Flatten(rest) == current;
      var fragments := [current] + rest;
      assert fragments[1..] == [] && FragmentsExcess([]) == 0;
    }

    method Available() returns (n: nat)
      requires Valid()
      ensures n == |bytes|
    {
      n := |current|;
      var i := 0;
      assert rest[0..] == rest;
      while i < |rest|
        invariant 0 <= i <= |rest| && n + |Flatten(rest[i..])| == |bytes|
      {
        assert rest[i..][1..] == rest[i + 1..];
        n := n + |rest[i]|;
        i := i + 1;
      }
    }

    /** The next fragment, which is empty only at the end. */
    method Peek() returns (fragment: seq<byte>)
      requires Valid()
      ensures fragment == current
      ensures |fragment| <= |bytes| && fragment == bytes[..|fragment|]
      ensures fragment == [] <==> bytes == []
      ensures Narrow() ==> |fragment| < 0x1_0000_0000
      ensures rest == [] ==> fragment == bytes
    {
      assert rest == [] ==> current + Flatten(rest) == current;
      NoExcess([current] + rest);
      assert ([current] + rest)[0] == current;
      return current;
    }

    method Skip(n: nat)
      requires Valid() && n <= |bytes|
      modifies this
      ensures Valid() && bytes == old(bytes)[n..]
      ensures Excess() == Less(old(Excess()), n) && (old(Narrow()) ==> Narrow())
      ensures old(rest) == [] ==> rest == []
      ensures n < old(|current|) ==> current == old(current)[n..]
    {
      hide FragmentsExcess;
      ghost var after := bytes[n..];
      var toSkip: nat := n;
      while toSkip >= |current| && rest != []
        invariant toSkip <= |current + Flatten(rest)| && after == (current + Flatten(rest))[toSkip..]
        invariant (forall i :: 0 <= i < |rest| ==> rest[i] != []) && (current == [] ==> rest == [])
        invariant Less(Excess(), toSkip) == Less(old(Excess()), n) && (old(rest) == [] ==> rest == [])
        invariant n < old(|current|) ==> toSkip == n && current == old(current)
        decreases |rest|
      {
        ghost var here, next := current, current + Flatten(rest);
        ExcessLess(current, rest, toSkip);
        toSkip := toSkip - |current|;
        current, rest := rest[0], rest[1..];
        assert current + Flatten(rest) == next[|here|..];
        assert next[|here|..][toSkip..] == next[|here| + toSkip..];
      }
      assert rest == [] ==> current + Flatten(rest) == current;
      assert (current + Flatten(rest))[toSkip..] == current[toSkip..] + Flatten(rest);
      ExcessLess(current, rest, toSkip);
      current := current[toSkip..];
      bytes := after;
    }
  }

  /** UncheckedByteArraySink: appends to a flat buffer it does not measure. */
  class UncheckedByteArraySink {
    const buffer: array<byte>
    var dest: nat

    constructor (buffer: array<byte>)
      ensures this.buffer == buffer && dest == 0
    {
      this.buffer := buffer;
      dest := 0;
    }

    ghost predicate Valid()
      reads this
    {
      dest <= buffer.Length
    }

    /** What has been appended so far, and what was in the buffer before it. */
    ghost function Contents(): seq<byte>
      requires Valid()
      reads this, buffer
    {
      buffer[..dest]
    }

    /** Append n bytes of data from index `from`; no copying if they are already in place. */
    method Append(data: array<byte>, from: nat, n: nat)
      requires Valid() && from + n <= data.Length && dest + n <= buffer.Length
      modifies this, buffer
      ensures Valid() && dest == old(dest) + n
      ensures Contents() == old(Contents()) + old(data[from..from + n])
    {
      if data != buffer || from != dest {
        var bytes := data[from..from + n];
        forall i | 0 <= i < n {
          buffer[dest + i] := bytes[i];
        }
      }
      dest := dest + n;
    }

    /** The buffer to write into and the index to start at. */
    method GetAppendBuffer() returns (data: array<byte>, at: nat)
      ensures data == buffer && at == dest
    {
      return buffer, dest;
    }
  }
}
