/**
 The writer argument of the decompression template: one of the four writers (a `Target`),
 behind the one contract they share.
 */
module SnappyWriter {
  import opened Bytes
  import opened SnappyFormat
  import opened SnappyArrayWriter
  import opened SnappyScatteredWriter
  import opened SnappyIOVecWriter

  datatype Target =
    | Flat(flat: SnappyArrayWriter)
    | Scattered(scattered: SnappyScatteredWriter)
    | Vectored(vectored: SnappyIOVecWriter)
    | Validating(validator: SnappyDecompressionValidator)
  {
    ghost function Self(): object {
      match this
      case Flat(w) => w
      case Scattered(w) => w
      case Vectored(w) => w
      case Validating(w) => w
    }

    /** Everything the writer may write to. */
    ghost function Repr(): set<object>
      reads Self()
    {
      match this
      case Flat(w) => w.Repr()
      case Scattered(w) => w.Repr()
      case Vectored(w) => w.Repr()
      case Validating(w) => {w}
    }

    ghost predicate Valid()
      reads Self(), Repr()
    {
      match this
      case Flat(w) => w.Valid()
      case Scattered(w) => w.Valid()
      case Vectored(w) => w.Valid()
      case Validating(w) => w.Valid()
    }

    /** The output so far (for the validator, what it would be). */
    ghost function Contents(): seq<byte>
      requires Valid()
      reads Self(), Repr()
    {
      match this
      case Flat(w) => w.Contents()
      case Scattered(w) => w.contents
      case Vectored(w) => w.Contents()
      case Validating(w) => w.contents
    }

    /** The expected length. */
    ghost function Limit(): nat
      reads Self()
    {
      match this
      case Flat(w) => w.opLimit
      case Scattered(w) => w.expected
      case Vectored(w) => w.outputLimit
      case Validating(w) => w.expected
    }

    /** Is there room for this much output, where the caller has to see to it? */
    ghost predicate HasRoom(len: nat)
      reads Self()
    {
      match this
      case Flat(w) => len <= w.buffer.Length
      case Scattered(w) => w.blocks == []
      case Vectored(_) => true
      case Validating(_) => true
    }

    /** Can this much output be accepted? Only buffers of the caller's may be too small for it. */
    ghost predicate Holds(len: nat) {
      Vectored? ==> len <= Room(vectored.iovs, |vectored.iovs|)
    }
  }

  class Writer {
    const target: Target
    ghost var contents: seq<byte>
    ghost var limit: nat
    /** Is there room for all of the expected output? */
    ghost var roomy: bool
    ghost var repr: set<object>

    ghost predicate Valid()
      reads this, repr
    {
      && this in repr && target.Self() in repr && target.Repr() <= repr && this !in target.Repr()
      && target.Valid() && contents == target.Contents() && limit == target.Limit() && roomy == target.Holds(limit)
    }

    /** What decoding `rest` has to come to: where there is too little room, it is to be rejected. */
    ghost function Outcome(rest: seq<byte>): Option<seq<byte>>
      reads this
    {
      if roomy then Decode(rest, contents, limit) else None
    }

    lemma OutcomeIs(rest: seq<byte>)
      ensures Outcome(rest) == if roomy then Decode(rest, contents, limit) else None
    {
      hide Decode;
    }

    /** With too little room, the output never has the expected length. */
    lemma NotWhole()
      requires Valid() && !roomy
      ensures |contents| < limit
    {
      hide Room, SnappyIOVecWriter.Contents;
      target.vectored.ContentsSize();
      target.vectored.WithinRoom();
    }

    constructor (target: Target)
      requires target.Valid()
      ensures Valid() && this.target == target && contents == target.Contents() && limit == target.Limit()
      ensures fresh(repr - target.Repr())
    {
      this.target := target;
      contents, limit, repr := target.Contents(), target.Limit(), {this} + target.Repr();
      roomy := target.Holds(target.Limit());
      new;
      assert target.Self() in target.Repr();
    }

    method Append(bytes: seq<byte>) returns (ok: bool)
      requires Valid()
      modifies repr
      ensures limit == old(limit) && roomy == old(roomy)
      ensures roomy ==> (ok <==> Applies(old(contents), Literal(bytes), limit))
      ensures ok ==> Valid() && fresh(repr - old(repr))
      ensures ok && roomy ==> contents == Apply(old(contents), Literal(bytes))
    {
      hide SnappyArrayWriter.Valid, SnappyArrayWriter.Contents, SnappyScatteredWriter.Valid,
        SnappyScatteredWriter.FullBlocks;
      hide SnappyIOVecWriter.Valid, SnappyIOVecWriter.Contents, Room, SnappyDecompressionValidator.Valid;
      match target {
        case Flat(w) => ok := w.Append(bytes);
        case Scattered(w) => ok := w.Append(bytes);
        case Vectored(w) => ok := w.Append(bytes);
        case Validating(w) => ok := w.Append(bytes);
      }
      if ok {
        contents, repr := target.Contents(), repr + target.Repr();
      }
    }

    method TryFastAppend(mem: seq<byte>, ip: nat, available: nat, len: nat) returns (taken: bool)
      requires Valid() && ip + available <= |mem|
      modifies repr
      ensures taken ==> len + MAXIMUM_TAG_LENGTH <= available && len <= 16
      ensures taken ==> Applies(old(contents), Literal(mem[ip..ip + len]), limit)
      ensures Valid() && limit == old(limit) && roomy == old(roomy) && repr == old(repr)
      ensures contents == if taken then Apply(old(contents), Literal(mem[ip..ip + len])) else old(contents)
    {
      hide SnappyArrayWriter.Valid, SnappyArrayWriter.Contents, SnappyScatteredWriter.Valid,
        SnappyScatteredWriter.FullBlocks;
      hide SnappyIOVecWriter.Valid, SnappyIOVecWriter.Contents, Room, SnappyDecompressionValidator.Valid;
      match target {
        case Flat(w) => taken := w.TryFastAppend(mem, ip, available, len);
        case Scattered(w) => taken := w.TryFastAppend(mem, ip, available, len);
        case Vectored(w) => taken := w.TryFastAppend(mem, ip, available, len);
        case Validating(_) => taken := false;
      }
      contents := target.Contents();
    }

    method AppendFromSelf(offset: nat, len: nat) returns (ok: bool)
      requires Valid()
      modifies repr
      ensures limit == old(limit) && roomy == old(roomy)
      ensures roomy ==> (ok <==> Applies(old(contents), Copy(offset, len), limit))
      ensures ok ==> Valid() && fresh(repr - old(repr))
      ensures ok && roomy ==> contents == Apply(old(contents), Copy(offset, len))
    {
      hide SnappyArrayWriter.Valid, SnappyArrayWriter.Contents, SnappyScatteredWriter.Valid,
        SnappyScatteredWriter.FullBlocks;
      hide SnappyIOVecWriter.Valid, SnappyIOVecWriter.Contents, Room, SnappyDecompressionValidator.Valid;
      match target {
        case Flat(w) => ok := w.AppendFromSelf(offset, len);
        case Scattered(w) => ok := w.AppendFromSelf(offset, len);
        case Vectored(w) => ok := w.AppendFromSelf(offset, len);
        case Validating(w) => ok := w.AppendFromSelf(offset, len);
      }
      if ok {
        contents, repr := target.Contents(), repr + target.Repr();
      }
    }

    method CheckLength() returns (ok: bool)
      requires Valid()
      ensures ok <==> |contents| == limit
    {
      match target {
        case Flat(w) => ok := w.CheckLength();
        case Scattered(w) => ok := w.CheckLength();
        case Vectored(w) => ok := w.CheckLength();
        case Validating(w) => ok := w.CheckLength();
      }
    }

    method SetExpectedLength(len: uint32)
      requires Valid() && contents == [] && target.HasRoom(len)
      modifies repr
      ensures Valid() && contents == [] && limit == len && roomy == target.Holds(len) && repr == old(repr)
    {
      match target {
        case Flat(w) => w.SetExpectedLength(len);
        case Scattered(w) => w.SetExpectedLength(len);
        case Vectored(w) => w.SetExpectedLength(len);
        case Validating(w) => w.SetExpectedLength(len);
      }
      limit, roomy := len, target.Holds(len);
    }
  }
}
