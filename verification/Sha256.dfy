/**
 The incremental SHA-256 of sha2.c on a little-endian machine: a 64-byte buffer that serves
 both as input block and, in place, as a circular schedule of 16 words.
 */
module Sha256 {
  import Bytes
  import opened Sha256Standard

  // Words in the machine's byte order.

  function HostWord(b0: bv8, b1: bv8, b2: bv8, b3: bv8): bv32 {
    (b0 as bv32) | ((b1 as bv32) << 8) | ((b2 as bv32) << 16) | ((b3 as bv32) << 24)
  }

  function HostBytes(w: bv32): (s: seq<bv8>)
    ensures |s| == 4
  {
    [(w & 0xff) as bv8, ((w >> 8) & 0xff) as bv8, ((w >> 16) & 0xff) as bv8, (w >> 24) as bv8]
  }

  function HostBytes64(w: bv64): (s: seq<bv8>)
    ensures |s| == 8
  {
    [(w & 0xff) as bv8, ((w >> 8) & 0xff) as bv8, ((w >> 16) & 0xff) as bv8, ((w >> 24) & 0xff) as bv8,
     ((w >> 32) & 0xff) as bv8, ((w >> 40) & 0xff) as bv8, ((w >> 48) & 0xff) as bv8, (w >> 56) as bv8]
  }

  /** REVERSE32 */
  function Reverse32(w: bv32): bv32 {
    var tmp := (w >> 16) | (w << 16);
    ((tmp & 0xff00ff00) >> 8) | ((tmp & 0x00ff00ff) << 8)
  }

  /** REVERSE64 */
  function Reverse64(w: bv64): bv64 {
    var tmp := (w >> 32) | (w << 32);
    var tmp' := ((tmp & 0xff00ff00ff00ff00) >> 8) | ((tmp & 0x00ff00ff00ff00ff) << 8);
    ((tmp' & 0xffff0000ffff0000) >> 16) | ((tmp' & 0x0000ffff0000ffff) << 16)
  }

  /** Reading a word in host order and reversing it gives the word in the standard's order. */
  lemma ReverseHostWord(b0: bv8, b1: bv8, b2: bv8, b3: bv8)
    ensures Reverse32(HostWord(b0, b1, b2, b3)) == BigWord(b0, b1, b2, b3)
  {
  }

  lemma ReverseHostBytes(w: bv32)
    ensures HostBytes(Reverse32(w)) == BigBytes(w)
  {
  }

  lemma ReverseHostBytes64(w: bv64)
    ensures HostBytes64(Reverse64(w)) == BigBytes64(w)
  {
  }

  lemma HostWordOfBytes(w: bv32)
    ensures var s := HostBytes(w); HostWord(s[0], s[1], s[2], s[3]) == w
  {
  }

  /** The buffer as W256: 16 words in host order. */
  function HostWords(bytes: seq<bv8>): (ws: seq<bv32>)
    requires |bytes| == 64
    ensures |ws| == 16
  {
    seq(16, i requires 0 <= i < 16 => HostWord(bytes[4 * i], bytes[4 * i + 1], bytes[4 * i + 2], bytes[4 * i + 3]))
  }

  /** Storing a word changes that word only. */
  lemma StoredWord(before: seq<bv8>, after: seq<bv8>, j: nat, w: bv32)
    requires |before| == |after| == 64 && j < 16
    requires after[..4 * j] == before[..4 * j] && after[4 * j..4 * j + 4] == HostBytes(w)
      && after[4 * j + 4..] == before[4 * j + 4..]
    ensures HostWords(after) == HostWords(before)[j := w]
  {
    HostWordOfBytes(w);
    var bytes := HostBytes(w);
    hide HostWord, HostBytes;
    forall i | 0 <= i < 4 ensures after[4 * j + i] == bytes[i] {
      assert after[4 * j..4 * j + 4][i] == bytes[i];
    }
    forall i | 0 <= i < 16 && i != j ensures HostWords(after)[i] == HostWords(before)[i] {
      if i < j {
        assert forall k :: 4 * i <= k < 4 * i + 4 ==> after[k] == after[..4 * j][k] == before[..4 * j][k] == before[k];
      } else {
        assert forall k :: 4 * i <= k < 4 * i + 4 ==>
          after[k] == after[4 * j + 4..][k - (4 * j + 4)] == before[4 * j + 4..][k - (4 * j + 4)] == before[k];
      }
    }
  }

  // The two phases of a transform.

  /** The first j words have been read in and the rest of the data is as it was. */
  ghost predicate Loading(buffer: seq<bv8>, data: seq<bv8>, orig: seq<bv8>, j: nat) {
    && |buffer| == |data| == |orig| == 64 && j <= 16
    && HostWords(buffer)[..j] == Words(orig)[..j]
    && data[4 * j..] == orig[4 * j..]
  }

  lemma LoadingWord(buffer: seq<bv8>, data: seq<bv8>, orig: seq<bv8>, j: nat)
    requires Loading(buffer, data, orig, j) && j < 16
    ensures |data| == |orig| == 64
    ensures Reverse32(HostWord(data[4 * j], data[4 * j + 1], data[4 * j + 2], data[4 * j + 3])) == Words(orig)[j]
  {
    assert forall k :: 4 * j <= k < 64 ==> data[k] == data[4 * j..][k - 4 * j] == orig[4 * j..][k - 4 * j] == orig[k];
    ReverseHostWord(data[4 * j], data[4 * j + 1], data[4 * j + 2], data[4 * j + 3]);
  }

  /** The data may be the buffer itself: a word is read before it is overwritten. */
  lemma LoadedNext(buffer: seq<bv8>, data: seq<bv8>, orig: seq<bv8>, j: nat, buffer': seq<bv8>, data': seq<bv8>)
    requires Loading(buffer, data, orig, j) && j < 16
    requires |buffer'| == 64 && HostWords(buffer') == HostWords(buffer)[j := Words(orig)[j]]
    requires |data'| == 64 && data'[4 * j + 4..] == data[4 * j + 4..]
    ensures Loading(buffer', data', orig, j + 1)
  {
    hide HostWords, Words;
    var ws, m := HostWords(buffer), Words(orig);
    assert ws[j := m[j]][..j + 1] == ws[..j] + [m[j]];
    assert m[..j + 1] == m[..j] + [m[j]];
    assert data[4 * j..][4..] == data[4 * j + 4..] && orig[4 * j..][4..] == orig[4 * j + 4..];
  }

  /** The words of the buffer are the last 16 of the schedule before word j. */
  ghost predicate Circular(ws: seq<bv32>, block: seq<bv32>, j: nat) {
    |ws| == |block| == 16 <= j <= 64 && forall t :: j - 16 <= t < j ==> ws[t % 16] == Schedule(block, t)
  }

  lemma LoadedIsCircular(buffer: seq<bv8>, data: seq<bv8>, orig: seq<bv8>)
    requires Loading(buffer, data, orig, 16)
    ensures |buffer| == |orig| == 64 && Circular(HostWords(buffer), Words(orig), 16)
  {
    var ws := HostWords(buffer);
    assert ws[..16] == ws && Words(orig)[..16] == Words(orig);
  }

  /** The next word of the schedule from the circular one, in the order of the code. */
  function NextWord(ws: seq<bv32>, j: nat): bv32
    requires |ws| == 16
  {
    Add(ws[j % 16], Add(Add(SmallSigma1(ws[(j + 14) % 16]), ws[(j + 9) % 16]), SmallSigma0(ws[(j + 1) % 16])))
  }

  lemma CircularWords(ws: seq<bv32>, block: seq<bv32>, j: nat)
    requires Circular(ws, block, j)
    ensures ws[j % 16] == Schedule(block, j - 16) && ws[(j + 14) % 16] == Schedule(block, j - 2)
    ensures ws[(j + 9) % 16] == Schedule(block, j - 7) && ws[(j + 1) % 16] == Schedule(block, j - 15)
  {
    hide Schedule;
    assert j % 16 == (j - 16) % 16 && (j + 14) % 16 == (j - 2) % 16 && (j + 9) % 16 == (j - 7) % 16
      && (j + 1) % 16 == (j - 15) % 16;
  }

  lemma CircularStep(ws: seq<bv32>, block: seq<bv32>, j: nat)
    requires Circular(ws, block, j) && j < 64
    ensures Circular(ws[j % 16 := Schedule(block, j)], block, j + 1)
  {
    hide Schedule;
    assert forall t :: j - 15 <= t < j ==> t % 16 != j % 16;
  }

  lemma CircularNext(ws: seq<bv32>, block: seq<bv32>, j: nat)
    requires Circular(ws, block, j) && j < 64
    ensures |ws| == 16 && NextWord(ws, j) == Schedule(block, j)
    ensures Circular(ws[j % 16 := Schedule(block, j)], block, j + 1)
  {
    hide Schedule, Add, SmallSigma0, SmallSigma1;
    CircularWords(ws, block, j);
    ScheduleStep(block, j);
    CircularStep(ws, block, j);
  }

  lemma ScheduleStep(block: seq<bv32>, t: nat)
    requires |block| == 16 <= t
    ensures Schedule(block, t) == Add(Schedule(block, t - 16),
        Add(Add(SmallSigma1(Schedule(block, t - 2)), Schedule(block, t - 7)), SmallSigma0(Schedule(block, t - 15))))
  {
    hide SmallSigma0, SmallSigma1, Add;
    AddCommutes(Schedule(block, t - 16),
      Add(Add(SmallSigma1(Schedule(block, t - 2)), Schedule(block, t - 7)), SmallSigma0(Schedule(block, t - 15))));
  }

  lemma AddCommutes(x: bv32, y: bv32)
    ensures Add(x, y) == Add(y, x)
  {
  }

  /** One round on the eight working variables. */
  method DoRound(v: Working, k: bv32, w: bv32) returns (r: Working)
    ensures r == Round(v, k, w)
  {
    var Working(a, b, c, d, e, f, g, h) := v;
    hide Sigma0, Sigma1, Ch, Maj, Add;
    var T1 := Add(Add(Add(Add(h, Sigma1(e)), Ch(e, f, g)), k), w);
    var T2 := Add(Sigma0(a), Maj(a, b, c));
    h := g;
    g := f;
    f := e;
    e := Add(d, T1);
    d := c;
    c := b;
    b := a;
    a := Add(T1, T2);
    return Working(a, b, c, d, e, f, g, h);
  }

  // What has been absorbed of a message.

  /** The whole blocks of a message, and what is left. */
  function Whole(message: seq<bv8>): (w: seq<bv8>)
    ensures |w| % 64 == 0
  {
    message[..|message| - |message| % 64]
  }

  function Tail(message: seq<bv8>): (t: seq<bv8>)
    ensures |t| == |message| % 64 < 64
  {
    message[|message| - |message| % 64..]
  }

  lemma WholeAndTail(message: seq<bv8>)
    ensures message == Whole(message) + Tail(message)
  {
  }

  lemma Modulo64(w: nat, t: nat)
    requires w % 64 == 0 && t < 64
    ensures (w + t) % 64 == t
  {
  }

  lemma WholeAndTailOf(w: seq<bv8>, t: seq<bv8>)
    requires |w| % 64 == 0 && |t| < 64
    ensures Whole(w + t) == w && Tail(w + t) == t
  {
    Modulo64(|w|, |t|);
  }

  /** More bytes that do not complete a block. */
  lemma TailGrows(message: seq<bv8>, bytes: seq<bv8>)
    requires |Tail(message)| + |bytes| < 64
    ensures Whole(message + bytes) == Whole(message) && Tail(message + bytes) == Tail(message) + bytes
  {
    hide *;
    WholeAndTail(message);
    Bytes.ConcatAssociative(Whole(message), Tail(message), bytes);
    WholeAndTailOf(Whole(message), Tail(message) + bytes);
  }

  /** Bytes that complete a block. */
  lemma TailCompletes(message: seq<bv8>, bytes: seq<bv8>)
    requires |Tail(message)| + |bytes| == 64
    ensures Whole(message + bytes) == Whole(message) + (Tail(message) + bytes) && Tail(message + bytes) == []
  {
    hide *;
    WholeAndTail(message);
    Bytes.ConcatAssociative(Whole(message), Tail(message), bytes);
    var all := message + bytes;
    assert all + [] == all;
    WholeAndTailOf(all, []);
  }

  /** All whole blocks are hashed; the rest is at the start of the buffer. */
  ghost predicate Absorbed(hash: seq<bv32>, buffer: seq<bv8>, message: seq<bv8>) {
    && |hash| == 8 && |buffer| == 64
    && hash == HashBlocks(INITIAL_HASH_VALUE, Whole(message))
    && buffer[..|Tail(message)|] == Tail(message)
  }

  lemma AbsorbNothing(buffer: seq<bv8>)
    requires |buffer| == 64
    ensures Absorbed(INITIAL_HASH_VALUE, buffer, [])
  {
  }

  lemma AbsorbPart(hash: seq<bv32>, buffer: seq<bv8>, message: seq<bv8>, bytes: seq<bv8>, buffer': seq<bv8>)
    requires Absorbed(hash, buffer, message) && |message| % 64 + |bytes| < 64 == |buffer'|
    requires buffer'[..|message| % 64 + |bytes|] == buffer[..|message| % 64] + bytes
    ensures Absorbed(hash, buffer', message + bytes)
  {
    hide HashBlocks, Whole, Tail, INITIAL_HASH_VALUE;
    TailGrows(message, bytes);
  }

  lemma AbsorbBlock(hash: seq<bv32>, buffer: seq<bv8>, message: seq<bv8>, bytes: seq<bv8>, hash': seq<bv32>,
        buffer': seq<bv8>)
    requires Absorbed(hash, buffer, message) && |message| % 64 + |bytes| == 64 == |buffer'|
    requires hash' == Compress(hash, Words(buffer[..|message| % 64] + bytes))
    ensures Absorbed(hash', buffer', message + bytes)
  {
    hide HashBlocks, Compress, Words, Whole, Tail, INITIAL_HASH_VALUE;
    TailCompletes(message, bytes);
    InitialSize();
    HashNextBlock(INITIAL_HASH_VALUE, Whole(message), Tail(message) + bytes);
  }

  lemma InitialSize()
    ensures |INITIAL_HASH_VALUE| == 8
  {
  }

  lemma AbsorbedFacts(hash: seq<bv32>, buffer: seq<bv8>, message: seq<bv8>)
    requires Absorbed(hash, buffer, message)
    ensures |hash| == |INITIAL_HASH_VALUE| == 8 && |buffer| == 64
    ensures hash == HashBlocks(INITIAL_HASH_VALUE, Whole(message)) && buffer[..|message| % 64] == Tail(message)
  {
  }

  // The last blocks.

  /** The hash of the padded message is one more block away: `front` and the length. */
  ghost predicate OneBlockLeft(hash: seq<bv32>, front: seq<bv8>, message: seq<bv8>) {
    && |hash| == |INITIAL_HASH_VALUE| == 8 && |front| == 56 && |message| < MESSAGE_LIMIT
    && |Padded(message)| % 64 == 0
    && Compress(hash, Words(front + LengthField(8 * |message|))) == HashBlocks(INITIAL_HASH_VALUE, Padded(message))
  }

  lemma OneBlockLeftIs(hash: seq<bv32>, front: seq<bv8>, message: seq<bv8>, done: seq<bv8>)
    requires |message| < MESSAGE_LIMIT && |done| % 64 == 0 && |front| == 56
    requires hash == HashBlocks(INITIAL_HASH_VALUE, done)
    requires Padded(message) == done + (front + LengthField(8 * |message|))
    ensures OneBlockLeft(hash, front, message)
  {
    hide LengthField, Padded, HashBlocks, Compress, Words;
    PaddedSize(message);
    HashNextBlock(INITIAL_HASH_VALUE, done, front + LengthField(8 * |message|));
  }

  lemma ZerosAppend(m: nat, n: nat)
    ensures Zeros(m) + Zeros(n) == Zeros(m + n)
  {
  }

  lemma ZeroBytesAre(length: nat)
    ensures length % 64 <= 55 ==> ZeroBytes(length) == 55 - length % 64
    ensures length % 64 > 55 ==> ZeroBytes(length) == (63 - length % 64) + 56
  {
  }

  lemma LimitValue()
    ensures MESSAGE_LIMIT == 0x2000_0000_0000_0000
  {
  }

  /** The padded message cut where its whole blocks end. */
  lemma PaddedParts(message: seq<bv8>)
    requires |message| < MESSAGE_LIMIT
    ensures Padded(message) ==
      Whole(message) + ((Tail(message) + [0x80] + Zeros(ZeroBytes(|message|))) + LengthField(8 * |message|))
  {
    hide LengthField, Zeros, ZeroBytes, Whole, Tail;
    WholeAndTail(message);
    var w, t, z := Whole(message), Tail(message), Zeros(ZeroBytes(|message|));
    Bytes.ConcatAssociative(w, t, [0x80]);
    Bytes.ConcatAssociative(w, t + [0x80], z);
    Bytes.ConcatAssociative(w, t + [0x80] + z, LengthField(8 * |message|));
  }

  lemma OneLastBlock(hash: seq<bv32>, buffer: seq<bv8>, message: seq<bv8>)
    requires Absorbed(hash, buffer, message) && |message| % 64 <= 55 && |message| < MESSAGE_LIMIT
    ensures OneBlockLeft(hash, buffer[..|message| % 64] + [0x80] + Zeros(55 - |message| % 64), message)
  {
    hide *;
    LimitValue();
    AbsorbedFacts(hash, buffer, message);
    ZeroBytesAre(|message|);
    PaddedParts(message);
    OneBlockLeftIs(hash, Tail(message) + [0x80] + Zeros(55 - |message| % 64), message, Whole(message));
  }

  lemma TwoLastBlocks(hash: seq<bv32>, buffer: seq<bv8>, message: seq<bv8>, hash': seq<bv32>)
    requires Absorbed(hash, buffer, message) && |message| % 64 > 55 && |message| < MESSAGE_LIMIT
    requires hash' == Compress(hash, Words(buffer[..|message| % 64] + [0x80] + Zeros(63 - |message| % 64)))
    ensures OneBlockLeft(hash', Zeros(56), message)
  {
    hide *;
    LimitValue();
    AbsorbedFacts(hash, buffer, message);
    ZeroBytesAre(|message|);
    PaddedParts(message);
    var used := |message| % 64;
    var block := Tail(message) + [0x80] + Zeros(63 - used);
    ZerosAppend(63 - used, 56);
    Bytes.ConcatAssociative(Tail(message) + [0x80], Zeros(63 - used), Zeros(56));
    Bytes.ConcatAssociative(block, Zeros(56), LengthField(8 * |message|));
    Bytes.ConcatAssociative(Whole(message), block, Zeros(56) + LengthField(8 * |message|));
    HashNextBlock(INITIAL_HASH_VALUE, Whole(message), block);
    OneBlockLeftIs(hash', Zeros(56), message, Whole(message) + block);
  }

  lemma HashBytesNext(hash: seq<bv32>, j: nat)
    requires j < |hash|
    ensures HashBytes(hash[..j + 1]) == HashBytes(hash[..j]) + BigBytes(hash[j])
    ensures hash[..|hash|] == hash
  {
    hide BigBytes;
    assert hash[..j + 1][..j] == hash[..j];
  }

  class Sha256Context {
    const state: array<bv32>
    const buffer: array<bv8>
    /** A 64-bit word. */
    var bitcount: nat
    /** Everything passed to Update so far. */
    ghost var message: seq<bv8>

    ghost predicate Sized() {
      state.Length == 8 && buffer.Length == 64
    }

    ghost predicate Valid()
      reads this, state, buffer
    {
      && Sized() && |message| < MESSAGE_LIMIT && bitcount == 8 * |message|
      && Absorbed(state[..], buffer[..], message)
    }

    /** sha256_Init */
    constructor ()
      ensures Valid() && message == [] && fresh(state) && fresh(buffer)
    {
      state := new bv32[8](i requires 0 <= i < 8 => INITIAL_HASH_VALUE[i]);
      buffer := new bv8[64](_ => 0);
      bitcount := 0;
      message := [];
      new;
      AbsorbNothing(buffer[..]);
      assert state[..] == INITIAL_HASH_VALUE;
    }

    /** W256[j] = w */
    method StoreWord(j: nat, w: bv32)
      requires buffer.Length == 64 && j < 16
      modifies buffer
      ensures HostWords(buffer[..]) == HostWords(old(buffer[..]))[j := w]
      ensures buffer[4 * j + 4..] == old(buffer[4 * j + 4..])
    {
      hide *;
      ghost var before := buffer[..];
      var bytes := HostBytes(w);
      buffer[4 * j], buffer[4 * j + 1], buffer[4 * j + 2], buffer[4 * j + 3] := bytes[0], bytes[1], bytes[2], bytes[3];
      assert buffer[..][4 * j..4 * j + 4] == bytes;
      assert buffer[..][..4 * j] == before[..4 * j];
      assert buffer[..][4 * j + 4..] == before[4 * j + 4..] == buffer[4 * j + 4..];
      StoredWord(before, buffer[..], j, w);
    }

    /** REVERSE32(*data++, W256[j]) */
    method LoadWord(data: array<bv8>, from: nat, j: nat, ghost orig: seq<bv8>)
      requires buffer.Length == 64 && from + 64 <= data.Length && (data == buffer ==> from == 0) && j < 16
      requires Loading(buffer[..], data[from..from + 64], orig, j)
      modifies buffer
      ensures Loading(buffer[..], data[from..from + 64], orig, j + 1)
    {
      hide *;
      ghost var was, words := data[from..from + 64], buffer[..];
      var at := from + 4 * j;
      assert data[at] == was[4 * j] && data[at + 1] == was[4 * j + 1] && data[at + 2] == was[4 * j + 2]
        && data[at + 3] == was[4 * j + 3];
      LoadingWord(buffer[..], was, orig, j);
      StoreWord(j, Reverse32(HostWord(data[at], data[at + 1], data[at + 2], data[at + 3])));
      if data == buffer {
        assert data[from..from + 64] == buffer[..] && was == words;
        assert buffer[..][4 * j + 4..] == buffer[4 * j + 4..] == words[4 * j + 4..];
      } else {
        assert data[from..from + 64] == was;
      }
      LoadedNext(words, was, orig, j, buffer[..], data[from..from + 64]);
    }

    /** Rounds 0 to 15, reading the block in. */
    method FirstRounds(data: array<bv8>, from: nat, start: Working, ghost orig: seq<bv8>) returns (v: Working)
      requires buffer.Length == 64 && from + 64 <= data.Length && (data == buffer ==> from == 0)
      requires orig == data[from..from + 64]
      modifies buffer
      ensures Circular(HostWords(buffer[..]), Words(orig), 16) && v == Rounds(start, Words(orig), 16)
    {
      hide *;
      StartLoading(buffer[..], orig, start);
      v := start;
      var j: nat := 0;
      while j < 16
        invariant j <= 16 && Loading(buffer[..], data[from..from + 64], orig, j)
        invariant v == Rounds(start, Words(orig), j)
      {
        LoadWord(data, from, j, orig);
        LoadedWord(buffer[..], data[from..from + 64], orig, j);
        NextRound(start, Words(orig), j);
        ScheduleStart(Words(orig), j);
        v := DoRound(v, K256(j), HostWords(buffer[..])[j]);
        j := j + 1;
      }
      LoadedIsCircular(buffer[..], data[from..from + 64], orig);
    }

    /** Rounds 16 to 63, extending the schedule in place. */
    method LastRounds(start: Working, v0: Working, ghost block: seq<bv32>) returns (v: Working)
      requires buffer.Length == 64 && |block| == 16
      requires Circular(HostWords(buffer[..]), block, 16) && v0 == Rounds(start, block, 16)
      modifies buffer
      ensures v == Rounds(start, block, 64)
    {
      hide *;
      v := v0;
      var j: nat := 16;
      while j < 64
        invariant 16 <= j <= 64 && Circular(HostWords(buffer[..]), block, j) && v == Rounds(start, block, j)
      {
        ghost var ws := HostWords(buffer[..]);
        CircularNext(ws, block, j);
        NextRound(start, block, j);
        var w := NextWord(HostWords(buffer[..]), j);
        StoreWord(j % 16, w);
        v := DoRound(v, K256(j), w);
        j := j + 1;
      }
    }

    /** context->state[i] += the working variables */
    method AddWorking(v: Working)
      requires state.Length == 8
      modifies state
      ensures state[..] == AddTo(old(state[..]), v)
    {
      hide *;
      ghost var hash := state[..];
      state[0] := Add(state[0], v.a);
      state[1] := Add(state[1], v.b);
      state[2] := Add(state[2], v.c);
      state[3] := Add(state[3], v.d);
      state[4] := Add(state[4], v.e);
      state[5] := Add(state[5], v.f);
      state[6] := Add(state[6], v.g);
      state[7] := Add(state[7], v.h);
      AddToIs(hash, v, state[..]);
    }

    /**
     sha256_Transform: the 16-word circular schedule in the buffer, which may also be where the
     data is, gives the standard's 64-word one.
     */
    method Transform(data: array<bv8>, from: nat)
      requires Sized() && from + 64 <= data.Length && (data == buffer ==> from == 0)
      modifies state, buffer
      ensures state[..] == Compress(old(state[..]), Words(old(data[from..from + 64])))
    {
      assert state.Length == 8 && buffer.Length == 64;
      hide *;
      ghost var hash, orig := state[..], data[from..from + 64];
      var start := Start(state[..]);
      var v := FirstRounds(data, from, start, orig);
      v := LastRounds(start, v, Words(orig));
      assert state[..] == hash;
      AddWorking(v);
      CompressIs(hash, Words(orig));
    }

    /** memcpy(&context->buffer[used], data + at, n) */
    method CopyIn(used: nat, data: array<bv8>, at: nat, n: nat)
      requires used + n <= buffer.Length && at + n <= data.Length && data != buffer
      modifies buffer
      ensures buffer[..used + n] == old(buffer[..used]) + data[at..at + n]
    {
      forall i | 0 <= i < n {
        buffer[used + i] := data[at + i];
      }
      assert buffer[used..used + n] == data[at..at + n];
      assert buffer[..used] == old(buffer[..used]);
      assert buffer[..used + n] == buffer[..used] + buffer[used..used + n];
    }

    /** memset(&context->buffer[from], 0, to - from) */
    method Clear(from: nat, to: nat)
      requires from <= to <= buffer.Length
      modifies buffer
      ensures buffer[..to] == old(buffer[..from]) + Zeros(to - from)
    {
      forall i | from <= i < to {
        buffer[i] := 0;
      }
      assert buffer[..from] == old(buffer[..from]);
      assert buffer[from..to] == Zeros(to - from);
      assert buffer[..to] == buffer[..from] + buffer[from..to];
    }

    /** context->bitcount += n << 3 */
    method Count(n: nat)
      modifies `bitcount
      ensures bitcount == (old(bitcount) + 8 * n) % 0x1_0000_0000_0000_0000
    {
      bitcount := (bitcount + 8 * n) % 0x1_0000_0000_0000_0000;
    }

    lemma Position()
      requires Valid()
      ensures state.Length == 8 && buffer.Length == 64 && Sized() && Absorbed(state[..], buffer[..], message)
      ensures bitcount == 8 * |message| && |message| < MESSAGE_LIMIT == 0x2000_0000_0000_0000
      ensures bitcount / 8 % 64 == |message| % 64
    {
      hide Absorbed;
    }

    lemma ValidIs()
      requires Sized() && |message| < MESSAGE_LIMIT && bitcount == 8 * |message|
      requires Absorbed(state[..], buffer[..], message)
      ensures Valid()
    {
      hide Absorbed;
    }

    /** Save bytes that do not complete a block. */
    method Save(data: array<bv8>, at: nat, n: nat)
      requires Valid() && at + n <= data.Length && data != buffer
      requires |message| % 64 + n < 64 && |message| + n < MESSAGE_LIMIT
      modifies `bitcount, `message, buffer
      ensures Valid() && message == old(message) + data[at..at + n]
    {
      hide *;
      Position();
      ghost var before, bytes := buffer[..], data[at..at + n];
      var used := bitcount / 8 % 64;
      CopyIn(used, data, at, n);
      assert buffer[..][..used + n] == before[..used] + bytes;
      Count(n);
      AbsorbPart(state[..], before, message, bytes, buffer[..]);
      message := message + bytes;
      ValidIs();
    }

    /** Fill the buffer up and hash it. */
    method Fill(data: array<bv8>, at: nat, n: nat)
      requires Valid() && at + n <= data.Length && data != buffer
      requires |message| % 64 + n == 64 && |message| + n < MESSAGE_LIMIT
      modifies `bitcount, `message, buffer, state
      ensures Valid() && message == old(message) + data[at..at + n]
      ensures |message| == |old(message)| + n && |message| % 64 == 0
    {
      hide *;
      Position();
      ghost var before, hash, bytes := buffer[..], state[..], data[at..at + n];
      var used := bitcount / 8 % 64;
      CopyIn(used, data, at, n);
      Count(n);
      assert buffer[0..64] == buffer[..used + n] == before[..used] + bytes;
      Transform(buffer, 0);
      AbsorbBlock(hash, before, message, bytes, state[..], buffer[..]);
      message := message + bytes;
      ValidIs();
    }

    /** Hash a whole block of the data where it is. */
    method WholeBlock(data: array<bv8>, at: nat)
      requires Valid() && at + 64 <= data.Length && data != buffer
      requires |message| % 64 == 0 && |message| + 64 < MESSAGE_LIMIT
      modifies `bitcount, `message, buffer, state
      ensures Valid() && message == old(message) + data[at..at + 64]
      ensures |message| == |old(message)| + 64 && |message| % 64 == 0
    {
      hide *;
      Position();
      ghost var before, hash, block := buffer[..], state[..], data[at..at + 64];
      assert before[..0] + block == block;
      Transform(data, at);
      Count(64);
      AbsorbBlock(hash, before, message, block, state[..], buffer[..]);
      message := message + block;
      ValidIs();
    }

    /** sha256_Update: the message grows by the data, however much of it there is. */
    method Update(data: array<bv8>, len: nat)
      requires Valid() && len <= data.Length && data != buffer && |message| + len < MESSAGE_LIMIT
      modifies `bitcount, `message, buffer, state
      ensures Valid() && message == old(message) + data[..len]
    {
      hide *;
      Position();
      ghost var before := message;
      Pieces(before, data[..], 0, 0);
      if len == 0 {
        return;
      }
      var at: nat, left: nat := 0, len;
      var usedspace: nat := bitcount / 8 % 64;
      if usedspace > 0 {
        var freespace: nat := 64 - usedspace;
        if left >= freespace {
          Pieces(before, data[..], 0, freespace);
          Fill(data, 0, freespace);
          at, left := freespace, left - freespace;
        } else {
          Pieces(before, data[..], 0, left);
          Save(data, 0, left);
          return;
        }
      }
      while left >= 64
        invariant Valid() && at + left == len && message == before + data[..at] && |message| % 64 == 0
        invariant |message| == |before| + at
        decreases left
      {
        Pieces(before, data[..], at, 64);
        WholeBlock(data, at);
        at, left := at + 64, left - 64;
      }
      if left > 0 {
        Pieces(before, data[..], at, left);
        Save(data, at, left);
      }
    }

    /** Pad up to the length field, hashing a block if there is no room for that in this one. */
    method Pad()
      requires Valid()
      modifies buffer, state
      ensures OneBlockLeft(state[..], buffer[..56], message)
    {
      hide *;
      Position();
      ghost var before, hash := buffer[..], state[..];
      var usedspace: nat := bitcount / 8 % 64;
      if usedspace > 0 {
        buffer[usedspace] := 0x80;
        assert buffer[..usedspace + 1] == before[..usedspace] + [0x80];
        usedspace := usedspace + 1;
        if usedspace <= 56 {
          Clear(usedspace, 56);
          OneLastBlock(hash, before, message);
        } else {
          if usedspace < 64 {
            Clear(usedspace, 64);
          } else {
            NoZeros(buffer[..usedspace]);
          }
          assert buffer[0..64] == buffer[..64];
          Transform(buffer, 0);
          TwoLastBlocks(hash, before, message, state[..]);
          Clear(0, 56);
          assert buffer[..0] + Zeros(56) == Zeros(56);
        }
      } else {
        Clear(0, 56);
        assert buffer[..56] == Zeros(56);
        buffer[0] := 0x80;
        ZerosAfterOne(buffer[..56]);
        assert before[..0] + [0x80] == [0x80];
        OneLastBlock(hash, before, message);
      }
    }

    /** *t = context->bitcount, in the standard's byte order */
    method StoreLength(ghost bits: nat)
      requires buffer.Length == 64 && bits == bitcount < 0x1_0000_0000_0000_0000
      modifies buffer
      ensures buffer[..] == old(buffer[..56]) + LengthField(bits)
    {
      hide *;
      LengthBytes(bitcount);
      StoreEight(ReversedCount(bitcount));
    }

    method StoreEight(bytes: seq<bv8>)
      requires buffer.Length == 64 && |bytes| == 8
      modifies buffer
      ensures buffer[..] == old(buffer[..56]) + bytes
    {
      hide *;
      ghost var front := buffer[..56];
      forall i | 0 <= i < 8 {
        buffer[56 + i] := bytes[i];
      }
      assert buffer[56..] == bytes;
      assert buffer[..] == buffer[..56] + buffer[56..];
      assert buffer[..56] == front;
    }

    /** Write the hash value out, reversing each word in place first. */
    method StoreDigest(digest: array<bv8>)
      requires state.Length == 8 && digest.Length >= 32 && digest != buffer
      modifies state, digest
      ensures digest[..32] == HashBytes(old(state[..])) && digest[32..] == old(digest[32..])
    {
      hide *;
      ghost var hash, rest := state[..], digest[32..];
      NoHashBytes(hash);
      var j: nat := 0;
      while j < 8
        invariant j <= 8 && digest[..4 * j] == HashBytes(hash[..j])
        invariant state[j..] == hash[j..] && digest[32..] == rest
      {
        assert state[j] == state[j..][0] == hash[j];
        state[j] := Reverse32(state[j]);
        ReverseHostBytes(hash[j]);
        var bytes := HostBytes(state[j]);
        digest[4 * j], digest[4 * j + 1], digest[4 * j + 2], digest[4 * j + 3] :=
          bytes[0], bytes[1], bytes[2], bytes[3];
        HashBytesNext(hash, j);
        assert digest[..4 * j + 4] == digest[..4 * j] + bytes;
        assert state[j + 1..] == hash[j..][1..] == hash[j + 1..];
        j := j + 1;
      }
      HashBytesNext(hash, 7);
    }

    /**
     sha256_Final: the digest of everything that was passed to Update. The context is cleared.
     */
    method Final(digest: array?<bv8>)
      requires Valid() && digest != buffer && (digest != null ==> digest.Length >= 32)
      modifies this, buffer, state, digest
      ensures digest != null ==> digest[..32] == Digest(old(message)) && digest[32..] == old(digest[32..])
      ensures bitcount == 0 && forall i :: 0 <= i < state.Length ==> state[i] == 0
      ensures forall i :: 0 <= i < buffer.Length ==> buffer[i] == 0
    {
      hide *;
      Position();
      ghost var all := message;
      if digest != null {
        Pad();
        ghost var front, hash := buffer[..56], state[..];
        StoreLength(8 * |all|);
        assert buffer[0..64] == buffer[..];
        Transform(buffer, 0);
        LastHash(hash, front, all);
        StoreDigest(digest);
      }
      forall i | 0 <= i < state.Length {
        state[i] := 0;
      }
      forall i | 0 <= i < buffer.Length {
        buffer[i] := 0;
      }
      bitcount := 0;
    }
  }

  lemma NoZeros(s: seq<bv8>)
    ensures s + Zeros(0) == s
  {
  }

  lemma ZerosAfterOne(s: seq<bv8>)
    requires |s| == 56 && s[0] == 0x80 && forall i :: 1 <= i < 56 ==> s[i] == 0
    ensures s == [0x80] + Zeros(55)
  {
  }

  /** A count of bits as a reversed word in host order. */
  function ReversedCount(bits: nat): seq<bv8>
    requires bits < 0x1_0000_0000_0000_0000
  {
    HostBytes64(Reverse64(bits as bv64))
  }

  lemma LengthBytes(bits: nat)
    requires bits < 0x1_0000_0000_0000_0000
    ensures |ReversedCount(bits)| == 8 && ReversedCount(bits) == LengthField(bits)
  {
    hide HostBytes64, Reverse64, BigBytes64;
    ReverseHostBytes64(bits as bv64);
  }

  lemma NoHashBytes(hash: seq<bv32>)
    ensures HashBytes(hash[..0]) == []
  {
  }

  lemma LastHash(hash: seq<bv32>, front: seq<bv8>, message: seq<bv8>)
    requires OneBlockLeft(hash, front, message)
    ensures |hash| == 8 && |front| == 56 && |message| < MESSAGE_LIMIT == 0x2000_0000_0000_0000
    ensures HashBytes(Compress(hash, Words(front + LengthField(8 * |message|)))) == Digest(message)
  {
    hide HashBytes, HashBlocks, LengthField, Padded, Words, Compress;
  }

  /** sha256_Raw */
  method Raw(data: array<bv8>, len: nat, digest: array<bv8>)
    requires len <= data.Length && len < MESSAGE_LIMIT && digest.Length >= 32
    modifies digest
    ensures digest[..32] == Digest(old(data[..len]))
  {
    hide *;
    var context := new Sha256Context();
    context.Update(data, len);
    assert [] + data[..len] == data[..len];
    context.Final(digest);
  }

  ghost function Joined(pieces: seq<seq<bv8>>): seq<bv8> {
    if pieces == [] then [] else Joined(pieces[..|pieces| - 1]) + pieces[|pieces| - 1]
  }

  lemma JoinedNext(pieces: seq<seq<bv8>>, i: nat)
    requires i < |pieces|
    ensures Joined(pieces[..i + 1]) == Joined(pieces[..i]) + pieces[i]
    ensures pieces[..|pieces|] == pieces && Joined(pieces[..0]) == []
  {
    assert pieces[..i + 1][..i] == pieces[..i];
  }

  lemma {:induction false} JoinedGrows(pieces: seq<seq<bv8>>, i: nat)
    requires i <= |pieces|
    ensures |Joined(pieces[..i])| <= |Joined(pieces)|
    decreases |pieces| - i
  {
    if i < |pieces| {
      JoinedNext(pieces, i);
      JoinedGrows(pieces, i + 1);
    } else {
      assert pieces[..i] == pieces;
    }
  }

  /** However a message is cut into updates, the digest is the standard's. */
  method HashPieces(pieces: seq<seq<bv8>>) returns (digest: seq<bv8>)
    requires |Joined(pieces)| < MESSAGE_LIMIT
    ensures digest == Digest(Joined(pieces))
  {
    hide *;
    var context := new Sha256Context();
    NoPieces(pieces);
    var i: nat := 0;
    while i < |pieces|
      invariant i <= |pieces| && context.Valid() && context.message == Joined(pieces[..i])
      invariant fresh(context) && fresh(context.state) && fresh(context.buffer)
    {
      var data := new bv8[|pieces[i]|](k requires 0 <= k < |pieces[i]| => pieces[i][k]);
      assert data[..|pieces[i]|] == pieces[i];
      JoinedNext(pieces, i);
      JoinedGrows(pieces, i + 1);
      context.Update(data, |pieces[i]|);
      i := i + 1;
    }
    assert pieces[..i] == pieces;
    var out := new bv8[32];
    context.Final(out);
    assert out[..32] == out[..];
    return out[..];
  }

  lemma NoPieces(pieces: seq<seq<bv8>>)
    ensures Joined(pieces[..0]) == []
  {
  }

  /** The first `at` and the next n bytes of the data, as one piece. */
  lemma Pieces(before: seq<bv8>, data: seq<bv8>, at: nat, n: nat)
    requires at + n <= |data|
    ensures before + data[..at + n] == (before + data[..at]) + data[at..at + n]
    ensures before + data[..0] == before
  {
    assert data[..at + n] == data[..at] + data[at..at + n];
    Bytes.ConcatAssociative(before, data[..at], data[at..at + n]);
  }

  lemma AddToIs(hash: seq<bv32>, v: Working, next: seq<bv32>)
    requires |hash| == |next| == 8
    requires next[0] == Add(hash[0], v.a) && next[1] == Add(hash[1], v.b) && next[2] == Add(hash[2], v.c)
      && next[3] == Add(hash[3], v.d)
    requires next[4] == Add(hash[4], v.e) && next[5] == Add(hash[5], v.f) && next[6] == Add(hash[6], v.g)
      && next[7] == Add(hash[7], v.h)
    ensures next == AddTo(hash, v)
  {
    hide Add;
  }

  lemma CompressIs(hash: seq<bv32>, block: seq<bv32>)
    requires |hash| == 8 && |block| == 16
    ensures Compress(hash, block) == AddTo(hash, Rounds(Start(hash), block, 64))
  {
    hide AddTo, Rounds, Start;
  }

  lemma NextRound(v: Working, block: seq<bv32>, j: nat)
    requires |block| == 16 && j < 64
    ensures Rounds(v, block, j + 1) == Round(Rounds(v, block, j), K256(j), Schedule(block, j))
  {
    hide Round, K256, Schedule;
  }

  lemma StartLoading(buffer: seq<bv8>, orig: seq<bv8>, start: Working)
    requires |buffer| == |orig| == 64
    ensures Loading(buffer, orig, orig, 0) && Rounds(start, Words(orig), 0) == start
  {
    hide Words, HostWords;
    assert HostWords(buffer)[..0] == Words(orig)[..0];
  }

  lemma ScheduleStart(block: seq<bv32>, j: nat)
    requires |block| == 16 && j < 16
    ensures Schedule(block, j) == block[j]
  {
  }

  lemma LoadedWord(buffer: seq<bv8>, data: seq<bv8>, orig: seq<bv8>, j: nat)
    requires Loading(buffer, data, orig, j + 1)
    ensures |buffer| == |orig| == 64 && j < 16 && HostWords(buffer)[j] == Words(orig)[j]
  {
    hide HostWords, Words;
    assert HostWords(buffer)[..j + 1][j] == Words(orig)[..j + 1][j];
  }
}
