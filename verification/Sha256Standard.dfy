/**
 SHA-256 as FIPS 180-4 defines it: the functions of section 4.1.2, the constants of sections
 4.2.2 and 5.3.3, padding (5.1.1), parsing into blocks (5.2.1) and the hash computation (6.2.2).
 */
module Sha256Standard {

  // Functions on words.

  /** Addition modulo 2^32. */
  function Add(x: bv32, y: bv32): bv32 {
    x + y
  }

  function ShR(n: bv6, x: bv32): bv32
    requires n < 32
  {
    x >> n
  }

  function RotR(n: bv6, x: bv32): bv32
    requires 0 < n < 32
  {
    (x >> n) | (x << (32 - n))
  }

  function Ch(x: bv32, y: bv32, z: bv32): bv32 {
    (x & y) ^ ((!x) & z)
  }

  function Maj(x: bv32, y: bv32, z: bv32): bv32 {
    (x & y) ^ (x & z) ^ (y & z)
  }

  function Sigma0(x: bv32): bv32 {
    RotR(2, x) ^ RotR(13, x) ^ RotR(22, x)
  }

  function Sigma1(x: bv32): bv32 {
    RotR(6, x) ^ RotR(11, x) ^ RotR(25, x)
  }

  function SmallSigma0(x: bv32): bv32 {
    RotR(7, x) ^ RotR(18, x) ^ ShR(3, x)
  }

  function SmallSigma1(x: bv32): bv32 {
    RotR(17, x) ^ RotR(19, x) ^ ShR(10, x)
  }

  // Constants.

  const K_0: seq<bv32> := [
    0x428a2f98, 0x71374491, 0xb5c0fbcf, 0xe9b5dba5, 0x3956c25b, 0x59f111f1, 0x923f82a4, 0xab1c5ed5,
    0xd807aa98, 0x12835b01, 0x243185be, 0x550c7dc3, 0x72be5d74, 0x80deb1fe, 0x9bdc06a7, 0xc19bf174]
  const K_1: seq<bv32> := [
    0xe49b69c1, 0xefbe4786, 0x0fc19dc6, 0x240ca1cc, 0x2de92c6f, 0x4a7484aa, 0x5cb0a9dc, 0x76f988da,
    0x983e5152, 0xa831c66d, 0xb00327c8, 0xbf597fc7, 0xc6e00bf3, 0xd5a79147, 0x06ca6351, 0x14292967]
  const K_2: seq<bv32> := [
    0x27b70a85, 0x2e1b2138, 0x4d2c6dfc, 0x53380d13, 0x650a7354, 0x766a0abb, 0x81c2c92e, 0x92722c85,
    0xa2bfe8a1, 0xa81a664b, 0xc24b8b70, 0xc76c51a3, 0xd192e819, 0xd6990624, 0xf40e3585, 0x106aa070]
  const K_3: seq<bv32> := [
    0x19a4c116, 0x1e376c08, 0x2748774c, 0x34b0bcb5, 0x391c0cb3, 0x4ed8aa4a, 0x5b9cca4f, 0x682e6ff3,
    0x748f82ee, 0x78a5636f, 0x84c87814, 0x8cc70208, 0x90befffa, 0xa4506ceb, 0xbef9a3f7, 0xc67178f2]

  function K256(t: nat): bv32
    requires t < 64
  {
    if t < 16 then K_0[t] else if t < 32 then K_1[t - 16] else if t < 48 then K_2[t - 32] else K_3[t - 48]
  }

  const INITIAL_HASH_VALUE: seq<bv32> := [
    0x6a09e667, 0xbb67ae85, 0x3c6ef372, 0xa54ff53a, 0x510e527f, 0x9b05688c, 0x1f83d9ab, 0x5be0cd19]

  // Words and bytes, most significant byte first.

  function BigWord(b0: bv8, b1: bv8, b2: bv8, b3: bv8): bv32 {
    ((b0 as bv32) << 24) | ((b1 as bv32) << 16) | ((b2 as bv32) << 8) | (b3 as bv32)
  }

  function BigBytes(w: bv32): (s: seq<bv8>)
    ensures |s| == 4
  {
    [(w >> 24) as bv8, ((w >> 16) & 0xff) as bv8, ((w >> 8) & 0xff) as bv8, (w & 0xff) as bv8]
  }

  function BigBytes64(w: bv64): (s: seq<bv8>)
    ensures |s| == 8
  {
    [(w >> 56) as bv8, ((w >> 48) & 0xff) as bv8, ((w >> 40) & 0xff) as bv8, ((w >> 32) & 0xff) as bv8,
     ((w >> 24) & 0xff) as bv8, ((w >> 16) & 0xff) as bv8, ((w >> 8) & 0xff) as bv8, (w & 0xff) as bv8]
  }

  // The hash computation.

  /** The working variables. */
  datatype Working = Working(a: bv32, b: bv32, c: bv32, d: bv32, e: bv32, f: bv32, g: bv32, h: bv32)

  function Round(v: Working, k: bv32, w: bv32): Working {
    var t1 := Add(Add(Add(Add(v.h, Sigma1(v.e)), Ch(v.e, v.f, v.g)), k), w);
    var t2 := Add(Sigma0(v.a), Maj(v.a, v.b, v.c));
    Working(Add(t1, t2), v.a, v.b, v.c, Add(v.d, t1), v.e, v.f, v.g)
  }

  /** The message schedule: word t of 64. */
  function Schedule(block: seq<bv32>, t: nat): bv32
    requires |block| == 16
  {
    if t < 16 then block[t]
    else
      Add(Add(Add(SmallSigma1(Schedule(block, t - 2)), Schedule(block, t - 7)), SmallSigma0(Schedule(block, t - 15))),
        Schedule(block, t - 16))
  }

  /** The working variables after the first n rounds. */
  function Rounds(v: Working, block: seq<bv32>, n: nat): Working
    requires |block| == 16 && n <= 64
  {
    if n == 0 then v else Round(Rounds(v, block, n - 1), K256(n - 1), Schedule(block, n - 1))
  }

  function Start(hash: seq<bv32>): Working
    requires |hash| == 8
  {
    Working(hash[0], hash[1], hash[2], hash[3], hash[4], hash[5], hash[6], hash[7])
  }

  function AddTo(hash: seq<bv32>, v: Working): (next: seq<bv32>)
    requires |hash| == 8
    ensures |next| == 8
  {
    [Add(hash[0], v.a), Add(hash[1], v.b), Add(hash[2], v.c), Add(hash[3], v.d),
     Add(hash[4], v.e), Add(hash[5], v.f), Add(hash[6], v.g), Add(hash[7], v.h)]
  }

  /** The intermediate hash value after one more block. */
  function Compress(hash: seq<bv32>, block: seq<bv32>): (next: seq<bv32>)
    requires |hash| == 8 && |block| == 16
    ensures |next| == 8
  {
    AddTo(hash, Rounds(Start(hash), block, 64))
  }

  /** Parsing 64 bytes into 16 words. */
  function Words(bytes: seq<bv8>): (block: seq<bv32>)
    requires |bytes| == 64
    ensures |block| == 16
  {
    seq(16, i requires 0 <= i < 16 => BigWord(bytes[4 * i], bytes[4 * i + 1], bytes[4 * i + 2], bytes[4 * i + 3]))
  }

  /** The hash value after all the blocks of `bytes`. */
  function HashBlocks(hash: seq<bv32>, bytes: seq<bv8>): (next: seq<bv32>)
    requires |hash| == 8 && |bytes| % 64 == 0
    ensures |next| == 8
    decreases |bytes|
  {
    if bytes == [] then hash
    else
      var init := |bytes| - 64;
      Compress(HashBlocks(hash, bytes[..init]), Words(bytes[init..]))
  }

  lemma HashNextBlock(hash: seq<bv32>, bytes: seq<bv8>, block: seq<bv8>)
    requires |hash| == 8 && |bytes| % 64 == 0 && |block| == 64
    ensures |bytes + block| % 64 == 0
    ensures HashBlocks(hash, bytes + block) == Compress(HashBlocks(hash, bytes), Words(block))
  {
    hide Compress, Words;
    assert (bytes + block)[..|bytes|] == bytes && (bytes + block)[|bytes|..] == block;
  }

  // Padding.

  const MESSAGE_LIMIT := 0x2000_0000_0000_0000

  function Zeros(n: nat): (s: seq<bv8>)
    ensures |s| == n && forall i :: 0 <= i < n ==> s[i] == 0
  {
    seq(n, _ => 0)
  }

  /** The number of zero bytes: the smallest that leaves eight bytes of a block. */
  function ZeroBytes(length: nat): (k: nat)
    ensures k < 64 && (length + 1 + k) % 64 == 56
  {
    (119 - length % 64) % 64
  }

  /** A number of bits as 64 of them. */
  function LengthField(bits: nat): (s: seq<bv8>)
    requires bits < 0x1_0000_0000_0000_0000
    ensures |s| == 8
  {
    BigBytes64(bits as bv64)
  }

  /** The message, a one bit, zero bits, and the message's length in bits. */
  function Padded(message: seq<bv8>): (s: seq<bv8>)
    requires |message| < MESSAGE_LIMIT
  {
    message + [0x80] + Zeros(ZeroBytes(|message|)) + LengthField(8 * |message|)
  }

  lemma PaddedSize(message: seq<bv8>)
    requires |message| < MESSAGE_LIMIT
    ensures |Padded(message)| % 64 == 0
  {
    hide LengthField, Zeros, ZeroBytes;
  }

  function HashBytes(hash: seq<bv32>): (s: seq<bv8>)
    ensures |s| == 4 * |hash|
  {
    if hash == [] then [] else HashBytes(hash[..|hash| - 1]) + BigBytes(hash[|hash| - 1])
  }

  /** The message digest. */
  function Digest(message: seq<bv8>): (digest: seq<bv8>)
    requires |message| < MESSAGE_LIMIT
    ensures |digest| == 32
  {
    PaddedSize(message);
    HashBytes(HashBlocks(INITIAL_HASH_VALUE, Padded(message)))
  }
}
