/** What the functions of FIPS 180-4 (sections 3.2 and 4.1.2) do to single bits. */
module Sha256Bits {
  import opened Sha256Standard

  /** Bit i, counted from the least significant one. */
  predicate Bit(x: bv32, i: bv6)
    requires i < 32
  {
    (x >> i) & 1 == 1
  }

  function Xor(x: bv32, y: bv32): bv32 {
    x ^ y
  }

  function And(x: bv32, y: bv32): bv32 {
    x & y
  }

  function Not(x: bv32): bv32 {
    !x
  }

  lemma XorBit(x: bv32, y: bv32, i: bv6)
    requires i < 32
    ensures Bit(Xor(x, y), i) <==> Bit(x, i) != Bit(y, i)
  {
    ExclusiveBit(x, y, i);
    hide Bit;
  }

  lemma ExclusiveBit(x: bv32, y: bv32, i: bv6)
    requires i < 32
    ensures Bit(x ^ y, i) <==> Bit(x, i) != Bit(y, i)
  {
  }

  lemma AndBit(x: bv32, y: bv32, i: bv6)
    requires i < 32
    ensures Bit(And(x, y), i) <==> Bit(x, i) && Bit(y, i)
  {
  }

  lemma NotBit(x: bv32, i: bv6)
    requires i < 32
    ensures Bit(Not(x), i) <==> !Bit(x, i)
  {
  }

  lemma RotR2(x: bv32, i: bv6)
    requires i < 32
    ensures Bit(RotR(2, x), i) <==> Bit(x, (i + 2) & 31)
  {
  }

  lemma RotR6(x: bv32, i: bv6)
    requires i < 32
    ensures Bit(RotR(6, x), i) <==> Bit(x, (i + 6) & 31)
  {
  }

  lemma RotR7(x: bv32, i: bv6)
    requires i < 32
    ensures Bit(RotR(7, x), i) <==> Bit(x, (i + 7) & 31)
  {
  }

  lemma RotR11(x: bv32, i: bv6)
    requires i < 32
    ensures Bit(RotR(11, x), i) <==> Bit(x, (i + 11) & 31)
  {
  }

  lemma RotR13(x: bv32, i: bv6)
    requires i < 32
    ensures Bit(RotR(13, x), i) <==> Bit(x, (i + 13) & 31)
  {
  }

  lemma RotR17(x: bv32, i: bv6)
    requires i < 32
    ensures Bit(RotR(17, x), i) <==> Bit(x, (i + 17) & 31)
  {
  }

  lemma RotR18(x: bv32, i: bv6)
    requires i < 32
    ensures Bit(RotR(18, x), i) <==> Bit(x, (i + 18) & 31)
  {
  }

  lemma RotR19(x: bv32, i: bv6)
    requires i < 32
    ensures Bit(RotR(19, x), i) <==> Bit(x, (i + 19) & 31)
  {
  }

  lemma RotR22(x: bv32, i: bv6)
    requires i < 32
    ensures Bit(RotR(22, x), i) <==> Bit(x, (i + 22) & 31)
  {
  }

  lemma RotR25(x: bv32, i: bv6)
    requires i < 32
    ensures Bit(RotR(25, x), i) <==> Bit(x, (i + 25) & 31)
  {
  }

  lemma ShR3(x: bv32, i: bv6)
    requires i < 32
    ensures Bit(ShR(3, x), i) <==> i < 29 && Bit(x, i + 3)
  {
  }

  lemma ShR10(x: bv32, i: bv6)
    requires i < 32
    ensures Bit(ShR(10, x), i) <==> i < 22 && Bit(x, i + 10)
  {
  }

  lemma XorOfThree(x: bv32, y: bv32, z: bv32, i: bv6)
    requires i < 32
    ensures Bit(Xor(Xor(x, y), z), i) <==> ((Bit(x, i) != Bit(y, i)) != Bit(z, i))
  {
    hide *;
    XorBit(x, y, i);
    XorBit(Xor(x, y), z, i);
  }

  lemma InParts(x: bv32)
    ensures Sigma0(x) == Xor(Xor(RotR(2, x), RotR(13, x)), RotR(22, x))
    ensures Sigma1(x) == Xor(Xor(RotR(6, x), RotR(11, x)), RotR(25, x))
    ensures SmallSigma0(x) == Xor(Xor(RotR(7, x), RotR(18, x)), ShR(3, x))
    ensures SmallSigma1(x) == Xor(Xor(RotR(17, x), RotR(19, x)), ShR(10, x))
  {
    hide RotR, ShR;
  }

  lemma ChInParts(x: bv32, y: bv32, z: bv32)
    ensures Ch(x, y, z) == Xor(And(x, y), And(Not(x), z))
  {
    assert And(x, y) == x & y;
    assert Not(x) == !x;
    assert And(Not(x), z) == (!x) & z;
  }

  lemma MajInParts(x: bv32, y: bv32, z: bv32)
    ensures Maj(x, y, z) == Xor(Xor(And(x, y), And(x, z)), And(y, z))
  {
    assert And(x, y) == x & y && And(x, z) == x & z && And(y, z) == y & z;
    hide And;
    assert Xor(x & y, x & z) == (x & y) ^ (x & z);
  }

  lemma Sigma0Bits(x: bv32, i: bv6)
    requires i < 32
    ensures Bit(Sigma0(x), i) <==> ((Bit(x, (i + 2) & 31) != Bit(x, (i + 13) & 31)) != Bit(x, (i + 22) & 31))
  {
    hide *;
    InParts(x);
    RotR2(x, i);
    RotR13(x, i);
    RotR22(x, i);
    XorOfThree(RotR(2, x), RotR(13, x), RotR(22, x), i);
  }

  lemma Sigma1Bits(x: bv32, i: bv6)
    requires i < 32
    ensures Bit(Sigma1(x), i) <==> ((Bit(x, (i + 6) & 31) != Bit(x, (i + 11) & 31)) != Bit(x, (i + 25) & 31))
  {
    hide *;
    InParts(x);
    RotR6(x, i);
    RotR11(x, i);
    RotR25(x, i);
    XorOfThree(RotR(6, x), RotR(11, x), RotR(25, x), i);
  }

  lemma SmallSigma0Bits(x: bv32, i: bv6)
    requires i < 32
    ensures Bit(SmallSigma0(x), i) <==>
      ((Bit(x, (i + 7) & 31) != Bit(x, (i + 18) & 31)) != (i < 29 && Bit(x, i + 3)))
  {
    hide *;
    InParts(x);
    RotR7(x, i);
    RotR18(x, i);
    ShR3(x, i);
    XorOfThree(RotR(7, x), RotR(18, x), ShR(3, x), i);
  }

  lemma SmallSigma1Bits(x: bv32, i: bv6)
    requires i < 32
    ensures Bit(SmallSigma1(x), i) <==>
      ((Bit(x, (i + 17) & 31) != Bit(x, (i + 19) & 31)) != (i < 22 && Bit(x, i + 10)))
  {
    hide *;
    InParts(x);
    RotR17(x, i);
    RotR19(x, i);
    ShR10(x, i);
    XorOfThree(RotR(17, x), RotR(19, x), ShR(10, x), i);
  }

  /** Each bit of x chooses between y and z. */
  lemma ChBits(x: bv32, y: bv32, z: bv32, i: bv6)
    requires i < 32
    ensures Bit(Ch(x, y, z), i) <==> if Bit(x, i) then Bit(y, i) else Bit(z, i)
  {
    hide *;
    ChInParts(x, y, z);
    AndBit(x, y, i);
    NotBit(x, i);
    AndBit(Not(x), z, i);
    XorBit(And(x, y), And(Not(x), z), i);
  }

  /** The majority of the three. */
  lemma MajBits(x: bv32, y: bv32, z: bv32, i: bv6)
    requires i < 32
    ensures Bit(Maj(x, y, z), i) <==> (Bit(x, i) && Bit(y, i)) || (Bit(x, i) && Bit(z, i)) || (Bit(y, i) && Bit(z, i))
  {
    hide *;
    MajInParts(x, y, z);
    AndBit(x, y, i);
    AndBit(x, z, i);
    AndBit(y, z, i);
    XorOfThree(And(x, y), And(x, z), And(y, z), i);
  }

  // Words and bytes.

  /** The bytes of a word are its bits from the most significant ones on. */
  lemma BytesOfWord(w: bv32)
    ensures var s := BigBytes(w);
      BigWord(s[0], s[1], s[2], s[3]) == w && s[0] as bv32 == w >> 24 && s[3] as bv32 == w & 0xff
  {
  }

  lemma WordOfBytes(a: bv8, b: bv8, c: bv8, d: bv8)
    ensures BigBytes(BigWord(a, b, c, d)) == [a, b, c, d]
  {
  }

  lemma BytesOfLength(w: bv64)
    ensures var s := BigBytes64(w);
      ((s[0] as bv64) << 56) | ((s[1] as bv64) << 48) | ((s[2] as bv64) << 40) | ((s[3] as bv64) << 32)
      | ((s[4] as bv64) << 24) | ((s[5] as bv64) << 16) | ((s[6] as bv64) << 8) | (s[7] as bv64) == w
  {
  }
}
