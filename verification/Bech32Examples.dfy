/** Examples of BIP 173: two of its valid strings, and the first of its addresses. */
module Bech32Examples {
  import opened Bytes
  import opened Radix
  import opened Bech32Checksum
  import opened Bech32
  import opened Segwit

  /** The checksum's state after some symbols. */
  predicate Fed(symbols: seq<Symbol>, chk: bv32) {
    FeedAll(1, symbols) == chk
  }

  predicate Feeds(chk: bv32, v: Symbol, next: bv32) {
    Feed(chk, v) == next
  }

  lemma FedNothing()
    ensures Fed([], 1)
  {
  }

  lemma FedOne(s: seq<Symbol>, c0: bv32, v0: Symbol, c1: bv32)
    requires Fed(s, c0) && Feeds(c0, v0, c1)
    ensures Fed(s + [v0], c1)
  {
    hide Feed;
    FeedSnoc(1, s, v0);
  }

  lemma FedFour(s: seq<Symbol>, c0: bv32, v0: Symbol, c1: bv32, v1: Symbol, c2: bv32, v2: Symbol, c3: bv32, v3: Symbol,
      c4: bv32)
    requires Fed(s, c0) && Feeds(c0, v0, c1) && Feeds(c1, v1, c2) && Feeds(c2, v2, c3) && Feeds(c3, v3, c4)
    ensures Fed(s + [v0, v1, v2, v3], c4)
  {
    hide *;
    FedOne(s, c0, v0, c1);
    FedOne(s + [v0], c1, v1, c2);
    FedOne(s + [v0] + [v1], c2, v2, c3);
    FedOne(s + [v0] + [v1] + [v2], c3, v3, c4);
    assert s + [v0] + [v1] + [v2] + [v3] == s + [v0, v1, v2, v3];
  }

  const DATA_0: seq<Symbol> := [0, 1, 2, 3, 4, 5, 6, 7]
  const DATA_1: seq<Symbol> := [8, 9, 10, 11, 12, 13, 14, 15]
  const DATA_2: seq<Symbol> := [16, 17, 18, 19, 20, 21, 22, 23]
  const DATA_3: seq<Symbol> := [24, 25, 26, 27, 28, 29, 30, 31]
  const ABCDEF_CHECK: seq<Symbol> := [27, 0, 0, 0, 6, 14]

  lemma AbcdefFeeds0()
    ensures Feeds(1, 3, 0x00000023) && Feeds(0x00000023, 3, 0x00000463)
    ensures Feeds(0x00000463, 3, 0x00008c63) && Feeds(0x00008c63, 3, 0x00118c63)
    ensures Feeds(0x00118c63, 3, 0x02318c63) && Feeds(0x02318c63, 3, 0x3d5bdbd1)
    ensures Feeds(0x3d5bdbd1, 0, 0x04dcbcd9) && Feeds(0x04dcbcd9, 1, 0x3dc7154c)
    ensures Feeds(0x3dc7154c, 2, 0x17456f7b) && Feeds(0x17456f7b, 3, 0x08d50561)
    ensures Feeds(0x08d50561, 4, 0x0401b5de) && Feeds(0x0401b5de, 5, 0x266635a8)
    ensures Feeds(0x266635a8, 6, 0x3be80e6a)
  {
  }

  lemma AbcdefFed0()
    ensures Fed([3, 3, 3, 3, 3, 3, 0, 1, 2, 3, 4, 5, 6], 0x3be80e6a)
  {
    hide *;
    AbcdefFeeds0();
    FedNothing();
    FedFour([], 1, 3, 0x00000023, 3, 0x00000463, 3, 0x00008c63, 3, 0x00118c63);
    FedFour([] + [3, 3, 3, 3], 0x00118c63, 3, 0x02318c63, 3, 0x3d5bdbd1, 0, 0x04dcbcd9, 1, 0x3dc7154c);
    FedFour([] + [3, 3, 3, 3] + [3, 3, 0, 1], 0x3dc7154c, 2, 0x17456f7b, 3, 0x08d50561, 4, 0x0401b5de, 5, 0x266635a8);
    FedOne([] + [3, 3, 3, 3] + [3, 3, 0, 1] + [2, 3, 4, 5], 0x266635a8, 6, 0x3be80e6a);
    assert [] + [3, 3, 3, 3] + [3, 3, 0, 1] + [2, 3, 4, 5] + [6] == [3, 3, 3, 3, 3, 3, 0, 1, 2, 3, 4, 5, 6];
  }

  lemma AbcdefFeeds1()
    ensures Feeds(0x3be80e6a, 0, 0x0f9cd266) && Feeds(0x0f9cd266, 1, 0x30018ce4)
    ensures Feeds(0x30018ce4, 2, 0x1767cdec) && Feeds(0x1767cdec, 3, 0x0c815781)
    ensures Feeds(0x0c815781, 4, 0x28db67b3) && Feeds(0x28db67b3, 5, 0x2fd98d2c)
    ensures Feeds(0x2fd98d2c, 6, 0x12be0710) && Feeds(0x12be0710, 7, 0x11e88668)
  {
  }

  lemma AbcdefFed1(s: seq<Symbol>)
    requires Fed(s, 0x3be80e6a)
    ensures Fed(s + DATA_0, 0x11e88668)
  {
    AbcdefFeeds1();
    hide Fed, Feeds;
    FedFour(s, 0x3be80e6a, 0, 0x0f9cd266, 1, 0x30018ce4, 2, 0x1767cdec, 3, 0x0c815781);
    FedFour(s + [0, 1, 2, 3], 0x0c815781, 4, 0x28db67b3, 5, 0x2fd98d2c, 6, 0x12be0710, 7, 0x11e88668);
    assert s + [0, 1, 2, 3] + [4, 5, 6, 7] == s + DATA_0;
  }

  lemma AbcdefFeeds2()
    ensures Feeds(0x11e88668, 8, 0x0052fed5) && Feeds(0x0052fed5, 9, 0x0a5fdaa9)
    ensures Feeds(0x0a5fdaa9, 10, 0x2e301b62) && Feeds(0x2e301b62, 11, 0x2f8ccedd)
    ensures Feeds(0x2f8ccedd, 12, 0x1816793a) && Feeds(0x1816793a, 13, 0x212c0d6a)
    ensures Feeds(0x212c0d6a, 14, 0x0f95cffd) && Feeds(0x0f95cffd, 15, 0x31223f8a)
  {
  }

  lemma AbcdefFed2(s: seq<Symbol>)
    requires Fed(s, 0x11e88668)
    ensures Fed(s + DATA_1, 0x31223f8a)
  {
    AbcdefFeeds2();
    hide Fed, Feeds;
    FedFour(s, 0x11e88668, 8, 0x0052fed5, 9, 0x0a5fdaa9, 10, 0x2e301b62, 11, 0x2f8ccedd);
    FedFour(s + [8, 9, 10, 11], 0x2f8ccedd, 12, 0x1816793a, 13, 0x212c0d6a, 14, 0x0f95cffd, 15, 0x31223f8a);
    assert s + [8, 9, 10, 11] + [12, 13, 14, 15] == s + DATA_1;
  }

  lemma AbcdefFeeds3()
    ensures Feeds(0x31223f8a, 16, 0x3311a03e) && Feeds(0x3311a03e, 17, 0x0e08010d)
    ensures Feeds(0x0e08010d, 18, 0x029be197) && Feeds(0x029be197, 19, 0x28166541)
    ensures Feeds(0x28166541, 20, 0x3679d37d) && Feeds(0x3679d37d, 21, 0x0556e704)
    ensures Feeds(0x0556e704, 22, 0x0c8c6efb) && Feeds(0x0c8c6efb, 23, 0x297c48e0)
  {
  }

  lemma AbcdefFed3(s: seq<Symbol>)
    requires Fed(s, 0x31223f8a)
    ensures Fed(s + DATA_2, 0x297c48e0)
  {
    AbcdefFeeds3();
    hide Fed, Feeds;
    FedFour(s, 0x31223f8a, 16, 0x3311a03e, 17, 0x0e08010d, 18, 0x029be197, 19, 0x28166541);
    FedFour(s + [16, 17, 18, 19], 0x28166541, 20, 0x3679d37d, 21, 0x0556e704, 22, 0x0c8c6efb, 23, 0x297c48e0);
    assert s + [16, 17, 18, 19] + [20, 21, 22, 23] == s + DATA_2;
  }

  lemma AbcdefFeeds4()
    ensures Feeds(0x297c48e0, 24, 0x1b3c6751) && Feeds(0x1b3c6751, 25, 0x3f0597ac)
    ensures Feeds(0x3f0597ac, 26, 0x347f64d1) && Feeds(0x347f64d1, 27, 0x3eea4538)
    ensures Feeds(0x3eea4538, 28, 0x09853657) && Feeds(0x09853657, 29, 0x2e07d307)
    ensures Feeds(0x2e07d307, 30, 0x2975c268) && Feeds(0x2975c268, 31, 0x1a0d3656)
  {
  }

  lemma AbcdefFed4(s: seq<Symbol>)
    requires Fed(s, 0x297c48e0)
    ensures Fed(s + DATA_3, 0x1a0d3656)
  {
    AbcdefFeeds4();
    hide Fed, Feeds;
    FedFour(s, 0x297c48e0, 24, 0x1b3c6751, 25, 0x3f0597ac, 26, 0x347f64d1, 27, 0x3eea4538);
    FedFour(s + [24, 25, 26, 27], 0x3eea4538, 28, 0x09853657, 29, 0x2e07d307, 30, 0x2975c268, 31, 0x1a0d3656);
    assert s + [24, 25, 26, 27] + [28, 29, 30, 31] == s + DATA_3;
  }

  lemma AbcdefFeeds5()
    ensures Feeds(0x1a0d3656, 27, 0x192fb74e) && Feeds(0x192fb74e, 0, 0x0615c3e7)
    ensures Feeds(0x0615c3e7, 0, 0x1f82a53f) && Feeds(0x1f82a53f, 0, 0x0e8d5418)
    ensures Feeds(0x0e8d5418, 6, 0x12314323) && Feeds(0x12314323, 14, 1)
  {
  }

  lemma AbcdefFed5(s: seq<Symbol>)
    requires Fed(s, 0x1a0d3656)
    ensures Fed(s + ABCDEF_CHECK, 1)
  {
    AbcdefFeeds5();
    hide Fed, Feeds;
    FedFour(s, 0x1a0d3656, 27, 0x192fb74e, 0, 0x0615c3e7, 0, 0x1f82a53f, 0, 0x0e8d5418);
    FedOne(s + [27, 0, 0, 0], 0x0e8d5418, 6, 0x12314323);
    FedOne(s + [27, 0, 0, 0] + [6], 0x12314323, 14, 1);
    assert s + [27, 0, 0, 0] + [6] + [14] == s + ABCDEF_CHECK;
  }

  lemma AbcdefHrp()
    ensures Expand("abcdef") == [3, 3, 3, 3, 3, 3, 0, 1, 2, 3, 4, 5, 6]
  {
  }

  /** The symbols from 0 to 31. */
  const ALL_SYMBOLS: seq<Symbol> := DATA_0 + DATA_1 + DATA_2 + DATA_3

  lemma InRow(s: seq<Symbol>, a: seq<Symbol>, b: seq<Symbol>, c: seq<Symbol>, d: seq<Symbol>, e: seq<Symbol>)
    ensures s + a + b + c + d + e == s + ((a + b + c + d) + e)
  {
  }

  lemma AbcdefState()
    ensures State("abcdef", ALL_SYMBOLS + ABCDEF_CHECK) == 1
  {
    AbcdefHrp();
    AbcdefFed0();
    var s := Expand("abcdef");
    hide Fed, Expand;
    AbcdefFed1(s);
    AbcdefFed2(s + DATA_0);
    AbcdefFed3(s + DATA_0 + DATA_1);
    AbcdefFed4(s + DATA_0 + DATA_1 + DATA_2);
    AbcdefFed5(s + DATA_0 + DATA_1 + DATA_2 + DATA_3);
    InRow(s, DATA_0, DATA_1, DATA_2, DATA_3, ABCDEF_CHECK);
    hide DATA_0, DATA_1, DATA_2, DATA_3, ABCDEF_CHECK;
    StateIs("abcdef", ALL_SYMBOLS + ABCDEF_CHECK);
  }

  lemma StateIs(hrp: string, symbols: seq<Symbol>)
    requires Fed(Expand(hrp) + symbols, 1)
    ensures State(hrp, symbols) == 1
  {
    hide Expand;
  }

  /** What six symbols that lead to 1 make of the string. */
  lemma ByChecksum(hrp: string, data: seq<Symbol>, check: seq<Symbol>)
    requires |check| == 6 && State(hrp, data + check) == 1
    ensures BechString(hrp, data) == hrp + ['1'] + (Chars(data) + Chars(check))
  {
    hide *;
    StateAppend(hrp, data, check);
    ChecksumUnique(State(hrp, data), check);
    ChecksumOfIs(hrp, data);
    BechStringIs(hrp, data);
    CharsAppend(data, check);
  }

  lemma ChecksumOfIs(hrp: string, data: seq<Symbol>)
    ensures ChecksumOf(hrp, data) == Checksum(State(hrp, data))
  {
    hide Checksum, State;
  }

  lemma CharsAppend(a: seq<Symbol>, b: seq<Symbol>)
    ensures Chars(a + b) == Chars(a) + Chars(b)
  {
    hide Charset;
  }

  lemma CharsOfRows(a: seq<Symbol>, b: seq<Symbol>, c: seq<Symbol>, d: seq<Symbol>)
    ensures Chars(a + b + c + d) == Chars(a) + Chars(b) + Chars(c) + Chars(d)
  {
    hide Chars;
    CharsAppend(a, b);
    CharsAppend(a + b, c);
    CharsAppend(a + b + c, d);
  }

  lemma DATA_0Chars()
    ensures Chars(DATA_0) == "qpzry9x8"
  {
  }

  lemma DATA_1Chars()
    ensures Chars(DATA_1) == "gf2tvdw0"
  {
  }

  lemma DATA_2Chars()
    ensures Chars(DATA_2) == "s3jn54kh"
  {
  }

  lemma DATA_3Chars()
    ensures Chars(DATA_3) == "ce6mua7l"
  {
  }

  lemma ABCDEF_CHECKChars()
    ensures Chars(ABCDEF_CHECK) == "mqqqxw"
  {
  }

  lemma AbcdefString()
    ensures BechString("abcdef", ALL_SYMBOLS) == "abcdef1qpzry9x8gf2tvdw0s3jn54khce6mua7lmqqqxw"
  {
    hide *;
    RowsOfAll();
    AbcdefState();
    ByChecksum("abcdef", ALL_SYMBOLS, ABCDEF_CHECK);
    CharsOfRows(DATA_0, DATA_1, DATA_2, DATA_3);
    DATA_0Chars();
    DATA_1Chars();
    DATA_2Chars();
    DATA_3Chars();
    ABCDEF_CHECKChars();
    AbcdefText();
  }

  lemma AbcdefText()
    ensures "abcdef" + ['1'] + ("qpzry9x8" + "gf2tvdw0" + "s3jn54kh" + "ce6mua7l" + "mqqqxw")
      == "abcdef1qpzry9x8gf2tvdw0s3jn54khce6mua7lmqqqxw"
  {
  }

  lemma RowsOfAll()
    ensures ALL_SYMBOLS == DATA_0 + DATA_1 + DATA_2 + DATA_3 && |ABCDEF_CHECK| == 6
  {
  }

  lemma AllInOrder(i: nat)
    requires i < 32
    ensures |ALL_SYMBOLS| == 32 && ALL_SYMBOLS[i] == i
  {
  }

  lemma AbcdefEncodable()
    ensures Encodable("abcdef", ALL_SYMBOLS)
  {
    assert forall i :: 0 <= i < 6 ==> HrpChar("abcdef"[i]) && !IsUpper("abcdef"[i]);
    AllInOrder(0);
    hide ALL_SYMBOLS;
  }

  /** A valid string, with every symbol in its place. */
  lemma AbcdefDecoded()
    ensures var s := "abcdef1qpzry9x8gf2tvdw0s3jn54khce6mua7lmqqqxw";
      WellFormed(s) && Shaped(s) && DecodedHrp(s) == "abcdef"
      && |DecodedData(s)| == 32 && forall i :: 0 <= i < 32 ==> DecodedData(s)[i] == i
  {
    hide *;
    AbcdefString();
    AbcdefEncodable();
    DecodeEncoded("abcdef", ALL_SYMBOLS);
    AllInOrder(0);
    forall i | 0 <= i < 32 ensures ALL_SYMBOLS[i] == i {
      AllInOrder(i);
    }
  }

  // A string in capitals, with no data.

  const CAPITAL_CHECK: seq<Symbol> := [10, 28, 25, 31, 20, 31]

  lemma CapitalFeeds0()
    ensures Feeds(1, 3, 0x00000023) && Feeds(0x00000023, 0, 0x00000460)
    ensures Feeds(0x00000460, 1, 0x00008c01)
  {
  }

  lemma CapitalFed0()
    ensures Fed([3, 0, 1], 0x00008c01)
  {
    hide *;
    CapitalFeeds0();
    FedNothing();
    FedOne([], 1, 3, 0x00000023);
    FedOne([] + [3], 0x00000023, 0, 0x00000460);
    FedOne([] + [3] + [0], 0x00000460, 1, 0x00008c01);
    assert [] + [3] + [0] + [1] == [3, 0, 1];
  }

  lemma CapitalFeeds1()
    ensures Feeds(0x00008c01, 10, 0x0011802a) && Feeds(0x0011802a, 28, 0x0230055c)
    ensures Feeds(0x0230055c, 25, 0x3d6afc2b) && Feeds(0x3d6afc2b, 31, 0x02f84386)
    ensures Feeds(0x02f84386, 20, 0x24622766) && Feeds(0x24622766, 31, 1)
  {
  }

  lemma CapitalFed1(s: seq<Symbol>)
    requires Fed(s, 0x00008c01)
    ensures Fed(s + CAPITAL_CHECK, 1)
  {
    CapitalFeeds1();
    hide Fed, Feeds;
    FedFour(s, 0x00008c01, 10, 0x0011802a, 28, 0x0230055c, 25, 0x3d6afc2b, 31, 0x02f84386);
    FedOne(s + [10, 28, 25, 31], 0x02f84386, 20, 0x24622766);
    FedOne(s + [10, 28, 25, 31] + [20], 0x24622766, 31, 1);
    assert s + [10, 28, 25, 31] + [20] + [31] == s + CAPITAL_CHECK;
  }

  lemma CapitalHrp()
    ensures Expand("a") == [3, 0, 1]
  {
  }

  lemma CapitalParts()
    ensures var s := "A12UEL5L";
      && LastOne(s) == 1 && HrpPart(s) == "A" && DataPart(s) == "2UEL5L" && Lower("A") == "a"
      && HrpChars("A") && !HasLower(s)
  {
    var s := "A12UEL5L";
    LastOneIs(s, 1);
    assert forall i :: 0 <= i < 8 ==> !IsLower(s[i]);
    hide LastOne;
  }

  lemma CapitalSymbols()
    ensures AllInCharset("2UEL5L") && Symbols("2UEL5L") == CAPITAL_CHECK
  {
  }

  /** A valid string in capitals, with no data. */
  lemma CapitalDecoded()
    ensures var s := "A12UEL5L"; WellFormed(s) && Shaped(s) && DecodedHrp(s) == "a" && DecodedData(s) == []
  {
    CapitalParts();
    CapitalSymbols();
    CapitalHrp();
    CapitalFed0();
    CapitalFed1(Expand("a"));
    hide Fed, Expand, LastOne, HrpPart, DataPart, HrpChars, AllInCharset, HasLower, HasUpper, Symbols, Lower;
    StateIs("a", CAPITAL_CHECK);
    hide State;
  }

  // An address.

  const VERSION: seq<Symbol> := [0]
  const PROGRAM_0: seq<Symbol> := [14, 20, 15, 7, 13, 26, 0, 25]
  const PROGRAM_1: seq<Symbol> := [18, 6, 11, 13, 8, 21, 4, 20]
  const PROGRAM_2: seq<Symbol> := [3, 17, 2, 29, 3, 12, 29, 3]
  const PROGRAM_3: seq<Symbol> := [4, 15, 24, 20, 6, 14, 30, 22]
  const ADDRESS_CHECK: seq<Symbol> := [12, 7, 9, 17, 11, 21]

  lemma AddressFeeds0()
    ensures Feeds(1, 3, 0x00000023) && Feeds(0x00000023, 3, 0x00000463)
    ensures Feeds(0x00000463, 0, 0x00008c60) && Feeds(0x00008c60, 2, 0x00118c02)
    ensures Feeds(0x00118c02, 3, 0x02318043)
  {
  }

  lemma AddressFed0()
    ensures Fed([3, 3, 0, 2, 3], 0x02318043)
  {
    hide *;
    AddressFeeds0();
    FedNothing();
    FedFour([], 1, 3, 0x00000023, 3, 0x00000463, 0, 0x00008c60, 2, 0x00118c02);
    FedOne([] + [3, 3, 0, 2], 0x00118c02, 3, 0x02318043);
    assert [] + [3, 3, 0, 2] + [3] == [3, 3, 0, 2, 3];
  }

  lemma AddressFeeds1()
    ensures Feeds(0x02318043, 0, 0x3d5a5fd2)
  {
  }

  lemma AddressFed1(s: seq<Symbol>)
    requires Fed(s, 0x02318043)
    ensures Fed(s + VERSION, 0x3d5a5fd2)
  {
    AddressFeeds1();
    hide Fed, Feeds;
    FedOne(s, 0x02318043, 0, 0x3d5a5fd2);
    assert s + [0] == s + VERSION;
  }

  lemma AddressFeeds2()
    ensures Feeds(0x3d5a5fd2, 14, 0x04ec3cb7) && Feeds(0x04ec3cb7, 20, 0x3bd71899)
    ensures Feeds(0x3bd71899, 15, 0x087e0c09) && Feeds(0x087e0c09, 7, 0x116098dd)
    ensures Feeds(0x116098dd, 13, 0x11512870) && Feeds(0x11512870, 26, 0x17673dc7)
    ensures Feeds(0x17673dc7, 0, 0x0c9f52e2) && Feeds(0x0c9f52e2, 25, 0x2b1bcbce)
  {
  }

  lemma AddressFed2(s: seq<Symbol>)
    requires Fed(s, 0x3d5a5fd2)
    ensures Fed(s + PROGRAM_0, 0x2b1bcbce)
  {
    AddressFeeds2();
    hide Fed, Feeds;
    FedFour(s, 0x3d5a5fd2, 14, 0x04ec3cb7, 20, 0x3bd71899, 15, 0x087e0c09, 7, 0x116098dd);
    FedFour(s + [14, 20, 15, 7], 0x116098dd, 13, 0x11512870, 26, 0x17673dc7, 0, 0x0c9f52e2, 25, 0x2b1bcbce);
    assert s + [14, 20, 15, 7] + [13, 26, 0, 25] == s + PROGRAM_0;
  }

  lemma AddressFeeds3()
    ensures Feeds(0x2b1bcbce, 18, 0x2ca65529) && Feeds(0x2ca65529, 6, 0x062f5002)
    ensures Feeds(0x062f5002, 11, 0x18d0d994) && Feeds(0x18d0d994, 13, 0x39f818aa)
    ensures Feeds(0x39f818aa, 8, 0x36f45ddc) && Feeds(0x36f45ddc, 21, 0x14e73324)
    ensures Feeds(0x14e73324, 4, 0x07f4d934) && Feeds(0x07f4d934, 20, 0x23a1ff4b)
  {
  }

  lemma AddressFed3(s: seq<Symbol>)
    requires Fed(s, 0x2b1bcbce)
    ensures Fed(s + PROGRAM_1, 0x23a1ff4b)
  {
    AddressFeeds3();
    hide Fed, Feeds;
    FedFour(s, 0x2b1bcbce, 18, 0x2ca65529, 6, 0x062f5002, 11, 0x18d0d994, 13, 0x39f818aa);
    FedFour(s + [18, 6, 11, 13], 0x39f818aa, 8, 0x36f45ddc, 21, 0x14e73324, 4, 0x07f4d934, 20, 0x23a1ff4b);
    assert s + [18, 6, 11, 13] + [8, 21, 4, 20] == s + PROGRAM_1;
  }

  lemma AddressFeeds4()
    ensures Feeds(0x23a1ff4b, 3, 0x2541dc62) && Feeds(0x2541dc62, 17, 0x247f608f)
    ensures Feeds(0x247f608f, 2, 0x03a8fd3c) && Feeds(0x03a8fd3c, 29, 0x0e75f02f)
    ensures Feeds(0x0e75f02f, 3, 0x0d25c5c6) && Feeds(0x0d25c5c6, 12, 0x1c492f5b)
    ensures Feeds(0x1c492f5b, 29, 0x0c964f37) && Feeds(0x0c964f37, 3, 0x2a387174)
  {
  }

  lemma AddressFed4(s: seq<Symbol>)
    requires Fed(s, 0x23a1ff4b)
    ensures Fed(s + PROGRAM_2, 0x2a387174)
  {
    AddressFeeds4();
    hide Fed, Feeds;
    FedFour(s, 0x23a1ff4b, 3, 0x2541dc62, 17, 0x247f608f, 2, 0x03a8fd3c, 29, 0x0e75f02f);
    FedFour(s + [3, 17, 2, 29], 0x0e75f02f, 3, 0x0d25c5c6, 12, 0x1c492f5b, 29, 0x0c964f37, 3, 0x2a387174);
    assert s + [3, 17, 2, 29] + [3, 12, 29, 3] == s + PROGRAM_2;
  }

  lemma AddressFeeds5()
    ensures Feeds(0x2a387174, 4, 0x08d1027f) && Feeds(0x08d1027f, 15, 0x04815615)
    ensures Feeds(0x04815615, 24, 0x367a4cd5) && Feeds(0x367a4cd5, 20, 0x05251205)
    ensures Feeds(0x05251205, 6, 0x02f2cecb) && Feeds(0x02f2cecb, 14, 0x25338edc)
    ensures Feeds(0x25338edc, 30, 0x2a353740) && Feeds(0x2a353740, 22, 0x0979c4ed)
  {
  }

  lemma AddressFed5(s: seq<Symbol>)
    requires Fed(s, 0x2a387174)
    ensures Fed(s + PROGRAM_3, 0x0979c4ed)
  {
    AddressFeeds5();
    hide Fed, Feeds;
    FedFour(s, 0x2a387174, 4, 0x08d1027f, 15, 0x04815615, 24, 0x367a4cd5, 20, 0x05251205);
    FedFour(s + [4, 15, 24, 20], 0x05251205, 6, 0x02f2cecb, 14, 0x25338edc, 30, 0x2a353740, 22, 0x0979c4ed);
    assert s + [4, 15, 24, 20] + [6, 14, 30, 22] == s + PROGRAM_3;
  }

  lemma AddressFeeds6()
    ensures Feeds(0x0979c4ed, 12, 0x31998456) && Feeds(0x31998456, 7, 0x2466dba9)
    ensures Feeds(0x2466dba9, 9, 0x009f99f7) && Feeds(0x009f99f7, 17, 0x13f33ef1)
    ensures Feeds(0x13f33ef1, 11, 0x384fba44) && Feeds(0x384fba44, 21, 1)
  {
  }

  lemma AddressFed6(s: seq<Symbol>)
    requires Fed(s, 0x0979c4ed)
    ensures Fed(s + ADDRESS_CHECK, 1)
  {
    AddressFeeds6();
    hide Fed, Feeds;
    FedFour(s, 0x0979c4ed, 12, 0x31998456, 7, 0x2466dba9, 9, 0x009f99f7, 17, 0x13f33ef1);
    FedOne(s + [12, 7, 9, 17], 0x13f33ef1, 11, 0x384fba44);
    FedOne(s + [12, 7, 9, 17] + [11], 0x384fba44, 21, 1);
    assert s + [12, 7, 9, 17] + [11] + [21] == s + ADDRESS_CHECK;
  }

  lemma AddressHrp()
    ensures Expand("bc") == [3, 3, 0, 2, 3]
  {
  }

  lemma VERSIONChars()
    ensures Chars(VERSION) == "q"
  {
  }

  lemma PROGRAM_0Chars()
    ensures Chars(PROGRAM_0) == "w508d6qe"
  {
  }

  lemma PROGRAM_1Chars()
    ensures Chars(PROGRAM_1) == "jxtdg4y5"
  {
  }

  lemma PROGRAM_2Chars()
    ensures Chars(PROGRAM_2) == "r3zarvar"
  {
  }

  lemma PROGRAM_3Chars()
    ensures Chars(PROGRAM_3) == "y0c5xw7k"
  {
  }

  lemma ADDRESS_CHECKChars()
    ensures Chars(ADDRESS_CHECK) == "v8f3t4"
  {
  }

  const BYTES_0: seq<byte> := [0x75, 0x1e, 0x76, 0xe8, 0x19]
  const BYTES_1: seq<byte> := [0x91, 0x96, 0xd4, 0x54, 0x94]
  const BYTES_2: seq<byte> := [0x1c, 0x45, 0xd1, 0xb3, 0xa3]
  const BYTES_3: seq<byte> := [0x23, 0xf1, 0x43, 0x3b, 0xd6]

  const PROGRAM: seq<byte> := BYTES_0 + BYTES_1 + BYTES_2 + BYTES_3

  const PROGRAM_SYMBOLS: seq<Symbol> := PROGRAM_0 + PROGRAM_1 + PROGRAM_2 + PROGRAM_3

  /** Five bytes and eight symbols of the same value. */
  predicate SameBits(bytes: seq<byte>, symbols: seq<Symbol>) {
    && |bytes| == 5 && |symbols| == 8
    && (((bytes[0] as int * 256 + bytes[1]) * 256 + bytes[2]) * 256 + bytes[3]) * 256 + bytes[4]
       == ((((((symbols[0] as int * 32 + symbols[1]) * 32 + symbols[2]) * 32 + symbols[3]) * 32 + symbols[4]) * 32
            + symbols[5]) * 32 + symbols[6]) * 32 + symbols[7]
  }

  lemma RowsHaveSameBits()
    ensures SameBits(BYTES_0, PROGRAM_0) && SameBits(BYTES_1, PROGRAM_1)
    ensures SameBits(BYTES_2, PROGRAM_2) && SameBits(BYTES_3, PROGRAM_3)
  {
  }

  lemma ValueOfFive(base: nat, s: seq<nat>)
    requires |s| == 5
    ensures Value(base, s) == (((s[0] * base + s[1]) * base + s[2]) * base + s[3]) * base + s[4]
  {
    ValueOne(base, s[0]);
    ValueSnoc(base, [s[0]], s[1]);
    ValueSnoc(base, [s[0], s[1]], s[2]);
    ValueSnoc(base, [s[0], s[1], s[2]], s[3]);
    ValueSnoc(base, [s[0], s[1], s[2], s[3]], s[4]);
    hide Value;
    assert [s[0]] + [s[1]] == [s[0], s[1]] && [s[0], s[1]] + [s[2]] == [s[0], s[1], s[2]];
    assert [s[0], s[1], s[2]] + [s[3]] == [s[0], s[1], s[2], s[3]] && [s[0], s[1], s[2], s[3]] + [s[4]] == s;
  }

  lemma ValueOfEight(base: nat, s: seq<nat>)
    requires |s| == 8
    ensures Value(base, s) ==
      (((Value(base, s[..5]) * base) + s[5]) * base + s[6]) * base + s[7]
  {
    ValueSnoc(base, s[..5], s[5]);
    ValueSnoc(base, s[..6], s[6]);
    ValueSnoc(base, s[..7], s[7]);
    hide Value;
    assert s[..5] + [s[5]] == s[..6] && s[..6] + [s[6]] == s[..7] && s[..7] + [s[7]] == s;
  }

  lemma SameValue(bytes: seq<byte>, symbols: seq<Symbol>)
    requires SameBits(bytes, symbols)
    ensures Value(256, bytes) == Value(32, symbols)
  {
    ValueOfFive(256, bytes);
    ValueOfEight(32, symbols);
    ValueOfFive(32, symbols[..5]);
    hide Value;
  }

  /** So is what comes of adding five bytes and eight symbols. */
  lemma AddRow(a: seq<byte>, s: seq<Symbol>, bytes: seq<byte>, symbols: seq<Symbol>)
    requires Value(256, a) == Value(32, s) && SameBits(bytes, symbols)
    ensures Value(256, a + bytes) == Value(32, s + symbols)
  {
    SameValue(bytes, symbols);
    ValueAppend(256, a, bytes);
    ValueAppend(32, s, symbols);
    SamePower();
    hide Value, Pow;
  }

  lemma SamePower()
    ensures Pow(256, 5) == Pow(32, 8)
  {
    assert Pow(256, 1) == 256 && Pow(256, 2) == 0x1_0000 && Pow(256, 3) == 0x100_0000 && Pow(256, 4) == 0x1_0000_0000;
    assert Pow(32, 1) == 32 && Pow(32, 2) == 0x400 && Pow(32, 3) == 0x8000 && Pow(32, 4) == 0x10_0000;
    assert Pow(32, 5) == 0x200_0000 && Pow(32, 6) == 0x4000_0000 && Pow(32, 7) == 0x8_0000_0000;
  }

  lemma ProgramRegrouped()
    ensures Regrouped(PROGRAM, PROGRAM_SYMBOLS) && |PROGRAM| == 20 && |PROGRAM_SYMBOLS| == 32
  {
    RowsHaveSameBits();
    SameValue(BYTES_0, PROGRAM_0);
    AddRow(BYTES_0, PROGRAM_0, BYTES_1, PROGRAM_1);
    AddRow(BYTES_0 + BYTES_1, PROGRAM_0 + PROGRAM_1, BYTES_2, PROGRAM_2);
    AddRow(BYTES_0 + BYTES_1 + BYTES_2, PROGRAM_0 + PROGRAM_1 + PROGRAM_2, BYTES_3, PROGRAM_3);
    assert |PROGRAM| == 20 && |PROGRAM_SYMBOLS| == 32;
    assert ShiftL(Value(256, PROGRAM), 0) == Value(256, PROGRAM);
    hide Value, SameBits;
  }

  lemma AddressState()
    ensures State("bc", VERSION + PROGRAM_SYMBOLS + ADDRESS_CHECK) == 1 && |ADDRESS_CHECK| == 6 && VERSION == [0]
    ensures PROGRAM_SYMBOLS == PROGRAM_0 + PROGRAM_1 + PROGRAM_2 + PROGRAM_3
  {
    AddressHrp();
    AddressFed0();
    var s := Expand("bc");
    hide Fed, Expand;
    AddressFed1(s);
    AddressFed2(s + VERSION);
    AddressFed3(s + VERSION + PROGRAM_0);
    AddressFed4(s + VERSION + PROGRAM_0 + PROGRAM_1);
    AddressFed5(s + VERSION + PROGRAM_0 + PROGRAM_1 + PROGRAM_2);
    AddressFed6(s + VERSION + PROGRAM_0 + PROGRAM_1 + PROGRAM_2 + PROGRAM_3);
    InRow(s + VERSION, PROGRAM_0, PROGRAM_1, PROGRAM_2, PROGRAM_3, ADDRESS_CHECK);
    assert |ADDRESS_CHECK| == 6 && VERSION == [0];
    hide VERSION, PROGRAM_0, PROGRAM_1, PROGRAM_2, PROGRAM_3, ADDRESS_CHECK;
    ThreeInRow(s, VERSION, PROGRAM_SYMBOLS, ADDRESS_CHECK);
    StateIs("bc", VERSION + PROGRAM_SYMBOLS + ADDRESS_CHECK);
  }

  lemma ThreeInRow(s: seq<Symbol>, a: seq<Symbol>, b: seq<Symbol>, c: seq<Symbol>)
    ensures s + a + (b + c) == s + (a + b + c)
  {
  }

  lemma RowsText()
    ensures "w508d6qe" + "jxtdg4y5" + "r3zarvar" + "y0c5xw7k" == "w508d6qejxtdg4y5r3zarvary0c5xw7k"
  {
  }

  lemma AddressText()
    ensures "bc" + ['1'] + ("q" + ("w508d6qe" + "jxtdg4y5" + "r3zarvar" + "y0c5xw7k") + "v8f3t4")
      == "bc1qw508d6qejxtdg4y5r3zarvary0c5xw7kv8f3t4"
  {
    hide *;
    RowsText();
    DataText();
    CheckedText();
    WholeText();
  }

  lemma DataText()
    ensures "q" + "w508d6qejxtdg4y5r3zarvary0c5xw7k" == "qw508d6qejxtdg4y5r3zarvary0c5xw7k"
  {
  }

  lemma CheckedText()
    ensures "qw508d6qejxtdg4y5r3zarvary0c5xw7k" + "v8f3t4" == "qw508d6qejxtdg4y5r3zarvary0c5xw7kv8f3t4"
  {
  }

  lemma WholeText()
    ensures "bc" + ['1'] + "qw508d6qejxtdg4y5r3zarvary0c5xw7kv8f3t4" == "bc1qw508d6qejxtdg4y5r3zarvary0c5xw7kv8f3t4"
  {
  }

  lemma AddressString()
    ensures BechString("bc", [0] + PROGRAM_SYMBOLS) == "bc1qw508d6qejxtdg4y5r3zarvary0c5xw7kv8f3t4"
  {
    hide *;
    AddressState();
    ByChecksum("bc", VERSION + PROGRAM_SYMBOLS, ADDRESS_CHECK);
    CharsAppend(VERSION, PROGRAM_SYMBOLS);
    CharsOfRows(PROGRAM_0, PROGRAM_1, PROGRAM_2, PROGRAM_3);
    VERSIONChars();
    PROGRAM_0Chars();
    PROGRAM_1Chars();
    PROGRAM_2Chars();
    PROGRAM_3Chars();
    ADDRESS_CHECKChars();
    AddressText();
  }

  lemma AddressEncodable()
    ensures Encodable("bc", [0] + PROGRAM_SYMBOLS)
  {
    ProgramRegrouped();
    assert forall i :: 0 <= i < 2 ==> HrpChar("bc"[i]) && !IsUpper("bc"[i]);
    hide PROGRAM_SYMBOLS;
  }

  lemma ProgramIs()
    ensures PROGRAM == [
      0x75, 0x1e, 0x76, 0xe8, 0x19, 0x91, 0x96, 0xd4, 0x54, 0x94,
        0x1c, 0x45, 0xd1, 0xb3, 0xa3, 0x23, 0xf1, 0x43, 0x3b, 0xd6]
  {
  }

  /** BIP 173's first address and what it stands for. */
  lemma AddressOfProgram()
    ensures var addr, prog: seq<byte> := "bc1qw508d6qejxtdg4y5r3zarvary0c5xw7kv8f3t4", [
        0x75, 0x1e, 0x76, 0xe8, 0x19, 0x91, 0x96, 0xd4, 0x54, 0x94,
        0x1c, 0x45, 0xd1, 0xb3, 0xa3, 0x23, 0xf1, 0x43, 0x3b, 0xd6];
      IsAddress(addr, "bc", 0, prog) && Means(addr, "bc", 0, prog)
  {
    hide *;
    ProgramIs();
    AddressString();
    AddressEncodable();
    ProgramRegrouped();
    IsAddressOf("bc", 0, PROGRAM, PROGRAM_SYMBOLS);
    AddressMeans("bc1qw508d6qejxtdg4y5r3zarvary0c5xw7kv8f3t4", "bc", 0, PROGRAM);
    SizeOfProgram();
  }

  lemma SizeOfProgram()
    ensures ProgramSize(0, 20)
  {
  }

  lemma IsAddressOf(hrp: string, witver: Symbol, prog: seq<byte>, symbols: seq<Symbol>)
    requires Regrouped(prog, symbols) && Encodable(hrp, [witver] + symbols)
    ensures IsAddress(BechString(hrp, [witver] + symbols), hrp, witver, prog)
  {
    hide Regrouped, Encodable, BechString;
  }
}
