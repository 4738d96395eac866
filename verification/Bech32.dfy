/**
 Bech32 strings (BIP 173, "Bech32") as in segwit_addr.c: a human-readable part, a separator,
 and five-bit symbols of which the last six are the checksum.
 */
module Bech32 {
  import opened Bytes
  import opened Bech32Checksum

  // The alphabet.

  const CHARSET_0 := "qpzry9x8gf2tvdw0"
  const CHARSET_1 := "s3jn54khce6mua7l"

  /** charset[v] */
  function Charset(v: Symbol): char {
    if v < 16 then CHARSET_0[v] else CHARSET_1[v - 16]
  }

  const FIGURES := [15, -1, 10, 17, 21, 20, 26, 30, 7, 5, -1, -1, -1, -1, -1, -1]
  const LETTERS_0 := [-1, 29, -1, 24, 13, 25, 9, 8, 23, -1, 18, 22, 31, 27, 19, -1]
  const LETTERS_1 := [1, 0, 3, 16, 11, 28, 12, 14, 6, 4, 2, -1, -1, -1, -1, -1]

  /** charset_rev[c] for an ASCII character; -1 for any other. */
  function CharsetRev(c: char): int {
    var code := c as int;
    if code < 48 || code >= 128 then -1
    else if code < 64 then FIGURES[code - 48]
    else if code < 80 then LETTERS_0[code - 64]
    else if code < 96 then LETTERS_1[code - 80]
    else if code < 112 then LETTERS_0[code - 96]
    else LETTERS_1[code - 112]
  }

  predicate InCharset(c: char) {
    CharsetRev(c) != -1
  }

  /** The symbol a character stands for. */
  function SymbolOf(c: char): (v: Symbol)
    requires InCharset(c)
  {
    SymbolOfChar(c);
    CharsetRev(c)
  }

  predicate IsUpper(c: char) {
    'A' <= c <= 'Z'
  }

  predicate IsLower(c: char) {
    'a' <= c <= 'z'
  }

  function LowerChar(c: char): char {
    if IsUpper(c) then (c - 'A') + 'a' else c
  }

  lemma CharsetLow(v: Symbol)
    requires v < 16
    ensures InCharset(Charset(v)) && SymbolOf(Charset(v)) == v && !IsUpper(Charset(v)) && Charset(v) != '1'
  {
  }

  lemma CharsetHigh(v: Symbol)
    requires v >= 16
    ensures InCharset(Charset(v)) && SymbolOf(Charset(v)) == v && !IsUpper(Charset(v)) && Charset(v) != '1'
  {
  }

  lemma SymbolOfChar(c: char)
    requires CharsetRev(c) != -1
    ensures 0 <= CharsetRev(c) < 32
  {
  }

  lemma FigureSymbol(c: char)
    requires InCharset(c) && c as int < 64
    ensures Charset(SymbolOf(c)) == LowerChar(c)
  {
  }

  lemma FirstUpperSymbol(c: char)
    requires InCharset(c) && 64 <= c as int < 80
    ensures Charset(SymbolOf(c)) == LowerChar(c)
  {
  }

  lemma SecondUpperSymbol(c: char)
    requires InCharset(c) && 80 <= c as int < 96
    ensures Charset(SymbolOf(c)) == LowerChar(c)
  {
  }

  lemma FirstLowerSymbol(c: char)
    requires InCharset(c) && 96 <= c as int < 112
    ensures Charset(SymbolOf(c)) == LowerChar(c)
  {
  }

  lemma SecondLowerSymbol(c: char)
    requires InCharset(c) && 112 <= c as int
    ensures Charset(SymbolOf(c)) == LowerChar(c)
  {
  }

  /** The two tables are inverse to each other, up to case. */
  lemma CharOfSymbol(c: char)
    requires InCharset(c)
    ensures Charset(SymbolOf(c)) == LowerChar(c)
  {
    hide *;
    if c as int < 64 { FigureSymbol(c); }
    else if c as int < 80 { FirstUpperSymbol(c); }
    else if c as int < 96 { SecondUpperSymbol(c); }
    else if c as int < 112 { FirstLowerSymbol(c); }
    else { SecondLowerSymbol(c); }
  }

  lemma SymbolOfCharset(v: Symbol)
    ensures InCharset(Charset(v)) && SymbolOf(Charset(v)) == v && !IsUpper(Charset(v)) && Charset(v) != '1'
  {
    hide *;
    if v < 16 { CharsetLow(v); } else { CharsetHigh(v); }
  }

  // Strings.

  function Chars(symbols: seq<Symbol>): (s: string)
    ensures |s| == |symbols| && forall i :: 0 <= i < |s| ==> s[i] == Charset(symbols[i])
  {
    seq(|symbols|, i requires 0 <= i < |symbols| => Charset(symbols[i]))
  }

  ghost predicate AllInCharset(s: string) {
    forall i :: 0 <= i < |s| ==> InCharset(s[i])
  }

  function Symbols(s: string): (symbols: seq<Symbol>)
    requires AllInCharset(s)
    ensures |symbols| == |s| && forall i :: 0 <= i < |s| ==> symbols[i] == SymbolOf(s[i])
  {
    seq(|s|, i requires 0 <= i < |s| => SymbolOf(s[i]))
  }

  function Lower(s: string): (t: string)
    ensures |t| == |s| && forall i :: 0 <= i < |s| ==> t[i] == LowerChar(s[i])
  {
    seq(|s|, i requires 0 <= i < |s| => LowerChar(s[i]))
  }

  ghost predicate HasUpper(s: string) {
    exists i :: 0 <= i < |s| && IsUpper(s[i])
  }

  ghost predicate HasLower(s: string) {
    exists i :: 0 <= i < |s| && IsLower(s[i])
  }

  predicate HrpChar(c: char) {
    33 <= c as int <= 126
  }

  ghost predicate HrpChars(s: string) {
    forall i :: 0 <= i < |s| ==> HrpChar(s[i])
  }

  /** ch >> 5 and ch & 0x1f of an ASCII character. */
  function High(c: char): Symbol {
    c as int / 32 % 32
  }

  function Low(c: char): Symbol {
    c as int % 32
  }

  function Highs(s: string): (symbols: seq<Symbol>)
    ensures |symbols| == |s| && forall i :: 0 <= i < |s| ==> symbols[i] == High(s[i])
  {
    seq(|s|, i requires 0 <= i < |s| => High(s[i]))
  }

  function Lows(s: string): (symbols: seq<Symbol>)
    ensures |symbols| == |s| && forall i :: 0 <= i < |s| ==> symbols[i] == Low(s[i])
  {
    seq(|s|, i requires 0 <= i < |s| => Low(s[i]))
  }

  /** The human-readable part as the checksum sees it. */
  function Expand(hrp: string): seq<Symbol> {
    Highs(hrp) + [0] + Lows(hrp)
  }

  /** The checksum's state after a human-readable part and some symbols. */
  function State(hrp: string, symbols: seq<Symbol>): bv32 {
    FeedAll(1, Expand(hrp) + symbols)
  }

  lemma StateAppend(hrp: string, a: seq<Symbol>, b: seq<Symbol>)
    ensures State(hrp, a + b) == FeedAll(State(hrp, a), b) && IsState(State(hrp, a))
  {
    hide FeedAll, Expand, IsState;
    assert Expand(hrp) + (a + b) == (Expand(hrp) + a) + b;
    FeedAllAppend(1, Expand(hrp) + a, b);
    OneIsState();
    FeedAllBound(1, Expand(hrp) + a);
  }

  /** What bech32_encode accepts. */
  ghost predicate Encodable(hrp: string, data: seq<byte>) {
    && HrpChars(hrp) && !HasUpper(hrp)
    && |hrp| + 7 + |data| <= 90
    && forall i :: 0 <= i < |data| ==> data[i] < 32
  }

  function ChecksumOf(hrp: string, data: seq<Symbol>): (s: seq<Symbol>)
    ensures |s| == 6
  {
    Checksum(State(hrp, data))
  }

  /** The Bech32 string for some data. */
  function BechString(hrp: string, data: seq<Symbol>): string {
    hrp + ['1'] + Chars(data + ChecksumOf(hrp, data))
  }

  /** The index of the last one; -1 if there is none. */
  function LastOne(s: string): (p: int)
    ensures -1 <= p < |s|
    ensures p >= 0 ==> s[p] == '1'
    ensures forall i :: p < i < |s| ==> s[i] != '1'
    decreases |s|
  {
    if s == "" then -1
    else if s[|s| - 1] == '1' then |s| - 1
    else
      assert forall i :: 0 <= i < |s| - 1 ==> s[..|s| - 1][i] == s[i];
      LastOne(s[..|s| - 1])
  }

  lemma LastOneIs(s: string, p: nat)
    requires p < |s| && s[p] == '1' && forall i :: p < i < |s| ==> s[i] != '1'
    ensures LastOne(s) == p
  {
  }

  /** The parts of a string that has a last one. */
  function HrpPart(s: string): string
    requires LastOne(s) >= 0
  {
    s[..LastOne(s)]
  }

  function DataPart(s: string): string
    requires LastOne(s) >= 0
  {
    s[LastOne(s) + 1..]
  }

  /** The parts are of the right sizes and made of the right characters. */
  ghost predicate Shaped(s: string) {
    && 8 <= |s| <= 90 && LastOne(s) >= 1 && |DataPart(s)| >= 6
    && HrpChars(HrpPart(s)) && AllInCharset(DataPart(s))
    && !(HasUpper(s) && HasLower(s))
  }

  /** What bech32_decode accepts. */
  ghost predicate WellFormed(s: string) {
    Shaped(s) && State(Lower(HrpPart(s)), Symbols(DataPart(s))) == 1
  }

  /** What is decoded: the human-readable part in small letters and all but six symbols. */
  function DecodedHrp(s: string): string
    requires LastOne(s) >= 0
  {
    Lower(HrpPart(s))
  }

  function DecodedData(s: string): seq<Symbol>
    requires LastOne(s) >= 0 && |DataPart(s)| >= 6 && AllInCharset(DataPart(s))
  {
    Symbols(DataPart(s)[..|DataPart(s)| - 6])
  }

  /** The last one is at p. */
  ghost predicate SeparatedAt(s: string, p: nat) {
    p < |s| && s[p] == '1' && forall i :: p < i < |s| ==> s[i] != '1'
  }

  /** The shape of a string, in numerals. */
  lemma ShapedExactly(s: string, p: nat)
    requires SeparatedAt(s, p)
    ensures Shaped(s) <==>
      && 8 <= |s| <= 90 && 1 <= p <= |s| - 7
      && (forall i :: 0 <= i < p ==> 33 <= s[i] as int <= 126)
      && (forall i :: p < i < |s| ==> InCharset(s[i]))
      && !((exists i :: 0 <= i < |s| && 65 <= s[i] as int <= 90)
           && (exists i :: 0 <= i < |s| && 97 <= s[i] as int <= 122))
  {
    LastOneIs(s, p);
    hide LastOne, InCharset;
    var hrp, data := s[..p], s[p + 1..];
    assert HrpChars(hrp) <==> forall i :: 0 <= i < p ==> 33 <= s[i] as int <= 126 by {
      assert forall i :: 0 <= i < p ==> hrp[i] == s[i];
    }
    assert AllInCharset(data) <==> forall i :: p < i < |s| ==> InCharset(s[i]) by {
      assert forall i :: 0 <= i < |data| ==> data[i] == s[p + 1 + i];
      assert forall i :: p < i < |s| ==> s[i] == data[i - p - 1];
    }
    assert HasUpper(s) <==> exists i :: 0 <= i < |s| && 65 <= s[i] as int <= 90;
    assert HasLower(s) <==> exists i :: 0 <= i < |s| && 97 <= s[i] as int <= 122;
  }

  // The two directions.

  /** Where the parts of an encoded string are. */
  lemma PartsOf(hrp: string, symbols: seq<Symbol>)
    ensures var s := hrp + ['1'] + Chars(symbols);
      LastOne(s) == |hrp| && HrpPart(s) == hrp && DataPart(s) == Chars(symbols)
  {
    hide Charset;
    var s := hrp + ['1'] + Chars(symbols);
    forall i | |hrp| < i < |s| ensures s[i] != '1' {
      SymbolOfCharset(symbols[i - |hrp| - 1]);
    }
    LastOneIs(s, |hrp|);
  }

  lemma SymbolsOfChars(symbols: seq<Symbol>)
    ensures AllInCharset(Chars(symbols)) && Symbols(Chars(symbols)) == symbols && !HasUpper(Chars(symbols))
  {
    hide InCharset, SymbolOf, Charset, IsUpper;
    forall i | 0 <= i < |symbols|
      ensures InCharset(Chars(symbols)[i]) && SymbolOf(Chars(symbols)[i]) == symbols[i] && !IsUpper(Chars(symbols)[i])
    {
      SymbolOfCharset(symbols[i]);
    }
  }

  lemma LowerIsSame(s: string)
    requires !HasUpper(s)
    ensures Lower(s) == s
  {
    assert forall i :: 0 <= i < |s| ==> !IsUpper(s[i]);
  }

  lemma NoUpper(hrp: string, chars: string)
    requires !HasUpper(hrp) && !HasUpper(chars)
    ensures !HasUpper(hrp + ['1'] + chars)
  {
    var s := hrp + ['1'] + chars;
    forall i | 0 <= i < |s| ensures !IsUpper(s[i]) {
      if i < |hrp| {
        assert s[i] == hrp[i];
      } else if i > |hrp| {
        assert s[i] == chars[i - |hrp| - 1];
      }
    }
  }

  /** The checksum of an encoded string comes out as 1. */
  lemma ChecksumHolds(hrp: string, data: seq<Symbol>)
    ensures State(hrp, data + ChecksumOf(hrp, data)) == 1
  {
    hide State, Checksum;
    StateAppend(hrp, data, ChecksumOf(hrp, data));
    ChecksumUnique(State(hrp, data), ChecksumOf(hrp, data));
  }

  lemma ShapedIs(hrp: string, symbols: seq<Symbol>)
    requires hrp != "" && HrpChars(hrp) && !HasUpper(hrp) && 6 <= |symbols| && |hrp| + 1 + |symbols| <= 90
    ensures Shaped(hrp + ['1'] + Chars(symbols))
  {
    PartsOf(hrp, symbols);
    SymbolsOfChars(symbols);
    NoUpper(hrp, Chars(symbols));
    hide HasUpper, HasLower, HrpChars, AllInCharset, LastOne;
  }

  /**
     Decoding what was encoded gives it back, except that nothing with an empty
     human-readable part is decoded, although it can be encoded.
   */
  lemma DecodeEncoded(hrp: string, data: seq<Symbol>)
    requires Encodable(hrp, data)
    ensures var s := BechString(hrp, data);
      && (WellFormed(s) <==> hrp != "")
      && (hrp != "" ==> Shaped(s) && DecodedHrp(s) == hrp && DecodedData(s) == data)
  {
    EncodableFacts(hrp, data);
    hide *;
    var check := ChecksumOf(hrp, data);
    var s := BechString(hrp, data);
    BechStringIs(hrp, data);
    PartsOf(hrp, data + check);
    SymbolsOfChars(data + check);
    if hrp == "" {
      NoHrp(s);
    } else {
      ShapedIs(hrp, data + check);
      LowerIsSame(hrp);
      ChecksumHolds(hrp, data);
      WellFormedIs(s, hrp, data + check);
      DecodedIs(s, data, check);
    }
  }

  /** There is such an input: the empty human-readable part without data. */
  lemma EmptyHrpEncoded()
    ensures Encodable("", []) && !WellFormed(BechString("", []))
  {
    assert HrpChars("") && !HasUpper("");
    hide HrpChars, HasUpper, WellFormed, BechString;
    DecodeEncoded("", []);
  }

  lemma EncodableFacts(hrp: string, data: seq<byte>)
    requires Encodable(hrp, data)
    ensures HrpChars(hrp) && !HasUpper(hrp) && |hrp| + 7 + |data| <= 90
  {
  }

  lemma BechStringIs(hrp: string, data: seq<Symbol>)
    ensures BechString(hrp, data) == hrp + ['1'] + Chars(data + ChecksumOf(hrp, data))
  {
  }

  lemma NoHrp(s: string)
    requires LastOne(s) == 0
    ensures !WellFormed(s)
  {
    hide State, HasUpper, HasLower, HrpChars, AllInCharset, LastOne;
  }

  lemma WellFormedIs(s: string, hrp: string, symbols: seq<Symbol>)
    requires Shaped(s) && LastOne(s) >= 0 && AllInCharset(DataPart(s))
    requires Lower(HrpPart(s)) == hrp && Symbols(DataPart(s)) == symbols
    ensures WellFormed(s) <==> State(hrp, symbols) == 1
  {
    hide State, Shaped, LastOne, AllInCharset;
  }

  lemma DecodedIs(s: string, data: seq<Symbol>, check: seq<Symbol>)
    requires LastOne(s) >= 0 && AllInCharset(DataPart(s)) && Symbols(DataPart(s)) == data + check && |check| == 6
    ensures |DataPart(s)| >= 6 && DecodedData(s) == data && DecodedHrp(s) == Lower(HrpPart(s))
  {
    hide LastOne, SymbolOf, InCharset;
    assert DecodedData(s) == Symbols(DataPart(s))[..|data|];
  }

  lemma ShapedFacts(s: string)
    requires Shaped(s)
    ensures 8 <= |s| <= 90 && LastOne(s) >= 1 && |DataPart(s)| >= 6
    ensures HrpChars(HrpPart(s)) && AllInCharset(DataPart(s))
    ensures s == HrpPart(s) + ['1'] + DataPart(s) && |s| == |HrpPart(s)| + 1 + |DataPart(s)|
  {
    hide HasUpper, HasLower, HrpChars, AllInCharset;
  }

  /** Encoding what was decoded gives the string in small letters. */
  lemma EncodeDecoded(s: string)
    requires WellFormed(s)
    ensures Shaped(s) && LastOne(s) >= 1 && |DataPart(s)| >= 6 && AllInCharset(DataPart(s))
    ensures Encodable(DecodedHrp(s), DecodedData(s)) && BechString(DecodedHrp(s), DecodedData(s)) == Lower(s)
  {
    hide *;
    WellFormedFacts(s);
    ShapedFacts(s);
    var hrp, symbols := Lower(HrpPart(s)), Symbols(DataPart(s));
    var n: nat := |symbols| - 6;
    var data, check := symbols[..n], symbols[n..];
    assert symbols == data + check;
    DecodedIs(s, data, check);
    StateAppend(hrp, data, check);
    ChecksumUnique(State(hrp, data), check);
    ChecksumOfIs(hrp, data);
    BechStringIs(hrp, data);
    CharsOfSymbols(DataPart(s));
    LowerParts(HrpPart(s), DataPart(s));
    LowerHrp(HrpPart(s));
    EncodableIs(hrp, data);
  }

  lemma ChecksumOfIs(hrp: string, data: seq<Symbol>)
    ensures ChecksumOf(hrp, data) == Checksum(State(hrp, data))
  {
  }

  lemma CharsOfSymbols(s: string)
    requires AllInCharset(s)
    ensures Chars(Symbols(s)) == Lower(s)
  {
    hide SymbolOf, InCharset, Charset, LowerChar;
    forall i | 0 <= i < |s| ensures Charset(SymbolOf(s[i])) == LowerChar(s[i]) {
      CharOfSymbol(s[i]);
    }
  }

  lemma LowerParts(hrp: string, chars: string)
    ensures Lower(hrp + ['1'] + chars) == Lower(hrp) + ['1'] + Lower(chars)
  {
    hide LowerChar;
    assert LowerChar('1') == '1' by { LowerOne(); }
  }

  lemma LowerOne()
    ensures LowerChar('1') == '1'
  {
  }

  lemma LowerHrp(hrp: string)
    requires HrpChars(hrp)
    ensures HrpChars(Lower(hrp)) && !HasUpper(Lower(hrp))
  {
  }

  lemma EncodableIs(hrp: string, data: seq<Symbol>)
    requires HrpChars(hrp) && !HasUpper(hrp) && |hrp| + 7 + |data| <= 90
    ensures Encodable(hrp, data)
  {
  }

  /**
     Changing one character of the data part into one that stands for another symbol is
     always detected.
   */
  lemma OneErrorDetected(s: string, i: nat, c: char)
    requires WellFormed(s) && LastOne(s) < i < |s|
    requires InCharset(c) && CharsetRev(c) != CharsetRev(s[i])
    ensures !WellFormed(s[i := c])
  {
    hide *;
    WellFormedFacts(s);
    ShapedFacts(s);
    var t, d := s[i := c], DataPart(s);
    var k: nat := i - LastOne(s) - 1;
    ChangedParts(s, i, c);
    OneSymbolChanged(d, k, c);
    if WellFormed(t) {
      WellFormedFacts(t);
      StateDiffers(Lower(HrpPart(s)), Symbols(d), k, SymbolOf(c));
    }
  }

  lemma ChangedParts(s: string, i: nat, c: char)
    requires 0 <= LastOne(s) < i < |s| && InCharset(c)
    ensures var t := s[i := c]; var k := i - LastOne(s) - 1;
      && LastOne(t) == LastOne(s) && HrpPart(t) == HrpPart(s)
      && k < |DataPart(s)| && DataPart(t) == DataPart(s)[k := c] && DataPart(s)[k] == s[i]
  {
    assert c != '1';
    LastOneIs(s[i := c], LastOne(s));
    hide LastOne;
  }

  lemma WellFormedFacts(s: string)
    requires WellFormed(s)
    ensures Shaped(s) && LastOne(s) >= 0 && AllInCharset(DataPart(s))
    ensures State(Lower(HrpPart(s)), Symbols(DataPart(s))) == 1
  {
    hide State, LastOne, AllInCharset;
  }

  lemma OneSymbolChanged(d: string, k: nat, c: char)
    requires AllInCharset(d) && InCharset(c) && k < |d|
    ensures AllInCharset(d[k := c]) && Symbols(d[k := c]) == Symbols(d)[k := SymbolOf(c)]
    ensures CharsetRev(c) != CharsetRev(d[k]) ==> Symbols(d)[k] != SymbolOf(c)
  {
    hide CharsetRev;
  }

  lemma StateDiffers(hrp: string, symbols: seq<Symbol>, k: nat, v: Symbol)
    requires k < |symbols| && symbols[k] != v
    ensures State(hrp, symbols) != State(hrp, symbols[k := v])
  {
    var before, after := Expand(hrp) + symbols[..k], symbols[k + 1..];
    assert Expand(hrp) + symbols == before + [symbols[k]] + after;
    assert Expand(hrp) + symbols[k := v] == before + [v] + after;
    hide FeedAll, Expand, IsState;
    OneIsState();
    OneSymbolMatters(1, before, symbols[k], v, after);
  }

  // Encoding.

  lemma FeedNothing(chk: bv32)
    ensures FeedAll(chk, []) == chk
  {
  }

  lemma HighsNext(s: string, i: nat)
    requires i < |s|
    ensures Highs(s[..i + 1]) == Highs(s[..i]) + [High(s[i])] && Lows(s[..i + 1]) == Lows(s[..i]) + [Low(s[i])]
    ensures HrpChars(s[..i + 1]) <==> HrpChars(s[..i]) && HrpChar(s[i])
    ensures HasUpper(s[..i + 1]) <==> HasUpper(s[..i]) || IsUpper(s[i])
    ensures HasLower(s[..i + 1]) <==> HasLower(s[..i]) || IsLower(s[i])
  {
    hide High, Low, HrpChar, IsUpper, IsLower;
    var t := s[..i + 1];
    assert t[i] == s[i] && forall k :: 0 <= k < i ==> t[k] == s[..i][k];
    if HasUpper(s[..i]) {
      var k :| 0 <= k < i && IsUpper(s[..i][k]);
      assert IsUpper(t[k]);
    }
    if HasLower(s[..i]) {
      var k :| 0 <= k < i && IsLower(s[..i][k]);
      assert IsLower(t[k]);
    }
    assert HrpChars(t) ==> HrpChar(t[i]);
    assert IsUpper(t[i]) ==> HasUpper(t);
  }

  lemma NoChars(s: string)
    ensures s[..0] == "" && s[..|s|] == s && Highs("") == Lows("") == [] && HrpChars("") && !HasUpper("")
      && !HasLower("")
  {
  }

  /** A prefix that is not acceptable makes the whole unacceptable. */
  lemma PrefixDecides(s: string, i: nat)
    requires i <= |s|
    ensures HrpChars(s) ==> HrpChars(s[..i])
    ensures HasUpper(s[..i]) ==> HasUpper(s)
    ensures HasLower(s[..i]) ==> HasLower(s)
  {
  }

  /** The first pass over the human-readable part. */
  method FeedHighs(hrp: string) returns (ok: bool, chk: bv32)
    ensures ok <==> HrpChars(hrp) && !HasUpper(hrp)
    ensures ok ==> chk == FeedAll(1, Highs(hrp))
  {
    hide *;
    NoChars(hrp);
    FeedNothing(1);
    chk := 1;
    var i := 0;
    while i < |hrp|
      invariant i <= |hrp| && HrpChars(hrp[..i]) && !HasUpper(hrp[..i])
      invariant chk == FeedAll(1, Highs(hrp[..i]))
    {
      HighsNext(hrp, i);
      PrefixDecides(hrp, i + 1);
      if !HrpChar(hrp[i]) {
        return false, chk;
      }
      if IsUpper(hrp[i]) {
        return false, chk;
      }
      FeedSnoc(1, Highs(hrp[..i]), High(hrp[i]));
      chk := Feed(chk, High(hrp[i]));
      i := i + 1;
    }
    return true, chk;
  }

  /** The second pass over the human-readable part, copying it. */
  method FeedLows(hrp: string, chk0: bv32, output: array<char>) returns (chk: bv32)
    requires |hrp| <= output.Length
    modifies output
    ensures chk == FeedAll(chk0, Lows(hrp)) && output[..|hrp|] == hrp
  {
    hide *;
    NoChars(hrp);
    FeedNothing(chk0);
    chk := chk0;
    var i := 0;
    while i < |hrp|
      invariant i <= |hrp| && chk == FeedAll(chk0, Lows(hrp[..i])) && output[..i] == hrp[..i]
    {
      HighsNext(hrp, i);
      FeedSnoc(chk0, Lows(hrp[..i]), Low(hrp[i]));
      chk := Feed(chk, Low(hrp[i]));
      output[i] := hrp[i];
      assert output[..i + 1] == output[..i] + [hrp[i]];
      i := i + 1;
    }
  }

  lemma CharsNext(symbols: seq<Symbol>, v: Symbol)
    ensures Chars(symbols + [v]) == Chars(symbols) + [Charset(v)] && Chars([]) == ""
  {
    hide Charset;
  }

  lemma CharsAppend(a: seq<Symbol>, b: seq<Symbol>)
    ensures Chars(a + b) == Chars(a) + Chars(b)
  {
    hide Charset;
  }

  /** Data bytes are five-bit symbols up to i. */
  ghost predicate FiveBits(data: seq<byte>) {
    forall i :: 0 <= i < |data| ==> data[i] < 32
  }

  lemma FiveBitsNext(data: seq<byte>, i: nat)
    requires i < |data|
    ensures FiveBits(data[..i + 1]) <==> FiveBits(data[..i]) && data[i] < 32
    ensures !FiveBits(data[..i + 1]) ==> !FiveBits(data)
    ensures data[..i + 1] == data[..i] + [data[i]] && data[..|data|] == data && FiveBits(data[..0])
  {
    assert FiveBits(data[..i + 1]) ==> data[..i + 1][i] == data[i];
  }

  /** The data as symbols. */
  function SymbolsOf(data: seq<byte>): (symbols: seq<Symbol>)
    requires FiveBits(data)
    ensures symbols == data
  {
    data
  }

  /** Write the data as characters after what is in the output already. */
  method WriteData(data: seq<byte>, chk0: bv32, output: array<char>, start: nat) returns (ok: bool, chk: bv32)
    requires start + |data| <= output.Length
    modifies output
    ensures ok <==> FiveBits(data)
    ensures ok ==> FiveBits(data) && chk == FeedAll(chk0, SymbolsOf(data))
    ensures ok ==> output[..start + |data|] == old(output[..start]) + Chars(SymbolsOf(data))
  {
    hide *;
    ghost var front := output[..start];
    NoData(data, chk0, front);
    chk := chk0;
    var i := 0;
    ghost var done: seq<Symbol> := [];
    while i < |data|
      invariant i <= |data| && FiveBits(data[..i]) && done == data[..i]
      invariant chk == FeedAll(chk0, done) && output[..start + i] == front + Chars(done)
    {
      FiveBitsNext(data, i);
      if data[i] / 32 != 0 {
        return false, chk;
      }
      var v: Symbol := data[i];
      FeedSnoc(chk0, done, v);
      CharsNext(done, v);
      chk := Feed(chk, v);
      output[start + i] := Charset(v);
      assert output[..start + i + 1] == output[..start + i] + [Charset(v)];
      done := done + [v];
      i := i + 1;
    }
    assert data[..i] == data;
    return true, chk;
  }

  lemma NoData(data: seq<byte>, chk: bv32, front: string)
    ensures FiveBits(data[..0]) && FeedAll(chk, []) == chk && front + Chars([]) == front
  {
  }

  /** Append the checksum. */
  method WriteChecksum(chk0: bv32, output: array<char>, start: nat)
    requires start + 6 <= output.Length
    modifies output
    ensures output[..start + 6] == old(output[..start]) + Chars(Checksum(chk0))
  {
    hide *;
    ghost var front := output[..start];
    var chk := chk0;
    var i := 0;
    FeedNothing(chk0);
    NoZeros();
    while i < 6
      invariant 0 <= i <= 6 && chk == FeedAll(chk0, Zeros(i))
      modifies {}
    {
      ZerosNext(i + 1);
      assert Zeros(i + 1) == Zeros(i) + [0];
      FeedSnoc(chk0, Zeros(i), 0);
      FeedZero(chk);
      chk := Step(chk);
      i := i + 1;
    }
    chk := Xor(chk, 1);
    ghost var check := Checksum(chk0);
    ChecksumIs(chk0);
    NothingWritten(front, check);
    i := 0;
    while i < 6
      invariant 0 <= i <= 6 && output[..start + i] == front + Chars(check[..i])
    {
      assert check[..i + 1] == check[..i] + [check[i]];
      CharsNext(check[..i], check[i]);
      output[start + i] := Charset(Field(chk, i));
      assert output[..start + i + 1] == output[..start + i] + [output[start + i]];
      i := i + 1;
    }
    assert check[..6] == check;
  }

  lemma NothingWritten(front: string, check: seq<Symbol>)
    ensures front + Chars(check[..0]) == front
  {
  }

  lemma NoZeros()
    ensures Zeros(0) == []
  {
  }

  /** Feeding the expanded human-readable part in its two passes. */
  lemma StateOfPasses(hrp: string, data: seq<Symbol>)
    ensures State(hrp, data) == FeedAll(FeedAll(Feed(FeedAll(1, Highs(hrp)), 0), Lows(hrp)), data)
  {
    hide Feed, FeedAll, Highs, Lows;
    FeedSnoc(1, Highs(hrp), 0);
    FeedAllAppend(1, Highs(hrp) + [0], Lows(hrp));
    FeedAllAppend(1, Highs(hrp) + [0] + Lows(hrp), data);
  }

  /** bech32_encode */
  method Encode(output: array<char>, hrp: string, data: seq<byte>) returns (ok: bool)
    requires |hrp| + |data| + 8 <= output.Length
    modifies output
    ensures ok <==> Encodable(hrp, data)
    ensures ok ==> Encodable(hrp, data) && output[..|hrp| + 7 + |data|] == BechString(hrp, data)
    ensures ok ==> output[|hrp| + 7 + |data|] == '\0'
  {
    hide *;
    EncodableParts(hrp, data);
    var chk;
    ok, chk := FeedHighs(hrp);
    if !ok {
      return;
    }
    if |hrp| + 7 + |data| > 90 {
      return false;
    }
    FeedZero(chk);
    chk := Step(chk);
    chk := FeedLows(hrp, chk, output);
    output[|hrp|] := '1';
    assert output[..|hrp| + 1] == output[..|hrp|] + ['1'];
    ok, chk := WriteData(data, chk, output, |hrp| + 1);
    if !ok {
      return;
    }
    ghost var symbols := SymbolsOf(data);
    StateOfPasses(hrp, symbols);
    WriteChecksum(chk, output, |hrp| + 1 + |data|);
    ChecksumOfIs(hrp, symbols);
    BechStringIs(hrp, symbols);
    CharsAppend(symbols, ChecksumOf(hrp, symbols));
    output[|hrp| + 7 + |data|] := '\0';
    assert output[..|hrp| + 7 + |data|] == hrp + ['1'] + Chars(symbols) + Chars(Checksum(chk));
  }

  lemma EncodableParts(hrp: string, data: seq<byte>)
    ensures Encodable(hrp, data) <==> HrpChars(hrp) && !HasUpper(hrp) && |hrp| + 7 + |data| <= 90 && FiveBits(data)
  {
  }

  // Decoding.

  /** How many characters follow the last one. */
  method CountData(input: string) returns (dataLen: nat)
    ensures LastOne(input) == |input| - 1 - dataLen
  {
    dataLen := 0;
    while dataLen < |input| && input[|input| - 1 - dataLen] != '1'
      invariant dataLen <= |input| && forall i :: |input| - dataLen <= i < |input| ==> input[i] != '1'
    {
      dataLen := dataLen + 1;
    }
    if dataLen < |input| {
      LastOneIs(input, |input| - 1 - dataLen);
    }
  }

  lemma LowerNext(s: string, i: nat)
    requires i < |s|
    ensures Lower(s[..i + 1]) == Lower(s[..i]) + [LowerChar(s[i])] && Lower("") == ""
  {
    hide LowerChar;
  }

  /** The first pass over the human-readable part, copying it in small letters. */
  method ReadHrp(input: string, hrp: array<char>) returns (ok: bool, chk: bv32, haveLower: bool, haveUpper: bool)
    requires |input| <= hrp.Length
    modifies hrp
    ensures ok <==> HrpChars(input)
    ensures ok ==> chk == FeedAll(1, Highs(Lower(input))) && hrp[..|input|] == Lower(input)
    ensures ok ==> (haveLower <==> HasLower(input)) && (haveUpper <==> HasUpper(input))
  {
    hide *;
    NoChars(input);
    FeedNothing(1);
    NoLower(hrp);
    haveLower, haveUpper, chk := false, false, 1;
    var i := 0;
    while i < |input|
      invariant i <= |input| && HrpChars(input[..i]) && chk == FeedAll(1, Highs(Lower(input[..i])))
      invariant hrp[..i] == Lower(input[..i])
      invariant (haveLower <==> HasLower(input[..i])) && (haveUpper <==> HasUpper(input[..i]))
    {
      HighsNext(input, i);
      PrefixDecides(input, i + 1);
      LowerNext(input, i);
      CharCases(input[i]);
      var ch := input[i];
      if !HrpChar(ch) {
        return false, chk, haveLower, haveUpper;
      }
      if IsLower(ch) {
        haveLower := true;
      } else if IsUpper(ch) {
        haveUpper := true;
        ch := (ch - 'A') + 'a';
      }
      hrp[i] := ch;
      HighsSnoc(Lower(input[..i]), ch);
      FeedSnoc(1, Highs(Lower(input[..i])), High(ch));
      chk := Feed(chk, High(ch));
      assert hrp[..i + 1] == hrp[..i] + [ch];
      i := i + 1;
    }
    return true, chk, haveLower, haveUpper;
  }

  lemma NoLower(hrp: array<char>)
    ensures Lower("") == "" && hrp[..0] == ""
  {
  }

  lemma CharCases(c: char)
    ensures IsUpper(c) ==> 'A' <= c <= 'Z' && LowerChar(c) == (c - 'A') + 'a' && !IsLower(c)
    ensures !IsUpper(c) ==> LowerChar(c) == c
    ensures Low(LowerChar(c)) == Low(c)
  {
  }

  lemma HighsSnoc(s: string, c: char)
    ensures Highs(s + [c]) == Highs(s) + [High(c)]
  {
    hide High;
  }

  /** The second pass, over the characters as they are. */
  method FeedRawLows(input: string, chk0: bv32) returns (chk: bv32)
    ensures chk == FeedAll(chk0, Lows(Lower(input)))
  {
    hide *;
    NoChars(input);
    FeedNothing(chk0);
    chk := chk0;
    var i := 0;
    while i < |input|
      invariant i <= |input| && chk == FeedAll(chk0, Lows(input[..i]))
    {
      HighsNext(input, i);
      FeedSnoc(chk0, Lows(input[..i]), Low(input[i]));
      chk := Feed(chk, Low(input[i]));
      i := i + 1;
    }
    LowsIgnoreCase(input);
  }

  lemma LowsIgnoreCase(s: string)
    ensures Lows(Lower(s)) == Lows(s)
  {
    hide Low, LowerChar;
    forall i | 0 <= i < |s| ensures Low(LowerChar(s[i])) == Low(s[i]) {
      CharCases(s[i]);
    }
  }

  lemma SymbolsNext(s: string, i: nat)
    requires i < |s|
    ensures AllInCharset(s[..i + 1]) <==> AllInCharset(s[..i]) && InCharset(s[i])
    ensures AllInCharset(s[..i + 1]) ==> Symbols(s[..i + 1]) == Symbols(s[..i]) + [SymbolOf(s[i])]
    ensures !AllInCharset(s[..i + 1]) ==> !AllInCharset(s)
    ensures AllInCharset(s[..0]) && Symbols(s[..0]) == [] && s[..|s|] == s
  {
    hide InCharset, SymbolOf;
    assert AllInCharset(s[..i + 1]) ==> InCharset(s[..i + 1][i]);
    assert AllInCharset(s) ==> forall k :: 0 <= k < i + 1 ==> InCharset(s[k]);
    assert forall k :: 0 <= k < i ==> s[..i][k] == s[..i + 1][k];
  }

  lemma NoSymbols(s: string, chk: bv32)
    ensures AllInCharset(s[..0]) && Symbols(s[..0]) == [] && s[..|s|] == s && FeedAll(chk, []) == chk
    ensures !HasLower("") && !HasUpper("")
  {
  }

  /** The data part: all symbols feed the checksum, and all but six are stored. */
  method ReadData(input: string, chk0: bv32, data: array<byte>)
    returns (ok: bool, chk: bv32, haveLower: bool, haveUpper: bool)
    requires 6 <= |input| <= data.Length + 6
    modifies data
    ensures ok <==> AllInCharset(input)
    ensures ok ==> AllInCharset(input) && chk == FeedAll(chk0, Symbols(input))
    ensures ok ==> data[..|input| - 6] == Symbols(input)[..|input| - 6]
    ensures ok ==> (haveLower <==> HasLower(input)) && (haveUpper <==> HasUpper(input))
  {
    hide *;
    NoSymbols(input, chk0);
    NoChars(input);
    haveLower, haveUpper, chk := false, false, chk0;
    var i: nat := 0;
    ghost var read: seq<Symbol> := [];
    while i < |input|
      invariant i <= |input| && AllInCharset(input[..i]) && read == Symbols(input[..i]) && |read| == i
      invariant chk == FeedAll(chk0, read)
      invariant if i <= |input| - 6 then data[..i] == read else data[..|input| - 6] == read[..|input| - 6]
      invariant (haveLower <==> HasLower(input[..i])) && (haveUpper <==> HasUpper(input[..i]))
    {
      HighsNext(input, i);
      SymbolsNext(input, i);
      RevFacts(input[i]);
      var v := CharsetRev(input[i]);
      if IsLower(input[i]) {
        haveLower := true;
      }
      if IsUpper(input[i]) {
        haveUpper := true;
      }
      if v == -1 {
        return false, chk, haveLower, haveUpper;
      }
      FeedSnoc(chk0, read, v);
      chk := Feed(chk, v);
      read := read + [v];
      if i + 6 < |input| {
        data[i] := v;
        assert data[..i + 1] == data[..i] + [v];
      }
      i := i + 1;
    }
    return true, chk, haveLower, haveUpper;
  }

  lemma RevFacts(c: char)
    ensures InCharset(c) <==> CharsetRev(c) != -1
    ensures InCharset(c) ==> 0 <= CharsetRev(c) < 32 && SymbolOf(c) == CharsetRev(c)
  {
    hide CharsetRev;
    if InCharset(c) {
      SymbolOfChar(c);
    }
  }

  lemma HasInParts(hrp: string, chars: string)
    ensures HasUpper(hrp + ['1'] + chars) <==> HasUpper(hrp) || HasUpper(chars)
    ensures HasLower(hrp + ['1'] + chars) <==> HasLower(hrp) || HasLower(chars)
  {
    var s := hrp + ['1'] + chars;
    assert !IsUpper('1') && !IsLower('1');
    hide IsUpper, IsLower;
    assert forall i :: 0 <= i < |hrp| ==> s[i] == hrp[i];
    assert forall i :: 0 <= i < |chars| ==> s[|hrp| + 1 + i] == chars[i];
    forall i | 0 <= i < |s|
      ensures IsUpper(s[i]) ==> HasUpper(hrp) || HasUpper(chars)
      ensures IsLower(s[i]) ==> HasLower(hrp) || HasLower(chars)
    {
      if |hrp| < i {
        assert s[i] == chars[i - |hrp| - 1];
      }
    }
  }

  lemma WellFormedParts(s: string, hrp: string, chars: string)
    requires LastOne(s) >= 1 && HrpPart(s) == hrp && DataPart(s) == chars && 8 <= |s| <= 90 && |chars| >= 6
    ensures s == hrp + ['1'] + chars
    ensures WellFormed(s) <==>
      HrpChars(hrp) && AllInCharset(chars) && !(HasUpper(s) && HasLower(s)) && State(Lower(hrp), Symbols(chars)) == 1
  {
    hide *;
    var n := LastOne(s);
    PartsAre(s, n);
    assert s == s[..n] + [s[n]] + s[n + 1..];
    WellFormedByParts(s);
  }

  lemma WellFormedByParts(s: string)
    requires LastOne(s) >= 1 && 8 <= |s| <= 90 && |DataPart(s)| >= 6
    ensures WellFormed(s) <==>
      && HrpChars(HrpPart(s)) && AllInCharset(DataPart(s)) && !(HasUpper(s) && HasLower(s))
      && State(Lower(HrpPart(s)), Symbols(DataPart(s))) == 1
  {
    hide HrpChars, AllInCharset, HasUpper, HasLower, State, LastOne, HrpPart, DataPart;
  }

  lemma NotShaped(s: string)
    requires |s| < 8 || |s| > 90 || LastOne(s) < 1 || |s| - 1 - LastOne(s) < 6
    ensures !WellFormed(s)
  {
    hide HrpChars, AllInCharset, HasUpper, HasLower, State, LastOne;
  }

  lemma PartsAre(s: string, n: nat)
    requires LastOne(s) == n
    ensures HrpPart(s) == s[..n] && DataPart(s) == s[n + 1..]
  {
    hide LastOne;
  }

  lemma DecodedDataIs(s: string)
    requires LastOne(s) >= 0 && |DataPart(s)| >= 6 && AllInCharset(DataPart(s))
    ensures DecodedData(s) == Symbols(DataPart(s))[..|DataPart(s)| - 6] && DecodedHrp(s) == Lower(HrpPart(s))
  {
    hide SymbolOf, InCharset, LastOne;
  }

  /** bech32_decode */
  method Decode(hrp: array<char>, data: array<byte>, input: string) returns (ok: bool, dataLen: nat)
    requires 8 <= |input| <= 90 ==> |input| - 6 <= hrp.Length && |input| - 8 <= data.Length
    modifies hrp, data
    ensures ok <==> WellFormed(input)
    ensures ok ==> Shaped(input) && LastOne(input) >= 1 && |DataPart(input)| >= 6 && AllInCharset(DataPart(input))
    ensures ok ==> dataLen == |DecodedData(input)| <= data.Length && data[..dataLen] == DecodedData(input)
    ensures ok ==> |DecodedHrp(input)| < hrp.Length && hrp[..|DecodedHrp(input)| + 1] == DecodedHrp(input) + ['\0']
  {
    hide *;
    dataLen := 0;
    if |input| < 8 || |input| > 90 {
      NotShaped(input);
      return false, dataLen;
    }
    dataLen := CountData(input);
    if 1 + dataLen >= |input| || dataLen < 6 {
      NotShaped(input);
      return false, dataLen;
    }
    var hrpLen: nat := |input| - (1 + dataLen);
    dataLen := dataLen - 6;
    PartsAre(input, hrpLen);
    ghost var head, tail := HrpPart(input), DataPart(input);
    WellFormedParts(input, head, tail);
    HasInParts(head, tail);
    var chk, chk', lower, upper, lower', upper';
    ok, chk, lower, upper := ReadHrp(input[..hrpLen], hrp);
    if !ok {
      return;
    }
    hrp[hrpLen] := '\0';
    assert hrp[..hrpLen + 1] == hrp[..hrpLen] + ['\0'];
    FeedZero(chk);
    chk := Step(chk);
    chk := FeedRawLows(input[..hrpLen], chk);
    ok, chk', lower', upper' := ReadData(input[hrpLen + 1..], chk, data);
    if !ok {
      return;
    }
    StateOfPasses(Lower(head), Symbols(tail));
    DecodedDataIs(input);
    if (lower || lower') && (upper || upper') {
      return false, dataLen;
    }
    ok := chk' == 1;
    if ok {
      WellFormedFacts(input);
    }
  }
}
