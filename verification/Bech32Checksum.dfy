/**
 The checksum of Bech32 (BIP 173, "Checksum"): a linear map over GF(2) on 30-bit states,
 applied once for every five-bit symbol.
 */
module Bech32Checksum {

  type Symbol = x: int | 0 <= x < 32

  /** A symbol, which is an uint8_t, in the checksum's word. */
  function Bits(v: Symbol): bv32 {
    v as bv8 as bv32
  }

  function Xor(x: bv32, y: bv32): bv32 {
    x ^ y
  }

  /** The state is kept in 30 bits. */
  predicate IsState(x: bv32) {
    x < 0x4000_0000
  }

  /** -((b >> k) & 1) & generator, for bit k of b = pre >> 25. */
  function Feedback(pre: bv32, k: bv6, generator: bv32): bv32
    requires k < 5
  {
    (0 - ((((pre >> 25) & 0xff) >> k) & 1)) & generator
  }

  function Shifted(pre: bv32): bv32 {
    (pre & 0x1FFFFFF) << 5
  }

  /** bech32_polymod_step */
  function Step(pre: bv32): bv32 {
    Xor(Xor(Xor(Xor(Xor(Shifted(pre),
      Feedback(pre, 0, 0x3b6a57b2)),
      Feedback(pre, 1, 0x26508e6d)),
      Feedback(pre, 2, 0x1ea119fa)),
      Feedback(pre, 3, 0x3d4233dd)),
      Feedback(pre, 4, 0x2a1462b3))
  }

  // Linearity.

  lemma ShiftedLinear(x: bv32, y: bv32)
    ensures Shifted(Xor(x, y)) == Xor(Shifted(x), Shifted(y))
  {
  }

  lemma FeedbackLinear0(x: bv32, y: bv32)
    ensures Feedback(Xor(x, y), 0, 0x3b6a57b2) == Xor(Feedback(x, 0, 0x3b6a57b2), Feedback(y, 0, 0x3b6a57b2))
  {
  }

  lemma FeedbackLinear1(x: bv32, y: bv32)
    ensures Feedback(Xor(x, y), 1, 0x26508e6d) == Xor(Feedback(x, 1, 0x26508e6d), Feedback(y, 1, 0x26508e6d))
  {
  }

  lemma FeedbackLinear2(x: bv32, y: bv32)
    ensures Feedback(Xor(x, y), 2, 0x1ea119fa) == Xor(Feedback(x, 2, 0x1ea119fa), Feedback(y, 2, 0x1ea119fa))
  {
  }

  lemma FeedbackLinear3(x: bv32, y: bv32)
    ensures Feedback(Xor(x, y), 3, 0x3d4233dd) == Xor(Feedback(x, 3, 0x3d4233dd), Feedback(y, 3, 0x3d4233dd))
  {
  }

  lemma FeedbackLinear4(x: bv32, y: bv32)
    ensures Feedback(Xor(x, y), 4, 0x2a1462b3) == Xor(Feedback(x, 4, 0x2a1462b3), Feedback(y, 4, 0x2a1462b3))
  {
  }

  lemma XorCommutes(x: bv32, y: bv32)
    ensures Xor(x, y) == Xor(y, x)
  {
  }

  lemma XorAssociative(x: bv32, y: bv32, z: bv32)
    ensures Xor(Xor(x, y), z) == Xor(x, Xor(y, z))
  {
  }

  lemma XorZero(x: bv32)
    ensures Xor(x, 0) == x && Xor(0, x) == x && Xor(x, x) == 0
  {
  }

  lemma XorBound(x: bv32, y: bv32)
    requires IsState(x) && IsState(y)
    ensures IsState(Xor(x, y))
  {
  }

  /** y ^ y cancels. */
  lemma XorCancels(x: bv32, y: bv32)
    ensures Xor(Xor(x, y), y) == x
    ensures Xor(x, y) == 0 <==> x == y
  {
    hide *;
    XorAssociative(x, y, y);
    XorZero(y);
    XorZero(x);
  }

  lemma XorSwap(a: bv32, b: bv32, c: bv32, d: bv32)
    ensures Xor(Xor(a, b), Xor(c, d)) == Xor(Xor(a, c), Xor(b, d))
  {
    hide *;
    XorAssociative(a, b, Xor(c, d));
    XorAssociative(b, c, d);
    XorCommutes(b, c);
    XorAssociative(c, b, d);
    XorAssociative(a, c, Xor(b, d));
  }

  /** The step is linear. */
  lemma StepLinear(x: bv32, y: bv32)
    ensures Step(Xor(x, y)) == Xor(Step(x), Step(y))
  {
    hide Shifted, Feedback, Xor;
    ShiftedLinear(x, y);
    FeedbackLinear0(x, y);
    FeedbackLinear1(x, y);
    FeedbackLinear2(x, y);
    FeedbackLinear3(x, y);
    FeedbackLinear4(x, y);
    var a0, b0 := Shifted(x), Shifted(y);
    XorSwap(a0, b0, Feedback(x, 0, 0x3b6a57b2), Feedback(y, 0, 0x3b6a57b2));
    var a1, b1 := Xor(a0, Feedback(x, 0, 0x3b6a57b2)), Xor(b0, Feedback(y, 0, 0x3b6a57b2));
    XorSwap(a1, b1, Feedback(x, 1, 0x26508e6d), Feedback(y, 1, 0x26508e6d));
    var a2, b2 := Xor(a1, Feedback(x, 1, 0x26508e6d)), Xor(b1, Feedback(y, 1, 0x26508e6d));
    XorSwap(a2, b2, Feedback(x, 2, 0x1ea119fa), Feedback(y, 2, 0x1ea119fa));
    var a3, b3 := Xor(a2, Feedback(x, 2, 0x1ea119fa)), Xor(b2, Feedback(y, 2, 0x1ea119fa));
    XorSwap(a3, b3, Feedback(x, 3, 0x3d4233dd), Feedback(y, 3, 0x3d4233dd));
    var a4, b4 := Xor(a3, Feedback(x, 3, 0x3d4233dd)), Xor(b3, Feedback(y, 3, 0x3d4233dd));
    XorSwap(a4, b4, Feedback(x, 4, 0x2a1462b3), Feedback(y, 4, 0x2a1462b3));
  }

  lemma StepBound(x: bv32)
    ensures IsState(Step(x))
  {
  }

  /** Only zero steps to zero. */
  lemma StepKernel(x: bv32)
    requires IsState(x) && Step(x) == 0
    ensures x == 0
  {
  }

  lemma StepInjective(x: bv32, y: bv32)
    requires IsState(x) && IsState(y) && Step(x) == Step(y)
    ensures x == y
  {
    hide *;
    StepLinear(x, y);
    XorCancels(Step(x), Step(y));
    XorCancels(x, y);
    XorBound(x, y);
    StepKernel(Xor(x, y));
  }

  // Feeding symbols.

  /** chk = bech32_polymod_step(chk) ^ v */
  function Feed(chk: bv32, v: Symbol): bv32 {
    Xor(Step(chk), Bits(v))
  }

  lemma SymbolBits(v: Symbol)
    ensures IsState(Bits(v)) && Bits(v) < 32 && Bits(v) as int == v
  {
    BackFromBits(v);
    hide Bits;
  }

  lemma BackFromBits(v: Symbol)
    ensures Bits(v) as int == v
  {
  }

  lemma FeedBound(chk: bv32, v: Symbol)
    ensures IsState(Feed(chk, v))
  {
    hide Xor, IsState, Step;
    StepBound(chk);
    SymbolBits(v);
    XorBound(Step(chk), Bits(v));
  }

  /** Different states or different symbols, but not both, lead to different states. */
  lemma FeedInjective(a: bv32, v: Symbol, b: bv32, w: Symbol)
    requires IsState(a) && IsState(b) && (a == b || v == w) && Feed(a, v) == Feed(b, w)
    ensures a == b && v == w
  {
    SymbolBits(v);
    SymbolBits(w);
    hide *;
    FeedIs(a, v);
    FeedIs(b, w);
    XorCancels(Step(a), Bits(v));
    XorCancels(Step(b), Bits(w));
    XorCommutes(Step(a), Bits(v));
    XorCommutes(Step(b), Bits(w));
    XorCancels(Bits(v), Step(a));
    XorCancels(Bits(w), Step(b));
    if v == w {
      StepInjective(a, b);
    }
  }

  lemma FeedIs(chk: bv32, v: Symbol)
    ensures Feed(chk, v) == Xor(Step(chk), Bits(v))
  {
  }

  function FeedAll(chk: bv32, symbols: seq<Symbol>): bv32 {
    if symbols == [] then chk else Feed(FeedAll(chk, symbols[..|symbols| - 1]), symbols[|symbols| - 1])
  }

  lemma FeedSnoc(chk: bv32, symbols: seq<Symbol>, v: Symbol)
    ensures FeedAll(chk, symbols + [v]) == Feed(FeedAll(chk, symbols), v)
  {
    assert (symbols + [v])[..|symbols|] == symbols;
  }

  lemma {:induction false} FeedAllAppend(chk: bv32, a: seq<Symbol>, b: seq<Symbol>)
    ensures FeedAll(chk, a + b) == FeedAll(FeedAll(chk, a), b)
    decreases |b|
  {
    hide Feed;
    if b == [] {
      assert a + b == a;
    } else {
      var init, v := b[..|b| - 1], b[|b| - 1];
      assert a + b == (a + init) + [v];
      FeedAllAppend(chk, a, init);
      FeedSnoc(chk, a + init, v);
    }
  }

  lemma {:induction false} FeedAllBound(chk: bv32, symbols: seq<Symbol>)
    requires IsState(chk)
    ensures IsState(FeedAll(chk, symbols))
    decreases |symbols|
  {
    hide Feed, IsState;
    if symbols != [] {
      FeedBound(FeedAll(chk, symbols[..|symbols| - 1]), symbols[|symbols| - 1]);
    }
  }

  lemma {:induction false} FeedAllInjective(a: bv32, b: bv32, symbols: seq<Symbol>)
    requires IsState(a) && IsState(b) && FeedAll(a, symbols) == FeedAll(b, symbols)
    ensures a == b
    decreases |symbols|
  {
    hide Feed, IsState;
    if symbols != [] {
      var init, v := symbols[..|symbols| - 1], symbols[|symbols| - 1];
      FeedAllBound(a, init);
      FeedAllBound(b, init);
      FeedInjective(FeedAll(a, init), v, FeedAll(b, init), v);
      FeedAllInjective(a, b, init);
    }
  }

  /**
     A single changed symbol is always detected: the checksum of a sequence that differs in
     exactly one place is different.
   */
  lemma OneSymbolMatters(chk: bv32, before: seq<Symbol>, v: Symbol, w: Symbol, after: seq<Symbol>)
    requires IsState(chk) && v != w
    ensures FeedAll(chk, before + [v] + after) != FeedAll(chk, before + [w] + after)
  {
    hide *;
    var mid := FeedAll(chk, before);
    FeedAllBound(chk, before);
    FeedSnoc(chk, before, v);
    FeedSnoc(chk, before, w);
    FeedAllAppend(chk, before + [v], after);
    FeedAllAppend(chk, before + [w], after);
    FeedBound(mid, v);
    FeedBound(mid, w);
    if FeedAll(chk, before + [v] + after) == FeedAll(chk, before + [w] + after) {
      FeedAllInjective(Feed(mid, v), Feed(mid, w), after);
      FeedInjective(mid, v, mid, w);
    }
  }

  // The six symbols at the end.

  function Up(x: bv32): bv32 {
    x << 5
  }

  /** Up to six symbols as the bits of a state, the last one lowest. */
  function Packed(s: seq<Symbol>): bv32 {
    if s == [] then 0 else Xor(Up(Packed(s[..|s| - 1])), Bits(s[|s| - 1]))
  }

  /** k symbols fit 5k bits. */
  predicate Within(x: bv32, k: nat) {
    if k == 0 then x == 0
    else if k == 1 then x < 0x20
    else if k == 2 then x < 0x400
    else if k == 3 then x < 0x8000
    else if k == 4 then x < 0x10_0000
    else if k == 5 then x < 0x200_0000
    else x < 0x4000_0000
  }

  lemma WithinNext(x: bv32, v: bv32, k: nat)
    requires Within(x, k) && k < 6 && v < 32
    ensures Within(Xor(Up(x), v), k + 1)
  {
  }

  lemma WithinShifts(x: bv32, k: nat)
    requires Within(x, k) && k <= 5
    ensures x < 0x200_0000
  {
  }

  lemma {:induction false} PackedWithin(s: seq<Symbol>)
    requires |s| <= 6
    ensures Within(Packed(s), |s|)
    decreases |s|
  {
    if s != [] {
      var n := |s| - 1;
      PackedWithin(s[..n]);
      SymbolBits(s[n]);
      hide Within, Xor, Up;
      WithinNext(Packed(s[..n]), Bits(s[n]), n);
    }
  }

  function Zeros(n: nat): (s: seq<Symbol>)
    ensures |s| == n
  {
    seq(n, _ => 0)
  }

  lemma ZerosNext(n: nat)
    requires n > 0
    ensures Zeros(n)[..n - 1] == Zeros(n - 1) && Zeros(n)[n - 1] == 0
  {
  }

  /** By linearity, up to six symbols are simply added to what zeros would give. */
  lemma {:induction false} FeedPacked(chk: bv32, s: seq<Symbol>)
    requires |s| <= 6
    ensures FeedAll(chk, s) == Xor(FeedAll(chk, Zeros(|s|)), Packed(s))
    decreases |s|
  {
    if s == [] {
      XorZero(chk);
    } else {
      hide *;
      var init, v := s[..|s| - 1], s[|s| - 1];
      LastSymbol(chk, s);
      var z := FeedAll(chk, Zeros(|s| - 1));
      FeedPacked(chk, init);
      PackedWithin(init);
      WithinShifts(Packed(init), |init|);
      FeedIs(Xor(z, Packed(init)), v);
      FeedZero(z);
      StepLinear(z, Packed(init));
      StepUp(Packed(init));
      XorAssociative(Step(z), Up(Packed(init)), Bits(v));
    }
  }

  lemma LastSymbol(chk: bv32, s: seq<Symbol>)
    requires s != []
    ensures var init, v := s[..|s| - 1], s[|s| - 1];
      && FeedAll(chk, s) == Feed(FeedAll(chk, init), v)
      && FeedAll(chk, Zeros(|s|)) == Feed(FeedAll(chk, Zeros(|s| - 1)), 0)
      && Packed(s) == Xor(Up(Packed(init)), Bits(v))
  {
    ZerosNext(|s|);
    hide Feed, Xor, Up, Bits;
  }

  lemma FeedZero(chk: bv32)
    ensures Feed(chk, 0) == Step(chk)
  {
    hide Step, Xor;
    assert Bits(0) == 0;
    XorZero(Step(chk));
  }

  /** Without feedback the step is a shift. */
  lemma StepUp(x: bv32)
    requires x < 0x200_0000
    ensures Step(x) == Up(x)
  {
    hide Shifted, Feedback, Xor, Up;
    NoFeedback(x);
    XorZero(Up(x));
  }

  lemma NoFeedback(x: bv32)
    requires x < 0x200_0000
    ensures Shifted(x) == Up(x)
    ensures Feedback(x, 0, 0x3b6a57b2) == Feedback(x, 1, 0x26508e6d) == Feedback(x, 2, 0x1ea119fa) == 0
    ensures Feedback(x, 3, 0x3d4233dd) == Feedback(x, 4, 0x2a1462b3) == 0
  {
  }

  /** (chk >> ((5 - i) * 5)) & 0x1f, with the six shifts written out. */
  function FieldBits(chk: bv32, i: nat): bv32
    requires i < 6
  {
    (if i == 0 then chk >> 25 else if i == 1 then chk >> 20 else if i == 2 then chk >> 15
     else if i == 3 then chk >> 10 else if i == 4 then chk >> 5 else chk) & 0x1f
  }

  lemma FieldBound(chk: bv32, i: nat)
    requires i < 6
    ensures FieldBits(chk, i) < 32 && FieldBits(chk, i) as int < 32
  {
  }

  function Field(chk: bv32, i: nat): Symbol
    requires i < 6
  {
    FieldBound(chk, i);
    FieldBits(chk, i) as int
  }

  lemma BitsOfInt(x: bv32)
    requires x < 32 && x as int < 32
    ensures Bits(x as int) == x
  {
  }

  lemma FieldHas(chk: bv32, i: nat)
    requires i < 6
    ensures Bits(Field(chk, i)) == FieldBits(chk, i)
  {
    FieldBound(chk, i);
    hide FieldBits, Bits;
    BitsOfInt(FieldBits(chk, i));
  }

  lemma FieldIs(chk: bv32, i: nat, v: Symbol)
    requires i < 6 && FieldBits(chk, i) == Bits(v)
    ensures Field(chk, i) == v
  {
    SymbolBits(v);
    hide FieldBits, Bits;
  }

  function Unpacked(chk: bv32): (s: seq<Symbol>)
    ensures |s| == 6 && forall i :: 0 <= i < 6 ==> s[i] == Field(chk, i)
  {
    [Field(chk, 0), Field(chk, 1), Field(chk, 2), Field(chk, 3), Field(chk, 4), Field(chk, 5)]
  }

  /** Packing six words of five bits. */
  function Pack6(a: bv32, b: bv32, c: bv32, d: bv32, e: bv32, f: bv32): bv32 {
    Xor(Up(Xor(Up(Xor(Up(Xor(Up(Xor(Up(a), b)), c)), d)), e)), f)
  }

  lemma PackedSix(s: seq<Symbol>)
    requires |s| == 6
    ensures Packed(s) == Pack6(Bits(s[0]), Bits(s[1]), Bits(s[2]), Bits(s[3]), Bits(s[4]), Bits(s[5]))
  {
    hide Up, Xor, Packed, Bits;
    XorZero(Bits(s[0]));
    UpZero();
    PackedNext(s, 0);
    PackedNext(s, 1);
    PackedNext(s, 2);
    PackedNext(s, 3);
    PackedNext(s, 4);
    PackedNext(s, 5);
  }

  lemma PackedNext(s: seq<Symbol>, i: nat)
    requires i < |s|
    ensures Packed(s[..i + 1]) == Xor(Up(Packed(s[..i])), Bits(s[i]))
    ensures Packed(s[..0]) == 0 && s[..|s|] == s
  {
    hide Up, Xor, Bits;
    assert s[..i + 1][..i] == s[..i];
  }

  lemma UpZero()
    ensures Up(0) == 0
  {
  }

  lemma Pack6Fields(chk: bv32)
    requires IsState(chk)
    ensures Pack6(FieldBits(chk, 0), FieldBits(chk, 1), FieldBits(chk, 2), FieldBits(chk, 3), FieldBits(chk, 4),
      FieldBits(chk, 5)) == chk
  {
  }

  lemma FieldsPack6(a: bv32, b: bv32, c: bv32, d: bv32, e: bv32, f: bv32)
    requires a < 32 && b < 32 && c < 32 && d < 32 && e < 32 && f < 32
    ensures var p := Pack6(a, b, c, d, e, f);
      && FieldBits(p, 0) == a && FieldBits(p, 1) == b && FieldBits(p, 2) == c
      && FieldBits(p, 3) == d && FieldBits(p, 4) == e && FieldBits(p, 5) == f
  {
  }

  lemma PackUnpacked(chk: bv32)
    requires IsState(chk)
    ensures Packed(Unpacked(chk)) == chk
  {
    hide *;
    forall i | 0 <= i < 6 ensures Bits(Unpacked(chk)[i]) == FieldBits(chk, i) {
      FieldHas(chk, i);
    }
    PackedSix(Unpacked(chk));
    Pack6Fields(chk);
  }

  lemma UnpackPacked(s: seq<Symbol>)
    requires |s| == 6
    ensures Unpacked(Packed(s)) == s
  {
    hide *;
    forall i | 0 <= i < 6 ensures Bits(s[i]) < 32 {
      SymbolBits(s[i]);
    }
    PackedSix(s);
    FieldsPack6(Bits(s[0]), Bits(s[1]), Bits(s[2]), Bits(s[3]), Bits(s[4]), Bits(s[5]));
    FieldIs(Packed(s), 0, s[0]);
    FieldIs(Packed(s), 1, s[1]);
    FieldIs(Packed(s), 2, s[2]);
    FieldIs(Packed(s), 3, s[3]);
    FieldIs(Packed(s), 4, s[4]);
    FieldIs(Packed(s), 5, s[5]);
  }

  /** The six symbols to append: what is left to reach 1 after six zeros. */
  function Checksum(chk: bv32): (s: seq<Symbol>)
    ensures |s| == 6
  {
    Unpacked(Xor(FeedAll(chk, Zeros(6)), 1))
  }

  /** Six symbols lead to 1 exactly if they are the checksum. */
  lemma ChecksumUnique(chk: bv32, s: seq<Symbol>)
    requires IsState(chk) && |s| == 6
    ensures FeedAll(chk, s) == 1 <==> s == Checksum(chk)
  {
    hide *;
    ChecksumIs(chk);
    OneIsState();
    var z := FeedAll(chk, Zeros(6));
    FeedPacked(chk, s);
    FeedAllBound(chk, Zeros(6));
    XorBound(z, 1);
    PackUnpacked(Xor(z, 1));
    UnpackPacked(s);
    XorCommutes(z, 1);
    XorCommutes(z, Packed(s));
    XorCancels(1, z);
    XorCancels(Packed(s), z);
  }

  lemma ChecksumIs(chk: bv32)
    ensures Checksum(chk) == Unpacked(Xor(FeedAll(chk, Zeros(6)), 1))
  {
    hide Unpacked, Xor, FeedAll;
  }

  lemma OneIsState()
    ensures IsState(1)
  {
  }

  // The generator of the code, in the field of 32 elements.

  /** Twice an element: five bits, with x^5 == x^3 + 1. */
  function Twice(v: bv32): bv32 {
    if v < 16 then v << 1 else (v << 1) ^ 41
  }

  /** Six elements in one word, each multiplied by 2^k. */
  function Multiple(k: nat, a: bv32, b: bv32, c: bv32, d: bv32, e: bv32, f: bv32): bv32 {
    if k == 0 then (a << 25) | (b << 20) | (c << 15) | (d << 10) | (e << 5) | f
    else Multiple(k - 1, Twice(a), Twice(b), Twice(c), Twice(d), Twice(e), Twice(f))
  }

  /**
     What is shifted out of a state comes back as that multiple of the generator's coefficients. By
     linearity, this is all that a step does but shift.
   */
  lemma GeneratorIs()
    ensures Step(0x200_0000) == Multiple(0, 29, 22, 20, 21, 29, 18)
    ensures Step(0x400_0000) == Multiple(1, 29, 22, 20, 21, 29, 18)
    ensures Step(0x800_0000) == Multiple(2, 29, 22, 20, 21, 29, 18)
    ensures Step(0x1000_0000) == Multiple(3, 29, 22, 20, 21, 29, 18)
    ensures Step(0x2000_0000) == Multiple(4, 29, 22, 20, 21, 29, 18)
  {
  }
}
