/**
 What no compressor can do: the format cannot represent every string of 2^32 - 1 bytes with a
 body below 2^32 bytes, which is what the decoder takes.
 */
module SnappyLimits {
  import opened Bytes
  import opened Radix
  import opened SnappyFormat
  import opened SnappyVarint
  import opened SnappyUncompress

  // Counting byte strings.

  lemma {:induction false} SubsetSize<A>(s: set<A>, t: set<A>)
    requires s <= t
    ensures |s| <= |t|
  {
    if s != {} {
      var a :| a in s;
      SubsetSize(s - {a}, t - {a});
    }
  }

  ghost function WithFirst(s: set<seq<byte>>, b: byte): set<seq<byte>> {
    set x | x in s :: [b] + x
  }

  lemma WithFirstMembers(s: set<seq<byte>>, b: byte, x: seq<byte>)
    ensures x in WithFirst(s, b) <==> x != [] && x[0] == b && x[1..] in s
  {
    assert x != [] ==> x == [x[0]] + x[1..];
    if x in WithFirst(s, b) {
      var y :| y in s && x == [b] + y;
      assert x[1..] == y;
    }
  }

  lemma {:induction false} WithFirstSize(s: set<seq<byte>>, b: byte)
    ensures |WithFirst(s, b)| == |s|
  {
    if s == {} {
      assert WithFirst(s, b) == {};
    } else {
      var a :| a in s;
      WithFirstSize(s - {a}, b);
      WithFirstMembers(s - {a}, b, [b] + a);
      assert ([b] + a)[1..] == a;
      assert WithFirst(s, b) == WithFirst(s - {a}, b) + {[b] + a};
    }
  }

  /** The strings with a byte below m in front. */
  ghost function Prefixed(s: set<seq<byte>>, m: nat): set<seq<byte>>
    requires m <= 256
  {
    if m == 0 then {} else Prefixed(s, m - 1) + WithFirst(s, m - 1)
  }

  lemma {:induction false} PrefixedMembers(s: set<seq<byte>>, m: nat, x: seq<byte>)
    requires m <= 256
    ensures x in Prefixed(s, m) <==> x != [] && x[0] < m && x[1..] in s
  {
    hide WithFirst;
    if m > 0 {
      PrefixedMembers(s, m - 1, x);
      WithFirstMembers(s, m - 1, x);
    }
  }

  /** No string is counted twice. */
  lemma PrefixedDisjoint(s: set<seq<byte>>, b: byte)
    ensures |Prefixed(s, b) + WithFirst(s, b)| == |Prefixed(s, b)| + |WithFirst(s, b)|
  {
    hide WithFirst, Prefixed;
    var below, last := Prefixed(s, b), WithFirst(s, b);
    forall x | x in last ensures x !in below {
      PrefixedMembers(s, b, x);
      WithFirstMembers(s, b, x);
    }
    assert below !! last;
  }

  lemma PrefixedIs(s: set<seq<byte>>, m: nat)
    requires m <= 256
    ensures Prefixed(s, m) == if m == 0 then {} else Prefixed(s, m - 1) + WithFirst(s, m - 1)
  {
    hide WithFirst;
  }

  lemma OneMore(m: nat, n: nat)
    requires m > 0
    ensures m * n == (m - 1) * n + n
  {
  }

  lemma {:induction false} PrefixedSize(s: set<seq<byte>>, m: nat)
    requires m <= 256
    ensures |Prefixed(s, m)| == m * |s|
  {
    hide *;
    PrefixedIs(s, m);
    if m > 0 {
      PrefixedSize(s, m - 1);
      WithFirstSize(s, m - 1);
      PrefixedDisjoint(s, m - 1);
      OneMore(m, |s|);
    }
  }

  /** All strings of n bytes. */
  ghost function Strings(n: nat): set<seq<byte>> {
    if n == 0 then {[]} else Prefixed(Strings(n - 1), 256)
  }

  lemma {:induction false} StringsMembers(n: nat, x: seq<byte>)
    ensures x in Strings(n) <==> |x| == n
  {
    if n > 0 {
      PrefixedMembers(Strings(n - 1), 256, x);
      if x != [] {
        StringsMembers(n - 1, x[1..]);
      }
    }
  }

  lemma {:induction false} StringsSize(n: nat)
    ensures |Strings(n)| == Pow(256, n)
  {
    if n > 0 {
      StringsSize(n - 1);
      PrefixedSize(Strings(n - 1), 256);
    }
  }

  /** All strings of at most n bytes. */
  ghost function ShortStrings(n: nat): set<seq<byte>> {
    if n == 0 then {[]} else ShortStrings(n - 1) + Strings(n)
  }

  lemma {:induction false} ShortStringsMembers(n: nat, x: seq<byte>)
    ensures x in ShortStrings(n) <==> |x| <= n
  {
    if n > 0 {
      ShortStringsMembers(n - 1, x);
      StringsMembers(n, x);
    }
  }

  lemma {:induction false} ShortStringsSize(n: nat)
    ensures 255 * |ShortStrings(n)| < 256 * Pow(256, n)
  {
    if n > 0 {
      ShortStringsSize(n - 1);
      StringsSize(n);
      hide *;
      ShortStringsNext(n);
      Growth(|ShortStrings(n - 1)|, |ShortStrings(n)|, Pow(256, n - 1), Pow(256, n));
    }
  }

  lemma Growth(few: nat, more: nat, p: nat, q: nat)
    requires 255 * few < 256 * p && more <= few + q && q == 256 * p
    ensures 255 * more < 256 * q
  {
  }

  lemma ShortStringsNext(n: nat)
    requires n > 0
    ensures |ShortStrings(n)| <= |ShortStrings(n - 1)| + |Strings(n)| && Pow(256, n) == 256 * Pow(256, n - 1)
  {
    hide Strings;
    var a, b := ShortStrings(n - 1), Strings(n);
    assert |a + b| == |a| + |b| - |a * b|;
  }

  // What is left after the header.

  /** The stream after its header. */
  function Body(stream: seq<byte>): seq<byte> {
    match ParseVarint(stream, 0)
    case None => []
    case Some((_, n)) => if n <= |stream| then stream[n..] else []
  }

  lemma BodyFacts(stream: seq<byte>, x: seq<byte>)
    requires Uncompressed(stream) == Some(x)
    ensures Decode(Body(stream), [], |x|) == Some(x)
    ensures SmallBody(stream) <==> |Body(stream)| < 0x1_0000_0000
  {
    hide Decode, ParseVarint;
  }

  /** A body starts with a literal: there is nothing yet to copy. */
  lemma BodyStartsWithLiteral(body: seq<byte>, limit: nat)
    requires Decode(body, [], limit).Some? && Decode(body, [], limit).value != []
    ensures body != [] && body[0] % 4 == LITERAL
  {
    hide LittleEndian, LiteralLength, CopyOffset, CopyLength, TrailerSize, Apply;
  }

  /** Of bodies that start with a literal, the two low bits of the first byte may be left out. */
  function Key(body: seq<byte>): seq<byte> {
    if body == [] then [] else [body[0] / 4] + body[1..]
  }

  lemma KeyInjective(a: seq<byte>, b: seq<byte>)
    requires a != [] && b != [] && a[0] % 4 == b[0] % 4 == LITERAL && Key(a) == Key(b)
    ensures a == b
  {
    assert Key(a)[1..] == a[1..] && Key(b)[1..] == b[1..];
    assert a == [a[0]] + a[1..] && b == [b[0]] + b[1..];
  }

  lemma KeyMember(body: seq<byte>, n: nat)
    requires n > 0 && body != [] && |body| <= n
    ensures Key(body) in Prefixed(ShortStrings(n - 1), 64)
  {
    assert Key(body)[1..] == body[1..];
    ShortStringsMembers(n - 1, body[1..]);
    PrefixedMembers(ShortStrings(n - 1), 64, Key(body));
  }

  /** There are fewer keys of bodies of at most n bytes than strings of n bytes. */
  lemma FewKeys(n: nat)
    requires n > 0
    ensures |Prefixed(ShortStrings(n - 1), 64)| < |Strings(n)|
  {
    StringsSize(n);
    ShortStringsSize(n - 1);
    PrefixedSize(ShortStrings(n - 1), 64);
    assert Pow(256, n) == 256 * Pow(256, n - 1);
  }

  ghost function Keys(s: set<seq<byte>>, g: seq<byte> -> seq<byte>): set<seq<byte>> {
    set x | x in s :: Key(g(x))
  }

  lemma {:induction false} KeysSize(s: set<seq<byte>>, g: seq<byte> -> seq<byte>)
    requires forall x :: x in s ==> g(x) != [] && g(x)[0] % 4 == LITERAL
    requires forall x, y :: x in s && y in s && g(x) == g(y) ==> x == y
    ensures |Keys(s, g)| == |s|
  {
    hide Key;
    if s == {} {
      assert Keys(s, g) == {};
    } else {
      var a :| a in s;
      var others := s - {a};
      KeysSize(others, g);
      if Key(g(a)) in Keys(others, g) {
        var x :| x in others && Key(g(a)) == Key(g(x));
        KeyInjective(g(a), g(x));
      }
      assert Keys(s, g) == Keys(others, g) + {Key(g(a))};
    }
  }

  lemma KeysMembers(s: set<seq<byte>>, g: seq<byte> -> seq<byte>, n: nat)
    requires n > 0 && forall x :: x in s ==> g(x) != [] && |g(x)| <= n
    ensures Keys(s, g) <= Prefixed(ShortStrings(n - 1), 64)
  {
    hide Key, Prefixed, ShortStrings;
    forall k | k in Keys(s, g) ensures k in Prefixed(ShortStrings(n - 1), 64) {
      var x :| x in s && k == Key(g(x));
      KeyMember(g(x), n);
    }
  }

  /** If different strings of n bytes have different bodies, not all of these have at most n bytes. */
  lemma SomeBodyIsLonger(n: nat, g: seq<byte> -> seq<byte>)
    requires n > 0
    requires forall x :: |x| == n ==> g(x) != [] && g(x)[0] % 4 == LITERAL
    requires forall x, y :: |x| == |y| == n && g(x) == g(y) ==> x == y
    ensures exists x :: |x| == n && |g(x)| > n
  {
    hide Keys, Prefixed, ShortStrings, Strings;
    if forall x :: |x| == n ==> |g(x)| <= n {
      var s := Strings(n);
      forall x: seq<byte> ensures x in s <==> |x| == n {
        StringsMembers(n, x);
      }
      KeysSize(s, g);
      KeysMembers(s, g, n);
      SubsetSize(Keys(s, g), Prefixed(ShortStrings(n - 1), 64));
      FewKeys(n);
    }
  }

  /**
     However strings are compressed, there is one of 2^32 - 1 bytes whose compressed body has 2^32
     bytes or more, so that it means the string and is refused.
   */
  lemma SomeBodyIsLarge(compress: seq<byte> -> seq<byte>)
    requires forall x :: |x| == 0xFFFF_FFFF ==> Uncompressed(compress(x)) == Some(x)
    ensures exists x :: |x| == 0xFFFF_FFFF && Uncompressed(compress(x)) == Some(x) && !SmallBody(compress(x))
  {
    hide *;
    var g := (x: seq<byte>) => Body(compress(x));
    forall x: seq<byte> | |x| == 0xFFFF_FFFF
      ensures g(x) != [] && g(x)[0] % 4 == LITERAL && Decode(g(x), [], |x|) == Some(x)
      ensures SmallBody(compress(x)) <==> |g(x)| <= 0xFFFF_FFFF
    {
      BodyFacts(compress(x), x);
      BodyStartsWithLiteral(g(x), |x|);
    }
    SomeBodyIsLonger(0xFFFF_FFFF, g);
  }
}
