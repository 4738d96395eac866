/**
 Where the constants of SHA-256 come from (sections 4.2.2 and 5.3.3 of FIPS 180-4): the fractions
 of the cube and square roots of the first primes.
 */
module Sha256Constants {
  import opened Sha256Standard
  import opened Radix

  // The first 64 primes.

  ghost predicate IsPrime(n: nat) {
    n >= 2 && forall d :: 2 <= d < n ==> n % d != 0
  }

  const PRIMES_0: seq<nat> := [
    2, 3, 5, 7, 11, 13, 17, 19, 23, 29, 31, 37, 41, 43, 47, 53]
  const PRIMES_1: seq<nat> := [
    59, 61, 67, 71, 73, 79, 83, 89, 97, 101, 103, 107, 109, 113, 127, 131]
  const PRIMES_2: seq<nat> := [
    137, 139, 149, 151, 157, 163, 167, 173, 179, 181, 191, 193, 197, 199, 211, 223]
  const PRIMES_3: seq<nat> := [
    227, 229, 233, 239, 241, 251, 257, 263, 269, 271, 277, 281, 283, 293, 307, 311]

  function Prime(t: nat): nat
    requires t < 64
  {
    if t < 16 then PRIMES_0[t] else if t < 32 then PRIMES_1[t - 16]
    else if t < 48 then PRIMES_2[t - 32] else PRIMES_3[t - 48]
  }

  predicate Divides(d: nat, n: nat)
    requires d > 0
  {
    d < n && n % d == 0
  }

  /** Below 18 * 18, a number without these divisors is prime. */
  predicate Sieved(n: nat) {
    && n >= 2 && !Divides(2, n) && !Divides(3, n) && !Divides(5, n) && !Divides(7, n)
    && !Divides(11, n) && !Divides(13, n) && !Divides(17, n)
  }

  lemma Multiples(n: nat, h: nat)
    ensures n == 2 * h ==> n % 2 == 0
    ensures n == 3 * h ==> n % 3 == 0
  {
  }

  /** A divisor below 18 is in the sieve, or a multiple of two or three. */
  lemma SmallDivisor(n: nat, d: nat)
    requires 2 <= d < 18 && Divides(d, n)
    ensures !Sieved(n)
  {
    var q := n / d;
    match d
    case 4 => Multiples(n, 2 * q);
    case 6 => Multiples(n, 3 * q);
    case 8 => Multiples(n, 4 * q);
    case 9 => Multiples(n, 3 * q);
    case 10 => Multiples(n, 5 * q);
    case 12 => Multiples(n, 6 * q);
    case 14 => Multiples(n, 7 * q);
    case 15 => Multiples(n, 5 * q);
    case 16 => Multiples(n, 8 * q);
    case _ =>
  }

  /** If d divides n, so does n / d. */
  lemma Cofactor(n: nat, d: nat)
    requires n < 18 * 18 && 18 <= d < n && n % d == 0
    ensures 2 <= n / d < 18 && Divides(n / d, n)
  {
    var e := n / d;
    DivStep(d, n);
    hide *;
    if e <= 1 {
      MulMonotone(e, 1, d, d);
    } else {
      if e >= 18 {
        MulMonotone(18, e, 18, d);
      }
      MulMonotone(2, e, d, d);
      MulMonotone(e, e, 2, d);
      QuotientIs(e, n, d, 0);
      DividesIs(e, n);
    }
  }

  lemma DividesIs(d: nat, n: nat)
    requires 0 < d < n && n % d == 0
    ensures Divides(d, n)
  {
  }

  lemma SievedIsPrime(n: nat)
    requires n < 18 * 18
    ensures IsPrime(n) <==> Sieved(n)
  {
    if Sieved(n) {
      forall d | 2 <= d < n ensures n % d != 0 {
        if n % d == 0 {
          if d >= 18 {
            Cofactor(n, d);
            SmallDivisor(n, n / d);
          } else {
            SmallDivisor(n, d);
          }
        }
      }
    }
  }

  lemma Sieve0(n: nat)
    requires 2 <= n < 48
    ensures Sieved(n) ==> exists t: nat | t < 64 :: Prime(t) == n
  {
    assert Prime(0) == 2 && Prime(1) == 3 && Prime(2) == 5 && Prime(3) == 7 && Prime(4) == 11 && Prime(5) == 13
    && Prime(6) == 17 && Prime(7) == 19 && Prime(8) == 23 && Prime(9) == 29 && Prime(10) == 31 && Prime(11) ==
    37 && Prime(12) == 41 && Prime(13) == 43 && Prime(14) == 47;
    match n
    case 2 => case 3 => case 4 => case 5 => case 6 => case 7 => case 8 => case 9 => case 10 => case 11 => case
    12 => case 13 => case 14 => case 15 => case 16 => case 17 => case 18 => case 19 => case 20 => case 21 =>
    case 22 => case 23 => case 24 => case 25 => case 26 => case 27 => case 28 => case 29 => case 30 => case 31
    => case 32 => case 33 => case 34 => case 35 => case 36 => case 37 => case 38 => case 39 => case 40 => case
    41 => case 42 => case 43 => case 44 => case 45 => case 46 => case _ =>
  }

  lemma Sieve1(n: nat)
    requires 48 <= n < 90
    ensures Sieved(n) ==> exists t: nat | t < 64 :: Prime(t) == n
  {
    assert Prime(15) == 53 && Prime(16) == 59 && Prime(17) == 61 && Prime(18) == 67 && Prime(19) == 71 &&
    Prime(20) == 73 && Prime(21) == 79 && Prime(22) == 83 && Prime(23) == 89;
    match n
    case 48 => case 49 => case 50 => case 51 => case 52 => case 53 => case 54 => case 55 => case 56 => case 57
    => case 58 => case 59 => case 60 => case 61 => case 62 => case 63 => case 64 => case 65 => case 66 => case
    67 => case 68 => case 69 => case 70 => case 71 => case 72 => case 73 => case 74 => case 75 => case 76 =>
    case 77 => case 78 => case 79 => case 80 => case 81 => case 82 => case 83 => case 84 => case 85 => case 86
    => case 87 => case 88 => case _ =>
  }

  lemma Sieve2(n: nat)
    requires 90 <= n < 128
    ensures Sieved(n) ==> exists t: nat | t < 64 :: Prime(t) == n
  {
    assert Prime(24) == 97 && Prime(25) == 101 && Prime(26) == 103 && Prime(27) == 107 && Prime(28) == 109 &&
    Prime(29) == 113 && Prime(30) == 127;
    match n
    case 90 => case 91 => case 92 => case 93 => case 94 => case 95 => case 96 => case 97 => case 98 => case 99
    => case 100 => case 101 => case 102 => case 103 => case 104 => case 105 => case 106 => case 107 => case 108
    => case 109 => case 110 => case 111 => case 112 => case 113 => case 114 => case 115 => case 116 => case 117
    => case 118 => case 119 => case 120 => case 121 => case 122 => case 123 => case 124 => case 125 => case 126
    => case _ =>
  }

  lemma Sieve3(n: nat)
    requires 128 <= n < 165
    ensures Sieved(n) ==> exists t: nat | t < 64 :: Prime(t) == n
  {
    assert Prime(31) == 131 && Prime(32) == 137 && Prime(33) == 139 && Prime(34) == 149 && Prime(35) == 151 &&
    Prime(36) == 157 && Prime(37) == 163;
    match n
    case 128 => case 129 => case 130 => case 131 => case 132 => case 133 => case 134 => case 135 => case 136 =>
    case 137 => case 138 => case 139 => case 140 => case 141 => case 142 => case 143 => case 144 => case 145 =>
    case 146 => case 147 => case 148 => case 149 => case 150 => case 151 => case 152 => case 153 => case 154 =>
    case 155 => case 156 => case 157 => case 158 => case 159 => case 160 => case 161 => case 162 => case 163 =>
    case _ =>
  }

  lemma Sieve4(n: nat)
    requires 165 <= n < 204
    ensures Sieved(n) ==> exists t: nat | t < 64 :: Prime(t) == n
  {
    assert Prime(38) == 167 && Prime(39) == 173 && Prime(40) == 179 && Prime(41) == 181 && Prime(42) == 191 &&
    Prime(43) == 193 && Prime(44) == 197 && Prime(45) == 199;
    match n
    case 165 => case 166 => case 167 => case 168 => case 169 => case 170 => case 171 => case 172 => case 173 =>
    case 174 => case 175 => case 176 => case 177 => case 178 => case 179 => case 180 => case 181 => case 182 =>
    case 183 => case 184 => case 185 => case 186 => case 187 => case 188 => case 189 => case 190 => case 191 =>
    case 192 => case 193 => case 194 => case 195 => case 196 => case 197 => case 198 => case 199 => case 200 =>
    case 201 => case 202 => case _ =>
  }

  lemma Sieve5(n: nat)
    requires 204 <= n < 240
    ensures Sieved(n) ==> exists t: nat | t < 64 :: Prime(t) == n
  {
    assert Prime(46) == 211 && Prime(47) == 223 && Prime(48) == 227 && Prime(49) == 229 && Prime(50) == 233 &&
    Prime(51) == 239;
    match n
    case 204 => case 205 => case 206 => case 207 => case 208 => case 209 => case 210 => case 211 => case 212 =>
    case 213 => case 214 => case 215 => case 216 => case 217 => case 218 => case 219 => case 220 => case 221 =>
    case 222 => case 223 => case 224 => case 225 => case 226 => case 227 => case 228 => case 229 => case 230 =>
    case 231 => case 232 => case 233 => case 234 => case 235 => case 236 => case 237 => case 238 => case _ =>
  }

  lemma Sieve6(n: nat)
    requires 240 <= n < 276
    ensures Sieved(n) ==> exists t: nat | t < 64 :: Prime(t) == n
  {
    assert Prime(52) == 241 && Prime(53) == 251 && Prime(54) == 257 && Prime(55) == 263 && Prime(56) == 269 &&
    Prime(57) == 271;
    match n
    case 240 => case 241 => case 242 => case 243 => case 244 => case 245 => case 246 => case 247 => case 248 =>
    case 249 => case 250 => case 251 => case 252 => case 253 => case 254 => case 255 => case 256 => case 257 =>
    case 258 => case 259 => case 260 => case 261 => case 262 => case 263 => case 264 => case 265 => case 266 =>
    case 267 => case 268 => case 269 => case 270 => case 271 => case 272 => case 273 => case 274 => case _ =>
  }

  lemma Sieve7(n: nat)
    requires 276 <= n < 312
    ensures Sieved(n) ==> exists t: nat | t < 64 :: Prime(t) == n
  {
    assert Prime(58) == 277 && Prime(59) == 281 && Prime(60) == 283 && Prime(61) == 293 && Prime(62) == 307 &&
    Prime(63) == 311;
    match n
    case 276 => case 277 => case 278 => case 279 => case 280 => case 281 => case 282 => case 283 => case 284 =>
    case 285 => case 286 => case 287 => case 288 => case 289 => case 290 => case 291 => case 292 => case 293 =>
    case 294 => case 295 => case 296 => case 297 => case 298 => case 299 => case 300 => case 301 => case 302 =>
    case 303 => case 304 => case 305 => case 306 => case 307 => case 308 => case 309 => case 310 => case _ =>
  }

  lemma PrimeRow0(t: nat)
    requires 0 <= t < 16
    ensures Sieved(Prime(t)) && Prime(t) < 312 && (t < 63 ==> Prime(t) < Prime(t + 1))
  {
    match t
    case 0 => case 1 => case 2 => case 3 => case 4 => case 5 => case 6 => case 7 => case 8 => case 9 => case 10
    => case 11 => case 12 => case 13 => case 14 => case _ =>
  }

  lemma PrimeRow1(t: nat)
    requires 16 <= t < 32
    ensures Sieved(Prime(t)) && Prime(t) < 312 && (t < 63 ==> Prime(t) < Prime(t + 1))
  {
    match t
    case 16 => case 17 => case 18 => case 19 => case 20 => case 21 => case 22 => case 23 => case 24 => case 25
    => case 26 => case 27 => case 28 => case 29 => case 30 => case _ =>
  }

  lemma PrimeRow2(t: nat)
    requires 32 <= t < 48
    ensures Sieved(Prime(t)) && Prime(t) < 312 && (t < 63 ==> Prime(t) < Prime(t + 1))
  {
    match t
    case 32 => case 33 => case 34 => case 35 => case 36 => case 37 => case 38 => case 39 => case 40 => case 41
    => case 42 => case 43 => case 44 => case 45 => case 46 => case _ =>
  }

  lemma PrimeRow3(t: nat)
    requires 48 <= t < 64
    ensures Sieved(Prime(t)) && Prime(t) < 312 && (t < 63 ==> Prime(t) < Prime(t + 1))
  {
    match t
    case 48 => case 49 => case 50 => case 51 => case 52 => case 53 => case 54 => case 55 => case 56 => case 57
    => case 58 => case 59 => case 60 => case 61 => case 62 => case _ =>
  }

  lemma PrimeFacts(t: nat)
    requires t < 64
    ensures Sieved(Prime(t)) && Prime(t) < 312 && (t < 63 ==> Prime(t) < Prime(t + 1))
  {
    hide *;
    if t < 16 { PrimeRow0(t); } else if t < 32 { PrimeRow1(t); } else if t < 48 { PrimeRow2(t); } else { PrimeRow3(t); }
  }

  lemma {:induction false} PrimesAscend(t: nat, u: nat)
    requires t < u < 64
    ensures Prime(t) < Prime(u)
    decreases u
  {
    hide *;
    PrimeFacts(u - 1);
    if t < u - 1 {
      PrimesAscend(t, u - 1);
    }
  }

  /** The table holds the primes up to 311, all of them and in order. */
  lemma PrimesAre(n: nat)
    requires n < 312
    ensures IsPrime(n) <==> exists t: nat | t < 64 :: Prime(t) == n
  {
    SievedIsPrime(n);
    if Sieved(n) {
      hide Prime, IsPrime;
      if n < 48 { Sieve0(n); } else if n < 90 { Sieve1(n); } else if n < 128 { Sieve2(n); }
      else if n < 165 { Sieve3(n); } else if n < 204 { Sieve4(n); } else if n < 240 { Sieve5(n); }
      else if n < 276 { Sieve6(n); } else { Sieve7(n); }
    }
    hide *;
    forall t: nat | t < 64 && Prime(t) == n ensures Sieved(n) {
      PrimeFacts(t);
    }
  }

  // Fractions of roots.

  predicate IsSquareRoot(p: nat, c: nat) {
    c * c <= p < (c + 1) * (c + 1)
  }

  predicate IsCubeRoot(p: nat, c: nat) {
    c * c * c <= p < (c + 1) * (c + 1) * (c + 1)
  }

  /** k is the first 32 bits of the fraction of the square root of p. */
  ghost predicate SquareRootFraction(p: nat, k: nat) {
    exists c: nat :: IsSquareRoot(p, c) && IsSquareRoot(p * 0x1_0000_0000_0000_0000, c * 0x1_0000_0000 + k)
  }

  /** k is the first 32 bits of the fraction of the cube root of p. */
  ghost predicate CubeRootFraction(p: nat, k: nat) {
    exists c: nat ::
      IsCubeRoot(p, c) && IsCubeRoot(p * 0x1_0000_0000_0000_0000_0000_0000, c * 0x1_0000_0000 + k)
  }

  /** The same, with the integral part c of the root. */
  predicate CubeRootWord(p: nat, c: nat, k: bv32) {
    IsCubeRoot(p, c) && IsCubeRoot(p * 0x1_0000_0000_0000_0000_0000_0000, c * 0x1_0000_0000 + k as nat)
  }

  predicate SquareRootWord(p: nat, c: nat, k: bv32) {
    IsSquareRoot(p, c) && IsSquareRoot(p * 0x1_0000_0000_0000_0000, c * 0x1_0000_0000 + k as nat)
  }

  lemma CubeRootWordIs(p: nat, c: nat, k: bv32)
    requires CubeRootWord(p, c, k)
    ensures CubeRootFraction(p, k as nat)
  {
    hide IsCubeRoot;
  }

  lemma SquareRootWordIs(p: nat, c: nat, k: bv32)
    requires SquareRootWord(p, c, k)
    ensures SquareRootFraction(p, k as nat)
  {
    hide IsSquareRoot;
  }

  /** The prime and the constant of round t. */
  predicate Constant(t: nat, p: nat, k: bv32)
    requires t < 64
  {
    Prime(t) == p && K256(t) == k
  }

  predicate Initial(t: nat, p: nat, k: bv32)
    requires t < 8
  {
    Prime(t) == p && INITIAL_HASH_VALUE[t] == k
  }

  lemma RoundTable0()
    ensures Constant(0, 2, 0x428a2f98) && Constant(1, 3, 0x71374491)
    ensures Constant(2, 5, 0xb5c0fbcf) && Constant(3, 7, 0xe9b5dba5)
  {
  }

  lemma RoundRoots0()
    ensures CubeRootWord(2, 1, 0x428a2f98) && CubeRootWord(3, 1, 0x71374491)
    ensures CubeRootWord(5, 1, 0xb5c0fbcf) && CubeRootWord(7, 1, 0xe9b5dba5)
  {
  }

  lemma RoundTable4()
    ensures Constant(4, 11, 0x3956c25b) && Constant(5, 13, 0x59f111f1)
    ensures Constant(6, 17, 0x923f82a4) && Constant(7, 19, 0xab1c5ed5)
  {
  }

  lemma RoundRoots4()
    ensures CubeRootWord(11, 2, 0x3956c25b) && CubeRootWord(13, 2, 0x59f111f1)
    ensures CubeRootWord(17, 2, 0x923f82a4) && CubeRootWord(19, 2, 0xab1c5ed5)
  {
  }

  lemma RoundTable8()
    ensures Constant(8, 23, 0xd807aa98) && Constant(9, 29, 0x12835b01)
    ensures Constant(10, 31, 0x243185be) && Constant(11, 37, 0x550c7dc3)
  {
  }

  lemma RoundRoots8()
    ensures CubeRootWord(23, 2, 0xd807aa98) && CubeRootWord(29, 3, 0x12835b01)
    ensures CubeRootWord(31, 3, 0x243185be) && CubeRootWord(37, 3, 0x550c7dc3)
  {
  }

  lemma RoundTable12()
    ensures Constant(12, 41, 0x72be5d74) && Constant(13, 43, 0x80deb1fe)
    ensures Constant(14, 47, 0x9bdc06a7) && Constant(15, 53, 0xc19bf174)
  {
  }

  lemma RoundRoots12()
    ensures CubeRootWord(41, 3, 0x72be5d74) && CubeRootWord(43, 3, 0x80deb1fe)
    ensures CubeRootWord(47, 3, 0x9bdc06a7) && CubeRootWord(53, 3, 0xc19bf174)
  {
  }

  lemma RoundTable16()
    ensures Constant(16, 59, 0xe49b69c1) && Constant(17, 61, 0xefbe4786)
    ensures Constant(18, 67, 0x0fc19dc6) && Constant(19, 71, 0x240ca1cc)
  {
  }

  lemma RoundRoots16()
    ensures CubeRootWord(59, 3, 0xe49b69c1) && CubeRootWord(61, 3, 0xefbe4786)
    ensures CubeRootWord(67, 4, 0x0fc19dc6) && CubeRootWord(71, 4, 0x240ca1cc)
  {
  }

  lemma RoundTable20()
    ensures Constant(20, 73, 0x2de92c6f) && Constant(21, 79, 0x4a7484aa)
    ensures Constant(22, 83, 0x5cb0a9dc) && Constant(23, 89, 0x76f988da)
  {
  }

  lemma RoundRoots20()
    ensures CubeRootWord(73, 4, 0x2de92c6f) && CubeRootWord(79, 4, 0x4a7484aa)
    ensures CubeRootWord(83, 4, 0x5cb0a9dc) && CubeRootWord(89, 4, 0x76f988da)
  {
  }

  lemma RoundTable24()
    ensures Constant(24, 97, 0x983e5152) && Constant(25, 101, 0xa831c66d)
    ensures Constant(26, 103, 0xb00327c8) && Constant(27, 107, 0xbf597fc7)
  {
  }

  lemma RoundRoots24()
    ensures CubeRootWord(97, 4, 0x983e5152) && CubeRootWord(101, 4, 0xa831c66d)
    ensures CubeRootWord(103, 4, 0xb00327c8) && CubeRootWord(107, 4, 0xbf597fc7)
  {
  }

  lemma RoundTable28()
    ensures Constant(28, 109, 0xc6e00bf3) && Constant(29, 113, 0xd5a79147)
    ensures Constant(30, 127, 0x06ca6351) && Constant(31, 131, 0x14292967)
  {
  }

  lemma RoundRoots28()
    ensures CubeRootWord(109, 4, 0xc6e00bf3) && CubeRootWord(113, 4, 0xd5a79147)
    ensures CubeRootWord(127, 5, 0x06ca6351) && CubeRootWord(131, 5, 0x14292967)
  {
  }

  lemma RoundTable32()
    ensures Constant(32, 137, 0x27b70a85) && Constant(33, 139, 0x2e1b2138)
    ensures Constant(34, 149, 0x4d2c6dfc) && Constant(35, 151, 0x53380d13)
  {
  }

  lemma RoundRoots32()
    ensures CubeRootWord(137, 5, 0x27b70a85) && CubeRootWord(139, 5, 0x2e1b2138)
    ensures CubeRootWord(149, 5, 0x4d2c6dfc) && CubeRootWord(151, 5, 0x53380d13)
  {
  }

  lemma RoundTable36()
    ensures Constant(36, 157, 0x650a7354) && Constant(37, 163, 0x766a0abb)
    ensures Constant(38, 167, 0x81c2c92e) && Constant(39, 173, 0x92722c85)
  {
  }

  lemma RoundRoots36()
    ensures CubeRootWord(157, 5, 0x650a7354) && CubeRootWord(163, 5, 0x766a0abb)
    ensures CubeRootWord(167, 5, 0x81c2c92e) && CubeRootWord(173, 5, 0x92722c85)
  {
  }

  lemma RoundTable40()
    ensures Constant(40, 179, 0xa2bfe8a1) && Constant(41, 181, 0xa81a664b)
    ensures Constant(42, 191, 0xc24b8b70) && Constant(43, 193, 0xc76c51a3)
  {
  }

  lemma RoundRoots40()
    ensures CubeRootWord(179, 5, 0xa2bfe8a1) && CubeRootWord(181, 5, 0xa81a664b)
    ensures CubeRootWord(191, 5, 0xc24b8b70) && CubeRootWord(193, 5, 0xc76c51a3)
  {
  }

  lemma RoundTable44()
    ensures Constant(44, 197, 0xd192e819) && Constant(45, 199, 0xd6990624)
    ensures Constant(46, 211, 0xf40e3585) && Constant(47, 223, 0x106aa070)
  {
  }

  lemma RoundRoots44()
    ensures CubeRootWord(197, 5, 0xd192e819) && CubeRootWord(199, 5, 0xd6990624)
    ensures CubeRootWord(211, 5, 0xf40e3585) && CubeRootWord(223, 6, 0x106aa070)
  {
  }

  lemma RoundTable48()
    ensures Constant(48, 227, 0x19a4c116) && Constant(49, 229, 0x1e376c08)
    ensures Constant(50, 233, 0x2748774c) && Constant(51, 239, 0x34b0bcb5)
  {
  }

  lemma RoundRoots48()
    ensures CubeRootWord(227, 6, 0x19a4c116) && CubeRootWord(229, 6, 0x1e376c08)
    ensures CubeRootWord(233, 6, 0x2748774c) && CubeRootWord(239, 6, 0x34b0bcb5)
  {
  }

  lemma RoundTable52()
    ensures Constant(52, 241, 0x391c0cb3) && Constant(53, 251, 0x4ed8aa4a)
    ensures Constant(54, 257, 0x5b9cca4f) && Constant(55, 263, 0x682e6ff3)
  {
  }

  lemma RoundRoots52()
    ensures CubeRootWord(241, 6, 0x391c0cb3) && CubeRootWord(251, 6, 0x4ed8aa4a)
    ensures CubeRootWord(257, 6, 0x5b9cca4f) && CubeRootWord(263, 6, 0x682e6ff3)
  {
  }

  lemma RoundTable56()
    ensures Constant(56, 269, 0x748f82ee) && Constant(57, 271, 0x78a5636f)
    ensures Constant(58, 277, 0x84c87814) && Constant(59, 281, 0x8cc70208)
  {
  }

  lemma RoundRoots56()
    ensures CubeRootWord(269, 6, 0x748f82ee) && CubeRootWord(271, 6, 0x78a5636f)
    ensures CubeRootWord(277, 6, 0x84c87814) && CubeRootWord(281, 6, 0x8cc70208)
  {
  }

  lemma RoundTable60()
    ensures Constant(60, 283, 0x90befffa) && Constant(61, 293, 0xa4506ceb)
    ensures Constant(62, 307, 0xbef9a3f7) && Constant(63, 311, 0xc67178f2)
  {
  }

  lemma RoundRoots60()
    ensures CubeRootWord(283, 6, 0x90befffa) && CubeRootWord(293, 6, 0xa4506ceb)
    ensures CubeRootWord(307, 6, 0xbef9a3f7) && CubeRootWord(311, 6, 0xc67178f2)
  {
  }

  lemma InitialTable0()
    ensures Initial(0, 2, 0x6a09e667) && Initial(1, 3, 0xbb67ae85)
    ensures Initial(2, 5, 0x3c6ef372) && Initial(3, 7, 0xa54ff53a)
  {
  }

  lemma InitialRoots0()
    ensures SquareRootWord(2, 1, 0x6a09e667) && SquareRootWord(3, 1, 0xbb67ae85)
    ensures SquareRootWord(5, 2, 0x3c6ef372) && SquareRootWord(7, 2, 0xa54ff53a)
  {
  }

  lemma InitialTable4()
    ensures Initial(4, 11, 0x510e527f) && Initial(5, 13, 0x9b05688c)
    ensures Initial(6, 17, 0x1f83d9ab) && Initial(7, 19, 0x5be0cd19)
  {
  }

  lemma InitialRoots4()
    ensures SquareRootWord(11, 3, 0x510e527f) && SquareRootWord(13, 3, 0x9b05688c)
    ensures SquareRootWord(17, 4, 0x1f83d9ab) && SquareRootWord(19, 4, 0x5be0cd19)
  {
  }

  lemma RoundFractions0(t: nat)
    requires 0 <= t < 8
    ensures CubeRootFraction(Prime(t), K256(t) as nat)
  {
    RoundTable0();
    RoundTable4();
    hide Prime, K256, CubeRootWord;
    RoundRoots0();
    RoundRoots4();
    match t
    case 0 => CubeRootWordIs(2, 1, 0x428a2f98);
    case 1 => CubeRootWordIs(3, 1, 0x71374491);
    case 2 => CubeRootWordIs(5, 1, 0xb5c0fbcf);
    case 3 => CubeRootWordIs(7, 1, 0xe9b5dba5);
    case 4 => CubeRootWordIs(11, 2, 0x3956c25b);
    case 5 => CubeRootWordIs(13, 2, 0x59f111f1);
    case 6 => CubeRootWordIs(17, 2, 0x923f82a4);
    case _ => CubeRootWordIs(19, 2, 0xab1c5ed5);
  }

  lemma RoundFractions8(t: nat)
    requires 8 <= t < 16
    ensures CubeRootFraction(Prime(t), K256(t) as nat)
  {
    RoundTable8();
    RoundTable12();
    hide Prime, K256, CubeRootWord;
    RoundRoots8();
    RoundRoots12();
    match t
    case 8 => CubeRootWordIs(23, 2, 0xd807aa98);
    case 9 => CubeRootWordIs(29, 3, 0x12835b01);
    case 10 => CubeRootWordIs(31, 3, 0x243185be);
    case 11 => CubeRootWordIs(37, 3, 0x550c7dc3);
    case 12 => CubeRootWordIs(41, 3, 0x72be5d74);
    case 13 => CubeRootWordIs(43, 3, 0x80deb1fe);
    case 14 => CubeRootWordIs(47, 3, 0x9bdc06a7);
    case _ => CubeRootWordIs(53, 3, 0xc19bf174);
  }

  lemma RoundFractions16(t: nat)
    requires 16 <= t < 24
    ensures CubeRootFraction(Prime(t), K256(t) as nat)
  {
    RoundTable16();
    RoundTable20();
    hide Prime, K256, CubeRootWord;
    RoundRoots16();
    RoundRoots20();
    match t
    case 16 => CubeRootWordIs(59, 3, 0xe49b69c1);
    case 17 => CubeRootWordIs(61, 3, 0xefbe4786);
    case 18 => CubeRootWordIs(67, 4, 0x0fc19dc6);
    case 19 => CubeRootWordIs(71, 4, 0x240ca1cc);
    case 20 => CubeRootWordIs(73, 4, 0x2de92c6f);
    case 21 => CubeRootWordIs(79, 4, 0x4a7484aa);
    case 22 => CubeRootWordIs(83, 4, 0x5cb0a9dc);
    case _ => CubeRootWordIs(89, 4, 0x76f988da);
  }

  lemma RoundFractions24(t: nat)
    requires 24 <= t < 32
    ensures CubeRootFraction(Prime(t), K256(t) as nat)
  {
    RoundTable24();
    RoundTable28();
    hide Prime, K256, CubeRootWord;
    RoundRoots24();
    RoundRoots28();
    match t
    case 24 => CubeRootWordIs(97, 4, 0x983e5152);
    case 25 => CubeRootWordIs(101, 4, 0xa831c66d);
    case 26 => CubeRootWordIs(103, 4, 0xb00327c8);
    case 27 => CubeRootWordIs(107, 4, 0xbf597fc7);
    case 28 => CubeRootWordIs(109, 4, 0xc6e00bf3);
    case 29 => CubeRootWordIs(113, 4, 0xd5a79147);
    case 30 => CubeRootWordIs(127, 5, 0x06ca6351);
    case _ => CubeRootWordIs(131, 5, 0x14292967);
  }

  lemma RoundFractions32(t: nat)
    requires 32 <= t < 40
    ensures CubeRootFraction(Prime(t), K256(t) as nat)
  {
    RoundTable32();
    RoundTable36();
    hide Prime, K256, CubeRootWord;
    RoundRoots32();
    RoundRoots36();
    match t
    case 32 => CubeRootWordIs(137, 5, 0x27b70a85);
    case 33 => CubeRootWordIs(139, 5, 0x2e1b2138);
    case 34 => CubeRootWordIs(149, 5, 0x4d2c6dfc);
    case 35 => CubeRootWordIs(151, 5, 0x53380d13);
    case 36 => CubeRootWordIs(157, 5, 0x650a7354);
    case 37 => CubeRootWordIs(163, 5, 0x766a0abb);
    case 38 => CubeRootWordIs(167, 5, 0x81c2c92e);
    case _ => CubeRootWordIs(173, 5, 0x92722c85);
  }

  lemma RoundFractions40(t: nat)
    requires 40 <= t < 48
    ensures CubeRootFraction(Prime(t), K256(t) as nat)
  {
    RoundTable40();
    RoundTable44();
    hide Prime, K256, CubeRootWord;
    RoundRoots40();
    RoundRoots44();
    match t
    case 40 => CubeRootWordIs(179, 5, 0xa2bfe8a1);
    case 41 => CubeRootWordIs(181, 5, 0xa81a664b);
    case 42 => CubeRootWordIs(191, 5, 0xc24b8b70);
    case 43 => CubeRootWordIs(193, 5, 0xc76c51a3);
    case 44 => CubeRootWordIs(197, 5, 0xd192e819);
    case 45 => CubeRootWordIs(199, 5, 0xd6990624);
    case 46 => CubeRootWordIs(211, 5, 0xf40e3585);
    case _ => CubeRootWordIs(223, 6, 0x106aa070);
  }

  lemma RoundFractions48(t: nat)
    requires 48 <= t < 56
    ensures CubeRootFraction(Prime(t), K256(t) as nat)
  {
    RoundTable48();
    RoundTable52();
    hide Prime, K256, CubeRootWord;
    RoundRoots48();
    RoundRoots52();
    match t
    case 48 => CubeRootWordIs(227, 6, 0x19a4c116);
    case 49 => CubeRootWordIs(229, 6, 0x1e376c08);
    case 50 => CubeRootWordIs(233, 6, 0x2748774c);
    case 51 => CubeRootWordIs(239, 6, 0x34b0bcb5);
    case 52 => CubeRootWordIs(241, 6, 0x391c0cb3);
    case 53 => CubeRootWordIs(251, 6, 0x4ed8aa4a);
    case 54 => CubeRootWordIs(257, 6, 0x5b9cca4f);
    case _ => CubeRootWordIs(263, 6, 0x682e6ff3);
  }

  lemma RoundFractions56(t: nat)
    requires 56 <= t < 64
    ensures CubeRootFraction(Prime(t), K256(t) as nat)
  {
    RoundTable56();
    RoundTable60();
    hide Prime, K256, CubeRootWord;
    RoundRoots56();
    RoundRoots60();
    match t
    case 56 => CubeRootWordIs(269, 6, 0x748f82ee);
    case 57 => CubeRootWordIs(271, 6, 0x78a5636f);
    case 58 => CubeRootWordIs(277, 6, 0x84c87814);
    case 59 => CubeRootWordIs(281, 6, 0x8cc70208);
    case 60 => CubeRootWordIs(283, 6, 0x90befffa);
    case 61 => CubeRootWordIs(293, 6, 0xa4506ceb);
    case 62 => CubeRootWordIs(307, 6, 0xbef9a3f7);
    case _ => CubeRootWordIs(311, 6, 0xc67178f2);
  }

  /** Section 4.2.2: each round constant is the fraction of the cube root of a prime. */
  lemma RoundConstantsAre(t: nat)
    requires t < 64
    ensures CubeRootFraction(Prime(t), K256(t) as nat)
  {
    hide *;
    if t < 32 {
      if t < 8 { RoundFractions0(t); } else if t < 16 { RoundFractions8(t); }
      else if t < 24 { RoundFractions16(t); } else { RoundFractions24(t); }
    } else {
      if t < 40 { RoundFractions32(t); } else if t < 48 { RoundFractions40(t); }
      else if t < 56 { RoundFractions48(t); } else { RoundFractions56(t); }
    }
  }

  /** Section 5.3.3: the initial hash value consists of fractions of the square roots of primes. */
  lemma InitialWordsAre(t: nat)
    requires t < 8
    ensures |INITIAL_HASH_VALUE| == 8 && SquareRootFraction(Prime(t), INITIAL_HASH_VALUE[t] as nat)
  {
    InitialTable0();
    InitialTable4();
    hide Prime, SquareRootWord;
    InitialRoots0();
    InitialRoots4();
    match t
    case 0 => SquareRootWordIs(2, 1, 0x6a09e667);
    case 1 => SquareRootWordIs(3, 1, 0xbb67ae85);
    case 2 => SquareRootWordIs(5, 2, 0x3c6ef372);
    case 3 => SquareRootWordIs(7, 2, 0xa54ff53a);
    case 4 => SquareRootWordIs(11, 3, 0x510e527f);
    case 5 => SquareRootWordIs(13, 3, 0x9b05688c);
    case 6 => SquareRootWordIs(17, 4, 0x1f83d9ab);
    case _ => SquareRootWordIs(19, 4, 0x5be0cd19);
  }

  /** There is one such fraction: a number has one integral cube root. */
  lemma CubeRootUnique(p: nat, c: nat, d: nat)
    requires IsCubeRoot(p, c) && IsCubeRoot(p, d)
    ensures c == d
  {
    if c < d {
      CubesAscend(c + 1, d);
    } else if d < c {
      CubesAscend(d + 1, c);
    }
  }

  lemma CubesAscend(a: nat, b: nat)
    requires a <= b
    ensures a * a <= b * b && a * a * a <= b * b * b
  {
    assert a * a <= a * b <= b * b;
    assert a * a * a <= b * b * a <= b * b * b;
  }

  lemma RoundConstantUnique(p: nat, k: nat, l: nat)
    requires CubeRootFraction(p, k) && CubeRootFraction(p, l)
    ensures k == l
  {
    var c: nat :| IsCubeRoot(p, c) && IsCubeRoot(p * 0x1_0000_0000_0000_0000_0000_0000, c * 0x1_0000_0000 + k);
    var d: nat :| IsCubeRoot(p, d) && IsCubeRoot(p * 0x1_0000_0000_0000_0000_0000_0000, d * 0x1_0000_0000 + l);
    hide *;
    CubeRootUnique(p, c, d);
    CubeRootUnique(p * 0x1_0000_0000_0000_0000_0000_0000, c * 0x1_0000_0000 + k, d * 0x1_0000_0000 + l);
  }
}
