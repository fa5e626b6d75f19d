/**
 The constants of SHA-256 are those of FIPS 180-4: the first 32 bits of the fractional parts of the cube roots of the
 first 64 primes (section 4.2.2), and of the square roots of the first eight (section 5.3.3).
 */
module Sha256Constants {
  import opened Sha256Spec

  // ---- Roots ----

  const TWO32: nat := 0x1_0000_0000
  const TWO64: nat := 0x1_0000_0000_0000_0000
  const TWO96: nat := 0x1_0000_0000_0000_0000_0000_0000

  function Square(x: nat): nat { x * x }

  function Cube(x: nat): nat { x * x * x }

  /** r is the square root of p with 32 bits behind the point, the others cut off, times 2^32. */
  predicate SquareRoot(r: nat, p: nat) {
    Square(r) <= p * TWO64 < Square(r + 1)
  }

  predicate CubeRoot(r: nat, p: nat) {
    Cube(r) <= p * TWO96 < Cube(r + 1)
  }

  /** w holds the bits of r behind the point. */
  predicate Fraction(w: Word, r: nat) {
    w as nat == r % TWO32
  }

  ghost predicate CubeRootFraction(p: nat, w: Word) {
    exists r: nat :: CubeRoot(r, p) && Fraction(w, r)
  }

  ghost predicate SquareRootFraction(p: nat, w: Word) {
    exists r: nat :: SquareRoot(r, p) && Fraction(w, r)
  }

  lemma IsCubeRoot(p: nat, r: nat, w: Word)
    requires CubeRoot(r, p) && Fraction(w, r)
    ensures CubeRootFraction(p, w)
  {
  }

  lemma IsSquareRoot(p: nat, r: nat, w: Word)
    requires SquareRoot(r, p) && Fraction(w, r)
    ensures SquareRootFraction(p, w)
  {
  }

  ghost predicate CubeRootFractions(ps: seq<nat>, ws: seq<Word>) {
    |ps| == |ws| && forall t :: 0 <= t < |ws| ==> CubeRootFraction(ps[t], ws[t])
  }

  lemma RowsTogether(ps: seq<nat>, qs: seq<nat>, ws: seq<Word>, xs: seq<Word>)
    requires CubeRootFractions(ps, ws) && CubeRootFractions(qs, xs)
    ensures CubeRootFractions(ps + qs, ws + xs)
  {
    hide CubeRootFraction;
  }

  /** A root determines its word: no other table meets the standard. */
  lemma CubeRootIsUnique(p: nat, w: Word, x: Word)
    requires CubeRootFraction(p, w) && CubeRootFraction(p, x)
    ensures w == x
  {
    hide CubeRoot;
    var r: nat :| CubeRoot(r, p) && Fraction(w, r);
    var s: nat :| CubeRoot(s, p) && Fraction(x, s);
    NoLargerRoot(r, s, p);
    NoLargerRoot(s, r, p);
    WordOf(w, x);
  }

  lemma WordOf(w: Word, x: Word)
    requires w as nat == x as nat
    ensures w == x
  {
    assert (w as nat) as Word == w;
  }

  lemma NoLargerRoot(r: nat, s: nat, p: nat)
    requires CubeRoot(r, p) && CubeRoot(s, p)
    ensures s <= r
  {
    if r < s {
      CubesGrow(r + 1, s);
    }
  }

  lemma CubesGrow(x: nat, y: nat)
    requires x <= y
    ensures Cube(x) <= Cube(y)
  {
    assert x * x <= x * y <= y * y;
    assert (x * x) * x <= (y * y) * x <= (y * y) * y;
  }

  // ---- Primes ----

  ghost predicate Prime(n: nat) {
    2 <= n && forall d :: 2 <= d < n ==> n % d != 0
  }

  /** q is the next prime after p. */
  ghost predicate NextPrime(p: nat, q: nat) {
    p < q && Prime(q) && forall n :: p < n < q ==> !Prime(n)
  }

  /** None of the primes up to 17 divides n, except n itself. */
  predicate Sieved(n: nat) {
    && (n == 2 || n % 2 != 0) && (n == 3 || n % 3 != 0) && (n == 5 || n % 5 != 0) && (n == 7 || n % 7 != 0)
    && (n == 11 || n % 11 != 0) && (n == 13 || n % 13 != 0) && (n == 17 || n % 17 != 0)
  }

  /** Below 19^2 that decides. */
  lemma SievedIsPrime(n: nat)
    requires 2 <= n < 361
    ensures Sieved(n) <==> Prime(n)
  {
    if Sieved(n) {
      forall d | 2 <= d < n
        ensures n % d != 0
      {
        if n % d == 0 {
          DivisorIsSifted(n, d, n / d);
        }
      }
    }
  }

  lemma ProductIsLarge(d: nat, e: nat)
    requires 19 <= d && 19 <= e
    ensures 361 <= d * e
  {
    assert 19 * 19 <= d * 19 <= d * e;
  }

  lemma DivisorIsSifted(n: nat, d: nat, e: nat)
    requires 2 <= d < n < 361 && n == d * e
    ensures !Sieved(n)
  {
    hide Sieved;
    assert 2 <= e;
    if d <= 18 {
      SmallDivisorIsSifted(n, d, e);
    } else if e <= 18 {
      SmallDivisorIsSifted(n, e, d);
    } else {
      ProductIsLarge(d, e);
    }
  }

  lemma SmallDivisorIsSifted(n: nat, d: nat, e: nat)
    requires 2 <= d <= 18 && 2 <= e && n == d * e
    ensures !Sieved(n)
  {
    var s := if d % 2 == 0 then 2 else if d % 3 == 0 then 3 else if d % 5 == 0 then 5 else if d % 7 == 0 then 7 else d;
    var k := d / s;
    assert d == s * k && 1 <= k;
    assert n == s * (k * e) && 2 <= k * e;
    IsMultiple(n, s, k * e);
  }

  lemma IsMultiple(n: nat, s: nat, m: nat)
    requires 0 < s && n == s * m && 2 <= m
    ensures n % s == 0 && n != s
  {
    QuotientIsUnique(n, s, m, 0);
    assert s * 2 <= s * m;
  }

  /** The sieve leaves nothing between p and q. */
  predicate Gap(p: nat, q: nat)
    decreases q - p
  {
    q <= p + 1 || (!Sieved(p + 1) && (q <= p + 2 || (!Sieved(p + 2) && Gap(p + 2, q))))
  }

  lemma {:induction false} GapMeans(p: nat, q: nat, n: nat)
    requires 1 <= p < n < q < 361 && Gap(p, q)
    ensures !Prime(n)
    decreases n - p
  {
    hide Prime, Sieved;
    SievedIsPrime(n);
    if p + 2 < n {
      GapMeans(p + 2, q, n);
    }
  }

  predicate Found(p: nat, q: nat) {
    1 <= p < q < 361 && Sieved(q) && Gap(p, q)
  }

  lemma FoundIsNext()
    ensures forall p, q :: Found(p, q) ==> NextPrime(p, q)
  {
    hide Sieved, Gap, Prime;
    forall p: nat, q: nat | Found(p, q)
      ensures NextPrime(p, q)
    {
      SievedIsPrime(q);
      forall n | p < n < q
        ensures !Prime(n)
      {
        GapMeans(p, q, n);
      }
    }
  }

  /** Primes from the first one on, with none left out. */
  ghost predicate Successive(ps: seq<nat>) {
    forall t :: 1 <= t < |ps| ==> NextPrime(ps[t - 1], ps[t])
  }

  lemma SuccessiveTogether(ps: seq<nat>, qs: seq<nat>)
    requires Successive(ps) && Successive(qs) && ps != [] && qs != [] && NextPrime(ps[|ps| - 1], qs[0])
    ensures Successive(ps + qs)
  {
    hide NextPrime;
  }

  // ---- The tables ----

  const PRIMES0: seq<nat> := [2, 3, 5, 7, 11, 13, 17, 19]
  const PRIMES8: seq<nat> := [23, 29, 31, 37, 41, 43, 47, 53]
  const PRIMES16: seq<nat> := [59, 61, 67, 71, 73, 79, 83, 89]
  const PRIMES24: seq<nat> := [97, 101, 103, 107, 109, 113, 127, 131]
  const PRIMES32: seq<nat> := [137, 139, 149, 151, 157, 163, 167, 173]
  const PRIMES40: seq<nat> := [179, 181, 191, 193, 197, 199, 211, 223]
  const PRIMES48: seq<nat> := [227, 229, 233, 239, 241, 251, 257, 263]
  const PRIMES56: seq<nat> := [269, 271, 277, 281, 283, 293, 307, 311]

  /** The first 64 primes. */
  const PRIMES: seq<nat> := PRIMES0 + PRIMES8 + PRIMES16 + PRIMES24 + PRIMES32 + PRIMES40 + PRIMES48 + PRIMES56

  lemma Primes0()
    ensures Successive(PRIMES0)
  {
    assert Found(2, 3);
    assert Found(3, 5);
    assert Found(5, 7);
    assert Found(7, 11);
    assert Found(11, 13);
    assert Found(13, 17);
    assert Found(17, 19);
    FoundIsNext();
    hide NextPrime, Found;
  }

  lemma Primes8()
    ensures Successive(PRIMES8) && NextPrime(19, 23)
  {
    assert Found(19, 23);
    assert Found(23, 29);
    assert Found(29, 31);
    assert Found(31, 37);
    assert Found(37, 41);
    assert Found(41, 43);
    assert Found(43, 47);
    assert Found(47, 53);
    FoundIsNext();
    hide NextPrime, Found;
  }

  lemma Primes16()
    ensures Successive(PRIMES16) && NextPrime(53, 59)
  {
    assert Found(53, 59);
    assert Found(59, 61);
    assert Found(61, 67);
    assert Found(67, 71);
    assert Found(71, 73);
    assert Found(73, 79);
    assert Found(79, 83);
    assert Found(83, 89);
    FoundIsNext();
    hide NextPrime, Found;
  }

  lemma Primes24()
    ensures Successive(PRIMES24) && NextPrime(89, 97)
  {
    assert Found(89, 97);
    assert Found(97, 101);
    assert Found(101, 103);
    assert Found(103, 107);
    assert Found(107, 109);
    assert Found(109, 113);
    assert Found(113, 127);
    assert Found(127, 131);
    FoundIsNext();
    hide NextPrime, Found;
  }

  lemma Primes32()
    ensures Successive(PRIMES32) && NextPrime(131, 137)
  {
    assert Found(131, 137);
    assert Found(137, 139);
    assert Found(139, 149);
    assert Found(149, 151);
    assert Found(151, 157);
    assert Found(157, 163);
    assert Found(163, 167);
    assert Found(167, 173);
    FoundIsNext();
    hide NextPrime, Found;
  }

  lemma Primes40()
    ensures Successive(PRIMES40) && NextPrime(173, 179)
  {
    assert Found(173, 179);
    assert Found(179, 181);
    assert Found(181, 191);
    assert Found(191, 193);
    assert Found(193, 197);
    assert Found(197, 199);
    assert Found(199, 211);
    assert Found(211, 223);
    FoundIsNext();
    hide NextPrime, Found;
  }

  lemma Primes48()
    ensures Successive(PRIMES48) && NextPrime(223, 227)
  {
    assert Found(223, 227);
    assert Found(227, 229);
    assert Found(229, 233);
    assert Found(233, 239);
    assert Found(239, 241);
    assert Found(241, 251);
    assert Found(251, 257);
    assert Found(257, 263);
    FoundIsNext();
    hide NextPrime, Found;
  }

  lemma Primes56()
    ensures Successive(PRIMES56) && NextPrime(263, 269)
  {
    assert Found(263, 269);
    assert Found(269, 271);
    assert Found(271, 277);
    assert Found(277, 281);
    assert Found(281, 283);
    assert Found(283, 293);
    assert Found(293, 307);
    assert Found(307, 311);
    FoundIsNext();
    hide NextPrime, Found;
  }

  /** Beginning with 2, every number of the list is the next prime after the one before it. */
  lemma PrimesAreTheFirst()
    ensures |PRIMES| == 64 && PRIMES[0] == 2 && Successive(PRIMES)
  {
    hide Successive, NextPrime;
    var ps := PRIMES0;
    Primes0();
    Primes8();
    SuccessiveTogether(ps, PRIMES8);
    ps := ps + PRIMES8;
    Primes16();
    SuccessiveTogether(ps, PRIMES16);
    ps := ps + PRIMES16;
    Primes24();
    SuccessiveTogether(ps, PRIMES24);
    ps := ps + PRIMES24;
    Primes32();
    SuccessiveTogether(ps, PRIMES32);
    ps := ps + PRIMES32;
    Primes40();
    SuccessiveTogether(ps, PRIMES40);
    ps := ps + PRIMES40;
    Primes48();
    SuccessiveTogether(ps, PRIMES48);
    ps := ps + PRIMES48;
    Primes56();
    SuccessiveTogether(ps, PRIMES56);
    ps := ps + PRIMES56;
  }

  lemma Constants0()
    ensures CubeRootFractions(PRIMES0, K0)
  {
    hide CubeRootFraction;
    IsCubeRoot(2, 0x1_428a2f98, 0x428a2f98);
    IsCubeRoot(3, 0x1_71374491, 0x71374491);
    IsCubeRoot(5, 0x1_b5c0fbcf, 0xb5c0fbcf);
    IsCubeRoot(7, 0x1_e9b5dba5, 0xe9b5dba5);
    IsCubeRoot(11, 0x2_3956c25b, 0x3956c25b);
    IsCubeRoot(13, 0x2_59f111f1, 0x59f111f1);
    IsCubeRoot(17, 0x2_923f82a4, 0x923f82a4);
    IsCubeRoot(19, 0x2_ab1c5ed5, 0xab1c5ed5);
  }

  lemma Constants8()
    ensures CubeRootFractions(PRIMES8, K8)
  {
    hide CubeRootFraction;
    IsCubeRoot(23, 0x2_d807aa98, 0xd807aa98);
    IsCubeRoot(29, 0x3_12835b01, 0x12835b01);
    IsCubeRoot(31, 0x3_243185be, 0x243185be);
    IsCubeRoot(37, 0x3_550c7dc3, 0x550c7dc3);
    IsCubeRoot(41, 0x3_72be5d74, 0x72be5d74);
    IsCubeRoot(43, 0x3_80deb1fe, 0x80deb1fe);
    IsCubeRoot(47, 0x3_9bdc06a7, 0x9bdc06a7);
    IsCubeRoot(53, 0x3_c19bf174, 0xc19bf174);
  }

  lemma Constants16()
    ensures CubeRootFractions(PRIMES16, K16)
  {
    hide CubeRootFraction;
    IsCubeRoot(59, 0x3_e49b69c1, 0xe49b69c1);
    IsCubeRoot(61, 0x3_efbe4786, 0xefbe4786);
    IsCubeRoot(67, 0x4_0fc19dc6, 0x0fc19dc6);
    IsCubeRoot(71, 0x4_240ca1cc, 0x240ca1cc);
    IsCubeRoot(73, 0x4_2de92c6f, 0x2de92c6f);
    IsCubeRoot(79, 0x4_4a7484aa, 0x4a7484aa);
    IsCubeRoot(83, 0x4_5cb0a9dc, 0x5cb0a9dc);
    IsCubeRoot(89, 0x4_76f988da, 0x76f988da);
  }

  lemma Constants24()
    ensures CubeRootFractions(PRIMES24, K24)
  {
    hide CubeRootFraction;
    IsCubeRoot(97, 0x4_983e5152, 0x983e5152);
    IsCubeRoot(101, 0x4_a831c66d, 0xa831c66d);
    IsCubeRoot(103, 0x4_b00327c8, 0xb00327c8);
    IsCubeRoot(107, 0x4_bf597fc7, 0xbf597fc7);
    IsCubeRoot(109, 0x4_c6e00bf3, 0xc6e00bf3);
    IsCubeRoot(113, 0x4_d5a79147, 0xd5a79147);
    IsCubeRoot(127, 0x5_06ca6351, 0x06ca6351);
    IsCubeRoot(131, 0x5_14292967, 0x14292967);
  }

  lemma Constants32()
    ensures CubeRootFractions(PRIMES32, K32)
  {
    hide CubeRootFraction;
    IsCubeRoot(137, 0x5_27b70a85, 0x27b70a85);
    IsCubeRoot(139, 0x5_2e1b2138, 0x2e1b2138);
    IsCubeRoot(149, 0x5_4d2c6dfc, 0x4d2c6dfc);
    IsCubeRoot(151, 0x5_53380d13, 0x53380d13);
    IsCubeRoot(157, 0x5_650a7354, 0x650a7354);
    IsCubeRoot(163, 0x5_766a0abb, 0x766a0abb);
    IsCubeRoot(167, 0x5_81c2c92e, 0x81c2c92e);
    IsCubeRoot(173, 0x5_92722c85, 0x92722c85);
  }

  lemma Constants40()
    ensures CubeRootFractions(PRIMES40, K40)
  {
    hide CubeRootFraction;
    IsCubeRoot(179, 0x5_a2bfe8a1, 0xa2bfe8a1);
    IsCubeRoot(181, 0x5_a81a664b, 0xa81a664b);
    IsCubeRoot(191, 0x5_c24b8b70, 0xc24b8b70);
    IsCubeRoot(193, 0x5_c76c51a3, 0xc76c51a3);
    IsCubeRoot(197, 0x5_d192e819, 0xd192e819);
    IsCubeRoot(199, 0x5_d6990624, 0xd6990624);
    IsCubeRoot(211, 0x5_f40e3585, 0xf40e3585);
    IsCubeRoot(223, 0x6_106aa070, 0x106aa070);
  }

  lemma Constants48()
    ensures CubeRootFractions(PRIMES48, K48)
  {
    hide CubeRootFraction;
    IsCubeRoot(227, 0x6_19a4c116, 0x19a4c116);
    IsCubeRoot(229, 0x6_1e376c08, 0x1e376c08);
    IsCubeRoot(233, 0x6_2748774c, 0x2748774c);
    IsCubeRoot(239, 0x6_34b0bcb5, 0x34b0bcb5);
    IsCubeRoot(241, 0x6_391c0cb3, 0x391c0cb3);
    IsCubeRoot(251, 0x6_4ed8aa4a, 0x4ed8aa4a);
    IsCubeRoot(257, 0x6_5b9cca4f, 0x5b9cca4f);
    IsCubeRoot(263, 0x6_682e6ff3, 0x682e6ff3);
  }

  lemma Constants56()
    ensures CubeRootFractions(PRIMES56, K56)
  {
    hide CubeRootFraction;
    IsCubeRoot(269, 0x6_748f82ee, 0x748f82ee);
    IsCubeRoot(271, 0x6_78a5636f, 0x78a5636f);
    IsCubeRoot(277, 0x6_84c87814, 0x84c87814);
    IsCubeRoot(281, 0x6_8cc70208, 0x8cc70208);
    IsCubeRoot(283, 0x6_90befffa, 0x90befffa);
    IsCubeRoot(293, 0x6_a4506ceb, 0xa4506ceb);
    IsCubeRoot(307, 0x6_bef9a3f7, 0xbef9a3f7);
    IsCubeRoot(311, 0x6_c67178f2, 0xc67178f2);
  }

  /** Section 4.2.2: constant t belongs to the t-th prime. */
  lemma RoundConstants()
    ensures CubeRootFractions(PRIMES, K)
  {
    hide CubeRootFractions;
    var ps, ws := PRIMES0, K0;
    Constants0();
    Constants8();
    RowsTogether(ps, PRIMES8, ws, K8);
    ps, ws := ps + PRIMES8, ws + K8;
    Constants16();
    RowsTogether(ps, PRIMES16, ws, K16);
    ps, ws := ps + PRIMES16, ws + K16;
    Constants24();
    RowsTogether(ps, PRIMES24, ws, K24);
    ps, ws := ps + PRIMES24, ws + K24;
    Constants32();
    RowsTogether(ps, PRIMES32, ws, K32);
    ps, ws := ps + PRIMES32, ws + K32;
    Constants40();
    RowsTogether(ps, PRIMES40, ws, K40);
    ps, ws := ps + PRIMES40, ws + K40;
    Constants48();
    RowsTogether(ps, PRIMES48, ws, K48);
    ps, ws := ps + PRIMES48, ws + K48;
    Constants56();
    RowsTogether(ps, PRIMES56, ws, K56);
    ps, ws := ps + PRIMES56, ws + K56;
  }

  /** Section 5.3.3: the initial hash value. */
  lemma InitialHash()
    ensures forall t :: 0 <= t < 8 ==> SquareRootFraction(PRIMES0[t], H0[t])
  {
    hide SquareRootFraction;
    IsSquareRoot(2, 0x1_6a09e667, 0x6a09e667);
    IsSquareRoot(3, 0x1_bb67ae85, 0xbb67ae85);
    IsSquareRoot(5, 0x2_3c6ef372, 0x3c6ef372);
    IsSquareRoot(7, 0x2_a54ff53a, 0xa54ff53a);
    IsSquareRoot(11, 0x3_510e527f, 0x510e527f);
    IsSquareRoot(13, 0x3_9b05688c, 0x9b05688c);
    IsSquareRoot(17, 0x4_1f83d9ab, 0x1f83d9ab);
    IsSquareRoot(19, 0x4_5be0cd19, 0x5be0cd19);
  }
}
