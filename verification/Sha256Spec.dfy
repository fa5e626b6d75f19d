/** SHA-256 as FIPS 180-4 defines it, on whole messages of bytes. */
module Sha256Spec {
  import opened Radix

  type Byte = bv8
  type Word = bv32
  type Bytes = seq<Byte>

  // ---- Sections 3.2, 4.1.2 and 4.2.2 ----

  /** Addition modulo 2^32. */
  function Plus(x: Word, y: Word): Word { x + y }

  function Sum4(x: Word, y: Word, z: Word, u: Word): Word { x + y + z + u }

  function Ch(x: Word, y: Word, z: Word): Word { (x & y) ^ (!x & z) }

  function Maj(x: Word, y: Word, z: Word): Word { (x & y) ^ (x & z) ^ (y & z) }

  function BigSigma0(x: Word): Word { x.RotateRight(2) ^ x.RotateRight(13) ^ x.RotateRight(22) }

  function BigSigma1(x: Word): Word { x.RotateRight(6) ^ x.RotateRight(11) ^ x.RotateRight(25) }

  function SmallSigma0(x: Word): Word { x.RotateRight(7) ^ x.RotateRight(18) ^ (x >> 3) }

  function SmallSigma1(x: Word): Word { x.RotateRight(17) ^ x.RotateRight(19) ^ (x >> 10) }

  const K0: seq<Word> :=
    [0x428a2f98, 0x71374491, 0xb5c0fbcf, 0xe9b5dba5, 0x3956c25b, 0x59f111f1, 0x923f82a4, 0xab1c5ed5]
  const K8: seq<Word> :=
    [0xd807aa98, 0x12835b01, 0x243185be, 0x550c7dc3, 0x72be5d74, 0x80deb1fe, 0x9bdc06a7, 0xc19bf174]
  const K16: seq<Word> :=
    [0xe49b69c1, 0xefbe4786, 0x0fc19dc6, 0x240ca1cc, 0x2de92c6f, 0x4a7484aa, 0x5cb0a9dc, 0x76f988da]
  const K24: seq<Word> :=
    [0x983e5152, 0xa831c66d, 0xb00327c8, 0xbf597fc7, 0xc6e00bf3, 0xd5a79147, 0x06ca6351, 0x14292967]
  const K32: seq<Word> :=
    [0x27b70a85, 0x2e1b2138, 0x4d2c6dfc, 0x53380d13, 0x650a7354, 0x766a0abb, 0x81c2c92e, 0x92722c85]
  const K40: seq<Word> :=
    [0xa2bfe8a1, 0xa81a664b, 0xc24b8b70, 0xc76c51a3, 0xd192e819, 0xd6990624, 0xf40e3585, 0x106aa070]
  const K48: seq<Word> :=
    [0x19a4c116, 0x1e376c08, 0x2748774c, 0x34b0bcb5, 0x391c0cb3, 0x4ed8aa4a, 0x5b9cca4f, 0x682e6ff3]
  const K56: seq<Word> :=
    [0x748f82ee, 0x78a5636f, 0x84c87814, 0x8cc70208, 0x90befffa, 0xa4506ceb, 0xbef9a3f7, 0xc67178f2]

  /** The constants of the 64 rounds. */
  const K: seq<Word> := K0 + K8 + K16 + K24 + K32 + K40 + K48 + K56

  lemma KHas64()
    ensures |K| == 64
  {
  }

  // ---- Section 5.1.1: padding ----

  /** The number of zero bytes: with the byte 0x80 they bring a message of n bytes to 56 modulo 64. */
  function ZeroBytes(n: nat): nat {
    (119 - n % 64) % 64
  }

  function Zeros(k: nat): (r: Bytes)
    ensures |r| == k && forall i :: 0 <= i < k ==> r[i] == 0
  {
    seq(k, _ => 0 as Byte)
  }

  /** The k low bytes of n, most significant first. */
  function BigEndian(n: nat, k: nat): (r: Bytes)
    ensures |r| == k
    decreases k
  {
    if k == 0 then [] else BigEndian(n / 256, k - 1) + [(n % 256) as Byte]
  }

  lemma AtLeastOnce(d: nat, x: int)
    requires 0 < x
    ensures d * x >= d
  {
  }

  lemma QuotientIsUnique(n: nat, d: nat, q: nat, r: nat)
    requires 0 < d && n == d * q + r && r < d
    ensures n / d == q && n % d == r
  {
    var p := n / d;
    assert d * q - d * p == d * (q - p) == n % d - r;
    if q > p {
      AtLeastOnce(d, q - p);
    } else if q < p {
      AtLeastOnce(d, p - q);
    }
  }

  lemma DivideTwice(n: nat, p: nat)
    requires 0 < p
    ensures n / 256 / p == n / (256 * p)
  {
    var a := n / 256;
    var q, c := a / p, a % p;
    assert a == p * q + c;
    assert 256 * (p * q) == (256 * p) * q;
    QuotientIsUnique(n, 256 * p, q, 256 * c + n % 256);
  }

  /** Byte i as the code takes it, by shifting. */
  lemma {:induction false} BigEndianAt(n: nat, k: nat, i: nat)
    requires i < k
    ensures BigEndian(n, k)[i] == (n / Pow256(k - 1 - i) % 256) as Byte
    decreases k
  {
    if i < k - 1 {
      BigEndianAt(n / 256, k - 1, i);
      DivideTwice(n, Pow256(k - 2 - i));
    }
  }

  const TWO64: nat := 0x1_0000_0000_0000_0000

  /** The length field: the standard defines it for messages below 2^64 bits, the code counts modulo 2^64. */
  function LengthField(m: Bytes): (r: Bytes)
    ensures |r| == 8
  {
    BigEndian(8 * |m| % TWO64, 8)
  }

  lemma PadFits(n: nat)
    ensures (n + 1 + ZeroBytes(n) + 8) % 64 == 0
  {
    ZeroBytesByCase(n);
    var q, r := n / 64, n % 64;
    RestOf64(n + 1 + ZeroBytes(n) + 8, if r < 56 then q + 1 else q + 2, 0);
  }

  lemma ZeroBytesByCase(n: nat)
    ensures ZeroBytes(n) == if n % 64 < 56 then 55 - n % 64 else 119 - n % 64
  {
  }

  lemma RestOf64(x: nat, q: nat, r: nat)
    requires x == 64 * q + r && r < 64
    ensures x % 64 == r
  {
    assert x / 64 == q;
  }

  function Pad(m: Bytes): (p: Bytes)
    ensures |p| % 64 == 0
  {
    PadFits(|m|);
    m + [0x80] + Zeros(ZeroBytes(|m|)) + LengthField(m)
  }

  // ---- Section 6.2.2: the hash computation ----

  /** A working or chaining state: eight words. */
  type Hash = h: seq<Word> | |h| == 8 witness seq(8, _ => 0 as Word)

  /** One 512-bit block. */
  type Block = b: Bytes | |b| == 64 witness Zeros(64)

  /** The t-th 32-bit word of the block. */
  function M(b: Block, t: nat): Word
    requires t < 16
  {
    ((b[4 * t] as Word) << 24) | ((b[4 * t + 1] as Word) << 16) | ((b[4 * t + 2] as Word) << 8) | (b[4 * t + 3] as Word)
  }

  /** The message schedule. */
  function W(b: Block, t: nat): Word {
    if t < 16 then M(b, t)
    else NextWord(W(b, t - 16), W(b, t - 15), W(b, t - 7), W(b, t - 2))
  }

  function NextWord(w16: Word, w15: Word, w7: Word, w2: Word): Word {
    Sum4(SmallSigma1(w2), w7, SmallSigma0(w15), w16)
  }

  function T1(e: Word, f: Word, g: Word, h: Word, k: Word, w: Word): Word {
    Plus(Plus(Plus(Plus(h, BigSigma1(e)), Ch(e, f, g)), k), w)
  }

  function T2(a: Word, b: Word, c: Word): Word {
    Plus(BigSigma0(a), Maj(a, b, c))
  }

  /** One round on a, b, c, d, e, f, g, h with the round's constant and schedule word. */
  function Round(v: Hash, k: Word, w: Word): Hash {
    var t1, t2 := T1(v[4], v[5], v[6], v[7], k, w), T2(v[0], v[1], v[2]);
    [Plus(t1, t2), v[0], v[1], v[2], Plus(v[3], t1), v[4], v[5], v[6]]
  }

  function Rounds(v: Hash, b: Block, t: nat): Hash
    requires t <= 64
  {
    if t == 0 then v
    else
      KHas64();
      Round(Rounds(v, b, t - 1), K[t - 1], W(b, t - 1))
  }

  function AddWords(x: Hash, y: Hash): Hash {
    [Plus(x[0], y[0]), Plus(x[1], y[1]), Plus(x[2], y[2]), Plus(x[3], y[3]),
     Plus(x[4], y[4]), Plus(x[5], y[5]), Plus(x[6], y[6]), Plus(x[7], y[7])]
  }

  function Compress(h: Hash, b: Block): Hash {
    AddWords(h, Rounds(h, b, 64))
  }

  // ---- Section 5.3.3 and the digest ----

  const H0: Hash := [0x6a09e667, 0xbb67ae85, 0x3c6ef372, 0xa54ff53a, 0x510e527f, 0x9b05688c, 0x1f83d9ab, 0x5be0cd19]

  /** All the whole blocks of m, in order. */
  function Fold(h: Hash, m: Bytes): Hash
    decreases |m|
  {
    if |m| < 64 then h else Fold(Compress(h, m[..64]), m[64..])
  }

  function WordBytes(w: Word): (r: Bytes)
    ensures |r| == 4
  {
    [((w >> 24) & 0xFF) as Byte, ((w >> 16) & 0xFF) as Byte, ((w >> 8) & 0xFF) as Byte, (w & 0xFF) as Byte]
  }

  /** The bytes of the first n words. */
  function Serialize(h: Hash, n: nat): (d: Bytes)
    requires n <= 8
    ensures |d| == 4 * n
  {
    if n == 0 then [] else Serialize(h, n - 1) + WordBytes(h[n - 1])
  }

  function Digest(m: Bytes): (d: Bytes)
    ensures |d| == 32
  {
    Serialize(Fold(H0, Pad(m)), 8)
  }

  /**
   Section 5.1.1 counts bits: a one bit, then the least number of zero bits that leaves room for the 64-bit length
   at the end of a 512-bit block. In whole bytes that is 0x80 and ZeroBytes zero bytes.
   */
  lemma PaddingIsMinimal(n: nat, k: nat)
    ensures (8 * n + 1 + (7 + 8 * ZeroBytes(n))) % 512 == 448
    ensures (8 * n + 1 + k) % 512 == 448 ==> 7 + 8 * ZeroBytes(n) <= k
  {
    PaddingFits(n);
    var blocks, rest := n / 64, n % 64;
    var q := (8 * n + 1 + k) / 512;
    if (8 * n + 1 + k) % 512 == 448 {
      assert k == 512 * (q - blocks) + 447 - 8 * rest;
    }
  }

  lemma PaddingFits(n: nat)
    ensures (8 * n + 1 + (7 + 8 * ZeroBytes(n))) % 512 == 448
  {
    var whole := n + 1 + ZeroBytes(n);
    ZeroBytesFit(n, ZeroBytes(n));
    assert 8 * n + 8 + 8 * ZeroBytes(n) == 512 * (whole / 64) + 448;
  }

  /** Among the numbers up to ZeroBytes only ZeroBytes itself brings the length to 56 modulo 64. */
  lemma ZeroBytesFit(n: nat, k: nat)
    requires k <= ZeroBytes(n)
    ensures (n + 1 + k) % 64 == 56 <==> k == ZeroBytes(n)
  {
    ZeroBytesByCase(n);
    var q, t := n / 64, n % 64 + 1 + k;
    RestOf64(n + 1 + k, if t < 64 then q else q + 1, if t < 64 then t else t - 64);
  }

  // ---- Folding blocks ----

  lemma {:induction false} FoldAppend(h: Hash, m: Bytes, b: Block)
    requires |m| % 64 == 0
    ensures Fold(h, m + b) == Compress(Fold(h, m), b)
    decreases |m|
  {
    hide Compress;
    if |m| == 0 {
      assert (m + b)[..64] == b && |(m + b)[64..]| == 0;
    } else {
      assert (m + b)[..64] == m[..64] && (m + b)[64..] == m[64..] + b;
      FoldAppend(Compress(h, m[..64]), m[64..], b);
    }
  }

  // ---- The chaining state ----

  /** The chaining state is added to what the rounds make of it. */
  lemma CompressFeedsForward(h: Hash, b: Block, i: nat)
    requires i < 8
    ensures Compress(h, b)[i] == Plus(h[i], Rounds(h, b, 64)[i])
  {
    hide Rounds, Plus, AddWords;
    AddWordsAt(h, Rounds(h, b, 64), i);
  }

  lemma AddWordsAt(x: Hash, y: Hash, i: nat)
    requires i < 8
    ensures AddWords(x, y)[i] == Plus(x[i], y[i])
  {
    hide Plus;
  }
}
