/** The streaming SHA-256 of src/crypto/sha256.cpp: one partial block of buffer, whole blocks hashed as they fill. */
module Sha256 {
  import opened Core
  import opened Radix
  import opened Sha256Spec

  datatype Code = BadState | VerifyFailed

  // The code rotates right by shifting both ways and joining. Section 3.2 of FIPS 180-4 has a rotation.

  function ShiftSmall0(x: Word): Word { ((x >> 7) | (x << 25)) ^ ((x >> 18) | (x << 14)) ^ (x >> 3) }

  function ShiftSmall1(x: Word): Word { ((x >> 17) | (x << 15)) ^ ((x >> 19) | (x << 13)) ^ (x >> 10) }

  function ShiftBig0(x: Word): Word { ((x >> 2) | (x << 30)) ^ ((x >> 13) | (x << 19)) ^ ((x >> 22) | (x << 10)) }

  function ShiftBig1(x: Word): Word { ((x >> 6) | (x << 26)) ^ ((x >> 11) | (x << 21)) ^ ((x >> 25) | (x << 7)) }

  lemma Small0Rotates(x: Word)
    ensures ShiftSmall0(x) == SmallSigma0(x)
  {
  }

  lemma Small1Rotates(x: Word)
    ensures ShiftSmall1(x) == SmallSigma1(x)
  {
  }

  lemma Big0Rotates(x: Word)
    ensures ShiftBig0(x) == BigSigma0(x)
  {
  }

  lemma Big1Rotates(x: Word)
    ensures ShiftBig1(x) == BigSigma1(x)
  {
  }

  lemma SumReversed(a: Word, b: Word, c: Word, d: Word)
    ensures Sum4(a, b, c, d) == Sum4(d, c, b, a)
  {
  }

  /** The schedule's sum, which the code adds up in another order. */
  lemma ScheduleSum(w16: Word, w15: Word, w7: Word, w2: Word)
    ensures Sum4(w16, ShiftSmall0(w15), w7, ShiftSmall1(w2)) == NextWord(w16, w15, w7, w2)
  {
    hide ShiftSmall0, ShiftSmall1, SmallSigma0, SmallSigma1, Sum4;
    Small0Rotates(w15);
    Small1Rotates(w2);
    SumReversed(w16, SmallSigma0(w15), w7, SmallSigma1(w2));
  }

  class Sha256 {
    const state: array<Word>
    var bitlen: nat
    const buffer: array<Byte>
    var buffered: nat
    var finalized: bool
    /** Everything fed to Update since the last Reset. */
    ghost var message: Bytes

    ghost predicate Shape()
      reads this, state, buffer
    {
      state.Length == 8 && buffer.Length == 64 && state as object != buffer && buffered < 64
    }

    /** State and buffer together stand for the message, whose length is counted in bits modulo 2^64. */
    ghost predicate Valid()
      reads this, state, buffer
    {
      && Shape()
      && (!finalized ==> Stands(state[..], buffer[..buffered], message) && bitlen == 8 * |message| % TWO64)
    }

    constructor ()
      ensures Valid() && !finalized && message == [] && fresh(state) && fresh(buffer)
    {
      state := new Word[8];
      buffer := new Byte[64];
      buffered := 0;
      new;
      Reset();
    }

    method Reset()
      requires Shape()
      modifies this, state
      ensures Valid() && !finalized && message == []
    {
      hide Fold;
      state[0], state[1], state[2], state[3] := 0x6a09e667, 0xbb67ae85, 0x3c6ef372, 0xa54ff53a;
      state[4], state[5], state[6], state[7] := 0x510e527f, 0x9b05688c, 0x1f83d9ab, 0x5be0cd19;
      bitlen := 0;
      buffered := 0;
      finalized := false;
      message := [];
      FoldNothing();
    }

    /** One block into the chaining state. */
    method CompressBlock(block: Block)
      requires state.Length == 8
      modifies state
      ensures state[..] == Compress(old(state[..]), block)
    {
      hide Rounds, AddWords;
      var v := RotateRounds(state[..], block);
      AddInto(v);
    }

    /** Word by word, modulo 2^32. */
    method AddInto(v: Hash)
      requires state.Length == 8
      modifies state
      ensures state[..] == AddWords(old(state[..]), v)
    {
      hide Plus;
      var a, b, c, d := Plus(state[0], v[0]), Plus(state[1], v[1]), Plus(state[2], v[2]), Plus(state[3], v[3]);
      var e, f, g, h := Plus(state[4], v[4]), Plus(state[5], v[5]), Plus(state[6], v[6]), Plus(state[7], v[7]);
      SetWords(a, b, c, d, e, f, g, h);
    }

    method SetWords(a: Word, b: Word, c: Word, d: Word, e: Word, f: Word, g: Word, h: Word)
      requires state.Length == 8
      modifies state
      ensures state[..] == [a, b, c, d, e, f, g, h]
    {
      state[0], state[1], state[2], state[3] := a, b, c, d;
      state[4], state[5], state[6], state[7] := e, f, g, h;
    }

    /** The 64 rounds: the eight working variables are rotated in place. */
    static method RotateRounds(start: Hash, block: Block) returns (r: Hash)
      ensures r == Rounds(start, block, 64)
    {
      hide ShiftBig0, ShiftBig1, Ch, Maj, Plus, W, Round, Rounds;
      Rounds0(start, block);
      var w := Schedule(block);
      var a, b, c, d := start[0], start[1], start[2], start[3];
      var e, f, g, h := start[4], start[5], start[6], start[7];
      KHas64();
      for i := 0 to 64
        invariant [a, b, c, d, e, f, g, h] == Rounds(start, block, i)
        modifies {}
      {
        ghost var v: Hash := [a, b, c, d, e, f, g, h];
        RotatesOnce(v, K[i], w[i]);
        var temp1 := Plus(Plus(Plus(Plus(h, ShiftBig1(e)), Ch(e, f, g)), K[i]), w[i]);
        var temp2 := Plus(ShiftBig0(a), Maj(a, b, c));
        h := g;
        g := f;
        f := e;
        e := Plus(d, temp1);
        d := c;
        c := b;
        b := a;
        a := Plus(temp1, temp2);
        NextRound(start, block, i);
      }
      return [a, b, c, d, e, f, g, h];
    }

    /** The message schedule, filled in place. */
    static method Schedule(block: Block) returns (w: array<Word>)
      ensures fresh(w) && w.Length == 64 && forall t :: 0 <= t < 64 ==> w[t] == W(block, t)
    {
      w := new Word[64];
      for i := 0 to 16
        invariant forall t :: 0 <= t < i ==> w[t] == W(block, t)
      {
        w[i] := ((block[i * 4] as Word) << 24) | ((block[i * 4 + 1] as Word) << 16)
                | ((block[i * 4 + 2] as Word) << 8) | (block[i * 4 + 3] as Word);
      }
      for i := 16 to 64
        invariant forall t :: 0 <= t < i ==> w[t] == W(block, t)
      {
        hide W, ShiftSmall0, ShiftSmall1, NextWord, Sum4;
        ScheduleSum(w[i - 16], w[i - 15], w[i - 7], w[i - 2]);
        w[i] := Sum4(w[i - 16], ShiftSmall0(w[i - 15]), w[i - 7], ShiftSmall1(w[i - 2]));
        assert W(block, i) == NextWord(W(block, i - 16), W(block, i - 15), W(block, i - 7), W(block, i - 2)) by {
          NextScheduled(block, i);
        }
      }
    }

    /** Tops up a partial block from the front of data; returns how much of data that took. */
    method Drain(data: Bytes) returns (i: nat)
      requires Shape() && Stands(state[..], buffer[..buffered], message)
      modifies `buffered, state, buffer
      ensures Shape() && i <= |data| && (buffered == 0 || i == |data|)
      ensures Stands(state[..], buffer[..buffered], message + data[..i])
    {
      hide Stands;
      i := 0;
      assert message + data[..0] == message;
      if buffered > 0 {
        while i < |data| && buffered < 64
          invariant i <= |data| && buffered <= 64
          invariant Stands(state[..], buffer[..buffered], message + data[..i])
          modifies `buffered, buffer
        {
          Take(data, i);
          i := i + 1;
        }
        if buffered == 64 {
          assert buffer[..64] == buffer[..];
          CompressingStands(state[..], buffer[..], message + data[..i]);
          CompressBlock(buffer[..]);
          buffered := 0;
        }
      }
    }

    /** One more byte into the buffer. */
    method Take(data: Bytes, i: nat)
      requires state.Length == 8 && buffer.Length == 64 && state as object != buffer && buffered < 64
      requires i < |data| && Stands(state[..], buffer[..buffered], message + data[..i])
      modifies `buffered, buffer
      ensures buffered == old(buffered) + 1
      ensures Stands(state[..], buffer[..buffered], message + data[..i + 1])
    {
      StandsForMore(state[..], buffer[..buffered], message + data[..i], [data[i]]);
      assert message + data[..i] + [data[i]] == message + data[..i + 1];
      ghost var pending := buffer[..buffered];
      buffer[buffered] := data[i];
      buffered := buffered + 1;
      assert buffer[..buffered] == pending + [data[i]];
    }

    method Update(data: Bytes) returns (r: Result<(), Code>)
      requires Valid()
      modifies this, state, buffer
      ensures Valid() && finalized == old(finalized)
      ensures finalized ==> r == Err(BadState) && message == old(message)
      ensures !finalized ==> r == Ok(()) && message == old(message) + data
      ensures !finalized ==> buffered == |message| % 64
    {
      if finalized {
        return Err(BadState);
      }
      bitlen := (bitlen + |data| * 8 % TWO64) % TWO64;
      BitsAdd(|message|, |data|);
      Absorb(data);
      message := message + data;
      BufferedIsRest(state[..], buffer[..buffered], message);
      return Ok(());
    }

    /** Top up the partial block, hash whole blocks from where they are, buffer what is left. */
    method Absorb(data: Bytes)
      requires Shape() && Stands(state[..], buffer[..buffered], message)
      modifies `buffered, state, buffer
      ensures Shape() && Stands(state[..], buffer[..buffered], message + data)
    {
      hide Stands;
      var i := Drain(data);
      while |data| - i >= 64
        invariant Shape() && i <= |data| && (buffered == 0 || i == |data|)
        invariant Stands(state[..], buffer[..buffered], message + data[..i])
        modifies state
      {
        WholeBlock(state[..], message, data, i);
        CompressBlock(data[i..i + 64]);
        i := i + 64;
      }
      while i < |data|
        invariant Shape() && i <= |data| && buffered + (|data| - i) < 64
        invariant Stands(state[..], buffer[..buffered], message + data[..i])
        modifies `buffered, buffer
      {
        Take(data, i);
        i := i + 1;
      }
      assert data[..i] == data;
    }

    /** Pads through Update, writes the length past it, and hands out the digest once. */
    method Final() returns (r: Result<Bytes, Code>)
      requires Valid()
      modifies this, state, buffer
      ensures Valid() && finalized
      ensures r == if old(finalized) then Err(BadState) else Ok(Digest(old(message)))
    {
      if finalized {
        return Err(BadState);
      }
      ghost var m := message;
      var bits := bitlen;
      FeedPadding();
      FeedLength(bits);
      FoldOfPad(state[..], m);
      finalized := true;
      var out := Output();
      return Ok(out);
    }

    /** The byte 0x80, then zero bytes until 56 are buffered. */
    method FeedPadding()
      requires Valid() && !finalized
      modifies this, state, buffer
      ensures Valid() && !finalized && buffered == 56
      ensures message == old(message) + [0x80] + Zeros(ZeroBytes(|old(message)|))
    {
      hide Stands, ZeroBytes;
      ghost var m := message;
      ghost var k: nat := 0;
      var _ := Update([0x80]);
      assert m + [0x80] + Zeros(0) == m + [0x80];
      ZeroBytesFit(|m|, 0);
      while buffered != 56
        invariant Valid() && !finalized && k <= ZeroBytes(|m|)
        invariant message == m + [0x80] + Zeros(k) && buffered == |message| % 64
        decreases ZeroBytes(|m|) - k
      {
        ZeroBytesFit(|m|, k);
        assert m + [0x80] + Zeros(k) + [0] == m + [0x80] + Zeros(k + 1);
        var _ := Update([0]);
        k := k + 1;
      }
      ZeroBytesFit(|m|, k);
    }

    /** The length field, byte by byte. */
    static method LengthBytes(bits: nat) returns (lenbuf: array<Byte>)
      ensures fresh(lenbuf) && lenbuf[..] == BigEndian(bits, 8)
    {
      hide BigEndian;
      lenbuf := new Byte[8];
      for i := 0 to 8
        invariant lenbuf[..i] == BigEndian(bits, 8)[..i]
      {
        lenbuf[i] := (bits / Pow256(7 - i) % 256) as Byte;
        BigEndianAt(bits, 8, i);
      }
    }

    /** Fills the last eight bytes of the buffer. */
    method Place(field: array<Byte>)
      requires buffer.Length == 64 && buffered == 56 && field.Length == 8 && field != buffer
      modifies `buffered, buffer
      ensures buffer[..] == old(buffer[..56]) + field[..]
    {
      ghost var start := buffer[..56];
      for i := 0 to 8
        invariant buffered == 56 + i && buffer[..buffered] == start + field[..i]
      {
        buffer[buffered] := field[i];
        buffered := buffered + 1;
      }
    }

    /** The length is written behind the buffered bytes directly, since Update would count it. */
    method FeedLength(bits: nat)
      requires Valid() && !finalized && buffered == 56
      modifies this, state, buffer
      ensures Shape() && buffered == 0 && finalized == old(finalized)
      ensures Stands(state[..], [], old(message) + BigEndian(bits, 8))
    {
      hide Stands;
      ghost var field := BigEndian(bits, 8);
      StandsForMore(state[..], buffer[..56], message, field);
      var lenbuf := LengthBytes(bits);
      assert lenbuf[..] == field;
      Place(lenbuf);
      CompressingStands(state[..], buffer[..], message + field);
      CompressBlock(buffer[..]);
      buffered := 0;
    }

    /** The chaining state, most significant bytes first. */
    method Output() returns (r: Bytes)
      requires state.Length == 8
      ensures r == Serialize(state[..], 8)
    {
      var out := new Byte[32];
      ghost var h: Hash := state[..];
      for i := 0 to 8
        invariant out[..4 * i] == Serialize(h, i)
        modifies out
      {
        hide WordBytes;
        ghost var done := out[..4 * i];
        StoreWord(out, 4 * i, state[i]);
        assert out[..4 * (i + 1)] == done + WordBytes(h[i]);
      }
      return out[..];
    }
  }

  method StoreWord(out: array<Byte>, at: nat, w: Word)
    requires at + 4 <= out.Length
    modifies out
    ensures out[..] == old(out[..at]) + WordBytes(w) + old(out[at + 4..])
  {
    out[at] := ((w >> 24) & 0xFF) as Byte;
    out[at + 1] := ((w >> 16) & 0xFF) as Byte;
    out[at + 2] := ((w >> 8) & 0xFF) as Byte;
    out[at + 3] := (w & 0xFF) as Byte;
  }

  /** One-shot convenience. */
  method HashOf(data: Bytes) returns (d: Bytes)
    ensures d == Digest(data)
  {
    var h := new Sha256();
    var _ := h.Update(data);
    assert [] + data == data;
    var r := h.Final();
    return r.value;
  }

  lemma Rounds0(v: Hash, b: Block)
    ensures Rounds(v, b, 0) == v == [v[0], v[1], v[2], v[3], v[4], v[5], v[6], v[7]]
  {
  }

  /** A round as the code takes it: two sums, and everything else moves up by one. */
  lemma RotatesOnce(v: Hash, k: Word, w: Word)
    ensures var temp1 := Plus(Plus(Plus(Plus(v[7], ShiftBig1(v[4])), Ch(v[4], v[5], v[6])), k), w);
            var temp2 := Plus(ShiftBig0(v[0]), Maj(v[0], v[1], v[2]));
            Round(v, k, w) == [Plus(temp1, temp2), v[0], v[1], v[2], Plus(v[3], temp1), v[4], v[5], v[6]]
  {
    hide ShiftBig0, ShiftBig1, BigSigma0, BigSigma1, Ch, Maj, Plus;
    Big0Rotates(v[0]);
    Big1Rotates(v[4]);
  }

  lemma NextRound(v: Hash, b: Block, t: nat)
    requires t < 64
    ensures |K| == 64 && Rounds(v, b, t + 1) == Round(Rounds(v, b, t), K[t], W(b, t))
  {
    hide Round, W;
    KHas64();
  }

  lemma NextScheduled(b: Block, t: nat)
    requires 16 <= t
    ensures W(b, t) == NextWord(W(b, t - 16), W(b, t - 15), W(b, t - 7), W(b, t - 2))
  {
    hide NextWord;
  }

  lemma FoldNothing()
    ensures Fold(H0, []) == H0
  {
  }

  lemma BitsAdd(m: nat, n: nat)
    ensures (8 * m % TWO64 + n * 8 % TWO64) % TWO64 == 8 * (m + n) % TWO64
  {
    var x, y := 8 * m, n * 8;
    var s := x % TWO64 + y % TWO64;
    var q := (x + y) / TWO64 - x / TWO64 - y / TWO64;
    assert s == TWO64 * q + (x + y) % TWO64;
    QuotientIsUnique(s, TWO64, q, (x + y) % TWO64);
  }

  /** The chaining state has taken in all of m but its last pending bytes, which start at a block boundary. */
  ghost predicate Stands(state: seq<Word>, pending: Bytes, m: Bytes) {
    && |pending| <= |m| && (|m| - |pending|) % 64 == 0
    && m[|m| - |pending|..] == pending
    && state == Fold(H0, m[..|m| - |pending|])
  }

  lemma StandsForMore(state: seq<Word>, pending: Bytes, m: Bytes, more: Bytes)
    requires Stands(state, pending, m)
    ensures Stands(state, pending + more, m + more)
  {
    hide Fold;
    var whole := |m| - |pending|;
    assert (m + more)[..whole] == m[..whole] && (m + more)[whole..] == pending + more;
  }

  /** A full pending block goes into the chaining state. */
  lemma CompressingStands(state: Hash, pending: Block, m: Bytes)
    requires Stands(state, pending, m)
    ensures Stands(Compress(state, pending), [], m)
  {
    hide Fold, Compress;
    var whole := |m| - 64;
    assert m == m[..whole] + pending && m[..|m|] == m;
    FoldAppend(H0, m[..whole], pending);
  }

  /** A whole block of the data goes into the chaining state directly. */
  lemma WholeBlock(state: Hash, m: Bytes, data: Bytes, i: nat)
    requires i + 64 <= |data| && Stands(state, [], m + data[..i])
    ensures Stands(Compress(state, data[i..i + 64]), [], m + data[..i + 64])
  {
    hide Fold, Compress, Stands;
    var block := data[i..i + 64];
    StandsForMore(state, [], m + data[..i], block);
    assert [] + block == block && m + data[..i] + block == m + data[..i + 64];
    CompressingStands(state, block, m + data[..i + 64]);
  }

  lemma BufferedIsRest(state: seq<Word>, pending: Bytes, m: Bytes)
    requires Stands(state, pending, m) && |pending| < 64
    ensures |pending| == |m| % 64
  {
    hide Fold;
  }

  /** A state that stands for the padded message with nothing pending is its fold. */
  lemma FoldOfPad(state: seq<Word>, m: Bytes)
    requires Stands(state, [], m + [0x80] + Zeros(ZeroBytes(|m|)) + BigEndian(8 * |m| % TWO64, 8))
    ensures state == Fold(H0, Pad(m))
  {
    hide Stands, Fold, Zeros, ZeroBytes, BigEndian;
    StandsWhole(state, Pad(m));
  }

  lemma StandsWhole(state: seq<Word>, m: Bytes)
    requires Stands(state, [], m)
    ensures state == Fold(H0, m)
  {
    hide Fold;
    assert m[..|m|] == m;
  }
}
