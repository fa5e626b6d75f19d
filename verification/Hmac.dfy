/** HMAC-SHA256 and its verifier: src/crypto/hmac.cpp, and the comparison of src/crypto/crypto.cpp. */
module Hmac {
  import opened Core
  import opened Sha256Spec
  import opened Sha256

  const BLOCK: nat := 64

  // ---- Section 2 of RFC 2104 ----

  /** The key as one block: hashed down when it is longer, then filled with zero bytes. */
  function BlockKey(key: Bytes): (k: Bytes)
    ensures |k| == BLOCK
  {
    var short := if |key| > BLOCK then Digest(key) else key;
    short + Zeros(BLOCK - |short|)
  }

  function Xor(k: Bytes, pad: Byte): (r: Bytes)
    ensures |r| == |k|
  {
    seq(|k|, i requires 0 <= i < |k| => k[i] ^ pad)
  }

  lemma XorAt(k: Bytes, pad: Byte, i: nat)
    requires i < |k|
    ensures Xor(k, pad)[i] == k[i] ^ pad
  {
  }

  function Tag(key: Bytes, text: Bytes): (tag: Bytes)
    ensures |tag| == 32
  {
    Digest(Xor(BlockKey(key), 0x5c) + Digest(Xor(BlockKey(key), 0x36) + text))
  }

  /** A key longer than a block is interchangeable with its digest. */
  lemma LongKeyIsItsDigest(key: Bytes, text: Bytes)
    requires |key| > BLOCK
    ensures Tag(key, text) == Tag(Digest(key), text)
  {
    hide Digest;
    assert BlockKey(key) == BlockKey(Digest(key));
  }

  /** A shorter key is interchangeable with the same key filled up with zero bytes. */
  lemma ShortKeyIsPadded(key: Bytes, n: nat, text: Bytes)
    requires |key| + n <= BLOCK
    ensures Tag(key, text) == Tag(key + Zeros(n), text)
  {
    hide Digest;
    assert BlockKey(key) == BlockKey(key + Zeros(n));
  }

  /** K of RFC 2104: key filled up with zero bytes to the size of a block. */
  ghost predicate Fills(k: Bytes, key: Bytes) {
    |k| == 64 && key <= k && forall i :: |key| <= i < 64 ==> k[i] == 0
  }

  /**
   H(K XOR opad, H(K XOR ipad, text)) of section 2 of RFC 2104, the pads being 64 bytes 0x5c and 0x36, with any
   way of writing K and its two blocks down. A longer key is replaced by its hash first.
   */
  lemma TagIsHmac(key: Bytes, text: Bytes, k: Bytes, outside: Bytes, inside: Bytes)
    requires Fills(k, if |key| <= 64 then key else Digest(key)) && |outside| == |inside| == 64
    requires forall i :: 0 <= i < 64 ==> outside[i] == k[i] ^ 0x5c && inside[i] == k[i] ^ 0x36
    ensures Tag(key, text) == Digest(outside + Digest(inside + text))
  {
    hide Digest;
    assert k == BlockKey(key);
    assert outside == Xor(k, 0x5c) && inside == Xor(k, 0x36);
  }

  // ---- The code ----

  class HmacSha256 {
    const inner: Sha256
    const okey: array<Byte>
    ghost const key: Bytes
    ghost var text: Bytes

    ghost predicate Valid()
      reads this, inner, inner.state, inner.buffer, okey
    {
      && inner.Valid()
      && okey != inner.buffer && okey as object != inner.state
      && okey[..] == Xor(BlockKey(key), 0x5c)
      && (!inner.finalized ==> inner.message == Xor(BlockKey(key), 0x36) + text)
    }

    constructor (key: Bytes)
      ensures Valid() && !inner.finalized && this.key == key && text == []
      ensures fresh(inner) && fresh(inner.state) && fresh(inner.buffer) && fresh(okey)
    {
      inner := new Sha256();
      okey := new Byte[64];
      this.key, text := key, [];
      new;
      Init(key);
    }

    method Init(key: Bytes)
      requires inner.Shape() && okey.Length == 64 && okey != inner.buffer && okey as object != inner.state
      requires this.key == key
      modifies this, inner, inner.state, inner.buffer, okey
      ensures Valid() && !inner.finalized && text == []
    {
      hide Digest, Xor, Stands, Zeros;
      var k := new Byte[64](_ => 0);
      if |key| > BLOCK {
        var kh := HashOf(key);
        forall i | 0 <= i < |kh| {
          k[i] := kh[i];
        }
      } else {
        forall i | 0 <= i < |key| {
          k[i] := key[i];
        }
      }
      assert k[..] == BlockKey(key);
      var ikey := XorInto(k[..]);
      inner.Reset();
      assert [] + ikey == ikey == ikey + [];
      var _ := inner.Update(ikey);
      text := [];
    }

    /** Returns the inner key block and stores the outer one. */
    method XorInto(k: Bytes) returns (r: Bytes)
      requires |k| == 64 && okey.Length == 64
      modifies okey
      ensures r == Xor(k, 0x36) && okey[..] == Xor(k, 0x5c)
    {
      hide Xor;
      var ikey := new Byte[64];
      for i := 0 to 64
        invariant ikey[..i] == Xor(k, 0x36)[..i] && okey[..i] == Xor(k, 0x5c)[..i]
      {
        XorAt(k, 0x36, i);
        XorAt(k, 0x5c, i);
        ikey[i] := k[i] ^ 0x36;
        okey[i] := k[i] ^ 0x5c;
      }
      return ikey[..];
    }

    method Update(data: Bytes) returns (r: Result<(), Code>)
      requires Valid()
      modifies this, inner, inner.state, inner.buffer
      ensures Valid() && inner.finalized == old(inner.finalized)
      ensures inner.finalized ==> r == Err(BadState) && text == old(text)
      ensures !inner.finalized ==> r == Ok(()) && text == old(text) + data
    {
      hide Stands, Xor, BlockKey;
      r := inner.Update(data);
      if r.Ok? {
        assert Xor(BlockKey(key), 0x36) + text + data == Xor(BlockKey(key), 0x36) + (text + data);
        text := text + data;
      }
    }

    method Final() returns (r: Result<Bytes, Code>)
      requires Valid()
      modifies this, inner, inner.state, inner.buffer
      ensures Valid() && inner.finalized
      ensures r == if old(inner.finalized) then Err(BadState) else Ok(Tag(key, old(text)))
    {
      hide Digest;
      var inside := inner.Final();
      if inside.Err? {
        return Err(inside.error);
      }
      var outer := new Sha256();
      var _ := outer.Update(okey[..]);
      assert [] + okey[..] == okey[..];
      var _ := outer.Update(inside.value);
      r := outer.Final();
    }
  }

  /** One-shot convenience. */
  method TagOf(key: Bytes, data: Bytes) returns (tag: Bytes)
    ensures tag == Tag(key, data)
  {
    var h := new HmacSha256(key);
    var _ := h.Update(data);
    assert [] + data == data;
    var r := h.Final();
    return r.value;
  }

  lemma OrCollects(diff: Byte, x: Byte, y: Byte)
    ensures (diff | (x ^ y)) == 0 <==> diff == 0 && x == y
  {
  }

  /** Accumulates the differences instead of stopping at the first one. */
  method ConstTimeEqual(a: Bytes, b: Bytes) returns (same: bool)
    ensures same == (a == b)
  {
    if |a| != |b| {
      return false;
    }
    var diff: Byte := 0;
    for i := 0 to |a|
      invariant diff == 0 <==> a[..i] == b[..i]
    {
      OrCollects(diff, a[i], b[i]);
      assert a[..i + 1] == a[..i] + [a[i]] && b[..i + 1] == b[..i] + [b[i]];
      diff := diff | (a[i] ^ b[i]);
    }
    assert a[..|a|] == a && b[..|b|] == b;
    return diff == 0;
  }

  /** Accepts exactly the tag of the message under the key. */
  method Verify(key: Bytes, data: Bytes, sig: Bytes) returns (r: Result<(), Code>)
    ensures r == if sig == Tag(key, data) then Ok(()) else Err(VerifyFailed)
  {
    var tag := TagOf(key, data);
    var same := ConstTimeEqual(tag, sig);
    if !same {
      return Err(VerifyFailed);
    }
    return Ok(());
  }
}
