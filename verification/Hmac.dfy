/** HMAC-SHA256 (section 2 of RFC 2104) and the password hash of src/app_auth.c. */
module Hmac {
  import opened Bytes
  import opened Fips180
  import opened Sha256Stream

  // ---- The standard ----

  /** Bitwise exclusive or of the low `n` bits. */
  function XorBits(x: nat, y: nat, n: nat): (r: nat)
    ensures r < Pow2(n)
  {
    if n == 0 then 0 else 2 * XorBits(x / 2, y / 2, n - 1) + (if x % 2 == y % 2 then 0 else 1)
  }

  /** Bitwise or of the low `n` bits. */
  function OrBits(x: nat, y: nat, n: nat): (r: nat)
    ensures r < Pow2(n)
  {
    if n == 0 then 0 else 2 * OrBits(x / 2, y / 2, n - 1) + (if x % 2 == 1 || y % 2 == 1 then 1 else 0)
  }

  function Pow2(n: nat): (p: nat)
    ensures p > 0
  {
    if n == 0 then 1 else 2 * Pow2(n - 1)
  }

  lemma Pow2Of8()
    ensures Pow2(8) == 0x100
  {
    assert Pow2(4) == 16;
  }

  function Xor(x: byte, y: byte): byte
  {
    Pow2Of8();
    XorBits(x as nat, y as nat, 8) as byte
  }

  function Or(x: byte, y: byte): byte
  {
    Pow2Of8();
    OrBits(x as nat, y as nat, 8) as byte
  }

  function XorAll(s: seq<byte>, y: byte): (r: seq<byte>)
    ensures |r| == |s|
  {
    seq(|s|, i requires 0 <= i < |s| => Xor(s[i], y))
  }

  /** The key brought to one block: hashed first when it is longer, then filled up with zeros. */
  function BlockKey(key: seq<byte>): (k: seq<byte>)
    ensures |k| == 64
  {
    if |key| > 64 then Sha256(key) + Zeros(32) else key + Zeros(64 - |key|)
  }

  /** H(K XOR opad, H(K XOR ipad, text)). */
  function HmacSha256(key: seq<byte>, text: seq<byte>): (mac: seq<byte>)
    ensures |mac| == 32
  {
    Sha256(XorAll(BlockKey(key), 0x5C) + Sha256(XorAll(BlockKey(key), 0x36) + text))
  }

  // ---- What the operations and the construction mean ----

  /** Bit `i` of a byte, counted from the least significant. */
  predicate HasBit(x: nat, i: nat)
  {
    if i == 0 then x % 2 == 1 else HasBit(x / 2, i - 1)
  }

  lemma {:induction false} XorBit(x: nat, y: nat, n: nat, i: nat)
    requires i < n
    ensures HasBit(XorBits(x, y, n), i) <==> HasBit(x, i) != HasBit(y, i)
  {
    if i > 0 {
      XorBit(x / 2, y / 2, n - 1, i - 1);
    }
  }

  lemma {:induction false} OrBit(x: nat, y: nat, n: nat, i: nat)
    requires i < n
    ensures HasBit(OrBits(x, y, n), i) <==> HasBit(x, i) || HasBit(y, i)
  {
    if i > 0 {
      OrBit(x / 2, y / 2, n - 1, i - 1);
    }
  }

  predicate ByteBit(x: byte, i: nat)
  {
    HasBit(x as nat, i)
  }

  /** Xor and Or work bit by bit. */
  lemma BitByBit(x: byte, y: byte, i: nat)
    requires i < 8
    ensures ByteBit(Xor(x, y), i) <==> ByteBit(x, i) != ByteBit(y, i)
    ensures ByteBit(Or(x, y), i) <==> ByteBit(x, i) || ByteBit(y, i)
  {
    hide XorBits, OrBits, HasBit;
    Pow2Of8();
    XorBit(x as nat, y as nat, 8, i);
    OrBit(x as nat, y as nat, 8, i);
  }

  lemma {:induction false} SameBits(x: nat, y: nat, n: nat)
    requires x < Pow2(n) && y < Pow2(n) && forall i: nat :: i < n ==> (HasBit(x, i) <==> HasBit(y, i))
    ensures x == y
  {
    if n > 0 {
      assert HasBit(x, 0) <==> HasBit(y, 0);
      forall i: nat | i < n - 1
        ensures HasBit(x / 2, i) <==> HasBit(y / 2, i)
      {
        assert HasBit(x, i + 1) <==> HasBit(y, i + 1);
      }
      SameBits(x / 2, y / 2, n - 1);
    }
  }

  lemma SameBytes(x: byte, y: byte)
    requires forall i: nat :: i < 8 ==> (ByteBit(x, i) <==> ByteBit(y, i))
    ensures x == y
  {
    hide HasBit;
    var a, b := x as nat, y as nat;
    forall i: nat | i < 8
      ensures HasBit(a, i) <==> HasBit(b, i)
    {
      assert ByteBit(x, i) <==> ByteBit(y, i);
    }
    Pow2Of8();
    SameBits(a, b, 8);
  }

  /** Every bit of `s` is that of `k`, changed where `pad` has a bit. */
  ghost predicate IsMasked(s: seq<byte>, k: seq<byte>, pad: byte)
  {
    && |s| == |k|
    && forall j, i: nat :: 0 <= j < |k| && i < 8 ==>
         (ByteBit(s[j], i) <==> ByteBit(k[j], i) != ByteBit(pad, i))
  }

  lemma MaskedIsXor(s: seq<byte>, k: seq<byte>, pad: byte)
    requires IsMasked(s, k, pad)
    ensures s == XorAll(k, pad)
  {
    hide HasBit, Xor;
    forall j | 0 <= j < |k|
      ensures s[j] == Xor(k[j], pad)
    {
      forall i: nat | i < 8
        ensures ByteBit(s[j], i) <==> ByteBit(Xor(k[j], pad), i)
      {
        BitByBit(k[j], pad, i);
      }
      SameBytes(s[j], Xor(k[j], pad));
    }
  }

  /** Section 2 of RFC 2104, with K brought to 64 bytes and the two masks given bit by bit. */
  lemma HmacIsRfc2104(key: seq<byte>, text: seq<byte>, k: seq<byte>, inner: seq<byte>, outer: seq<byte>)
    requires |k| == 64
    requires if |key| <= 64 then k[..|key|] == key && forall i :: |key| <= i < 64 ==> k[i] == 0
             else k[..32] == Sha256(key) && forall i :: 32 <= i < 64 ==> k[i] == 0
    requires IsMasked(inner, k, 0x36) && IsMasked(outer, k, 0x5C)
    ensures HmacSha256(key, text) == Sha256(outer + Sha256(inner + text))
  {
    hide Sha256, IsMasked, XorAll;
    assert k == BlockKey(key) by {
      assert k == (if |key| <= 64 then k[..|key|] + k[|key|..] else k[..32] + k[32..]);
    }
    MaskedIsXor(inner, k, 0x36);
    MaskedIsXor(outer, k, 0x5C);
  }

  /** With an empty key the masks are all there is. */
  lemma HmacOfEmptyKey(text: seq<byte>)
    ensures HmacSha256([], text) == Sha256(seq(64, i => 0x5C) + Sha256(seq(64, i => 0x36) + text))
  {
    hide Sha256, IsMasked;
    MaskOfZeros(0x36);
    MaskOfZeros(0x5C);
    HmacIsRfc2104([], text, Zeros(64), seq(64, i => 0x36), seq(64, i => 0x5C));
  }

  lemma MaskOfZeros(pad: byte)
    ensures IsMasked(seq(64, i => pad), Zeros(64), pad)
  {
    forall i: nat
      ensures !HasBit(0, i)
    {
      ZeroHasNoBit(i);
    }
  }

  lemma {:induction false} ZeroHasNoBit(i: nat)
    ensures !HasBit(0, i)
  {
    if i > 0 {
      ZeroHasNoBit(i - 1);
    }
  }

  // ---- The code ----

  method ComputeHmac(key: seq<byte>, msg: seq<byte>) returns (mac: seq<byte>)
    ensures mac == HmacSha256(key, msg)
  {
    hide Sha256, Context.Valid;
    var ctx := new Context();
    var keyPad := new byte[64];
    if |key| > 64 {
      ctx.Init();
      ctx.Update(key);
      assert ctx.absorbed == key;
      ctx.Finish(keyPad);
      Clear(keyPad, 32, 32);
    } else {
      Copy(keyPad, 0, key);
      Clear(keyPad, |key|, 64 - |key|);
    }
    assert keyPad[..] == BlockKey(key);

    var innerKey := XorPad(keyPad[..], 0x36);
    var innerHash := DigestOfTwo(ctx, innerKey, msg);
    var outerKey := XorPad(keyPad[..], 0x5C);
    mac := DigestOfTwo(ctx, outerKey, innerHash);
  }

  method XorPad(keyPad: seq<byte>, pad: byte) returns (r: seq<byte>)
    requires |keyPad| == 64
    ensures r == XorAll(keyPad, pad)
  {
    var a := new byte[64];
    for i := 0 to 64
      invariant forall k :: 0 <= k < i ==> a[k] == Xor(keyPad[k], pad)
    {
      a[i] := Xor(keyPad[i], pad);
    }
    r := a[..];
  }

  /** Init, two updates and Finish on a context used before. */
  method DigestOfTwo(ctx: Context, first: seq<byte>, second: seq<byte>) returns (digest: seq<byte>)
    requires ctx.Shape()
    modifies ctx, ctx.state, ctx.buf
    ensures digest == Sha256(first + second)
  {
    hide Sha256, Context.Valid;
    ctx.Init();
    ctx.Update(first);
    ctx.Update(second);
    assert ctx.absorbed == first + second;
    var hash := new byte[32];
    ctx.Finish(hash);
    assert hash[..] == hash[..32];
    digest := hash[..];
  }

  /** SHA256(password || device_sn || salt). */
  method ComputePasswordHash(password: seq<byte>, sn: seq<byte>, salt: seq<byte>) returns (hash: seq<byte>)
    ensures hash == Sha256(password + sn + salt)
  {
    hide Sha256, Context.Valid;
    var ctx := new Context();
    ctx.Init();
    ctx.Update(password);
    ctx.Update(sn);
    ctx.Update(salt);
    assert ctx.absorbed == password + sn + salt;
    var out := new byte[32];
    ctx.Finish(out);
    assert out[..] == out[..32];
    hash := out[..];
  }

  /** The loop without early exit: the accumulated difference is zero exactly when the two digests are equal. */
  method ConstantTimeEqual(expected: seq<byte>, received: seq<byte>) returns (match_: bool)
    requires |expected| == |received| == 32
    ensures match_ <==> expected == received
  {
    var diff: byte := 0;
    for i := 0 to 32
      invariant diff == 0 <==> expected[..i] == received[..i]
    {
      DifferenceAccumulates(diff, expected[i], received[i]);
      diff := Or(diff, Xor(expected[i], received[i]));
      assert expected[..i + 1] == expected[..i] + [expected[i]] && received[..i + 1] == received[..i] + [received[i]];
    }
    assert expected[..32] == expected && received[..32] == received;
    match_ := diff == 0;
  }

  lemma DifferenceAccumulates(diff: byte, x: byte, y: byte)
    ensures Or(diff, Xor(x, y)) == 0 <==> diff == 0 && x == y
  {
    hide XorBits, OrBits;
    Pow2Of8();
    XorIsZero(x as nat, y as nat, 8);
    OrIsZero(diff as nat, Xor(x, y) as nat, 8);
  }

  lemma {:induction false} XorIsZero(x: nat, y: nat, n: nat)
    requires x < Pow2(n) && y < Pow2(n)
    ensures XorBits(x, y, n) == 0 <==> x == y
  {
    if n > 0 {
      XorIsZero(x / 2, y / 2, n - 1);
    }
  }

  lemma {:induction false} OrIsZero(x: nat, y: nat, n: nat)
    requires x < Pow2(n) && y < Pow2(n)
    ensures OrBits(x, y, n) == 0 <==> x == 0 && y == 0
  {
    if n > 0 {
      OrIsZero(x / 2, y / 2, n - 1);
    }
  }
}
