/** The incremental SHA-256 of src/app_auth.c: a running state, a byte count and a partial block. */
module Sha256Stream {
  import opened Bytes
  import opened Fips180

  // ---- What a context remembers of the bytes absorbed so far ----

  /** The part of `m` that fills whole blocks. */
  function Whole(m: seq<byte>): (p: seq<byte>)
    ensures |p| == |m| - |m| % 64 && |p| % 64 == 0
  {
    assert (|m| - |m| % 64) % 64 == 0;
    m[..|m| - |m| % 64]
  }

  /** The bytes of `m` after its last whole block. */
  function Tail(m: seq<byte>): (t: seq<byte>)
    ensures |t| == |m| % 64
  {
    m[|m| - |m| % 64..]
  }

  /** A chunk that does not complete a block only lengthens the tail. */
  lemma AbsorbPart(m: seq<byte>, c: seq<byte>)
    requires |Tail(m)| + |c| < 64
    ensures Whole(m + c) == Whole(m) && Tail(m + c) == Tail(m) + c
  {
    assert |m + c| % 64 == |m| % 64 + |c|;
  }

  /** A chunk that completes a block adds exactly that block. */
  lemma AbsorbBlock(m: seq<byte>, c: seq<byte>)
    requires |Tail(m)| + |c| == 64
    ensures Whole(m + c) == Whole(m) + (Tail(m) + c) && Tail(m + c) == []
    ensures HashBlocks(Whole(m + c)) == Compress(HashBlocks(Whole(m)), Tail(m) + c)
  {
    assert |m + c| % 64 == 0;
    var p := Whole(m + c);
    assert p == Whole(m) + (Tail(m) + c);
    assert p[..|p| - 64] == Whole(m) && p[|p| - 64..] == Tail(m) + c;
  }

  /** Two more blocks, or one, finish the hash of a padded message. */
  lemma PadFromTail(m: seq<byte>)
    ensures |Tail(m)| < 56 ==>
              Pad(m) == Whole(m) + (Tail(m) + [0x80] + Zeros(55 - |Tail(m)|) + BigEndian(8 * |m|, 8))
    ensures |Tail(m)| >= 56 ==>
              Pad(m) == Whole(m) + (Tail(m) + [0x80] + Zeros(63 - |Tail(m)|)) + (Zeros(56) + BigEndian(8 * |m|, 8))
  {
    assert m == Whole(m) + Tail(m);
    if |Tail(m)| < 56 {
      assert ZeroCount(|m|) == 55 - |Tail(m)|;
    } else {
      assert ZeroCount(|m|) == (63 - |Tail(m)|) + 56;
      assert Zeros(ZeroCount(|m|)) == Zeros(63 - |Tail(m)|) + Zeros(56);
    }
  }

  lemma HashOneMore(p: seq<byte>, b: seq<byte>)
    requires |p| % 64 == 0 && |b| == 64
    ensures |p + b| % 64 == 0 && HashBlocks(p + b) == Compress(HashBlocks(p), b)
  {
    assert (p + b)[..|p + b| - 64] == p && (p + b)[|p + b| - 64..] == b;
  }

  /** The 64-bit length field, written as two 32-bit halves. */
  lemma LengthField(n: nat, bits: u64)
    requires bits == n % 0x1_0000_0000_0000_0000
    ensures BigEndian(n, 8) == Put32Be((bits / 0x1_0000_0000) as word) + Put32Be((bits % 0x1_0000_0000) as word)
  {
    hide BigEndian, Put32Be;
    HighHalf(n);
    LowHalf(n);
    BigEndianSplit(n, 4);
    BigEndianLow4(n);
    BigEndianLow4(n / 0x1_0000_0000);
    Put32IsBigEndian((bits / 0x1_0000_0000) as word);
    Put32IsBigEndian((bits % 0x1_0000_0000) as word);
  }

  lemma LowHalf(n: nat)
    ensures n % 0x1_0000_0000_0000_0000 % 0x1_0000_0000 == n % 0x1_0000_0000
  {
    var q, r := n / 0x1_0000_0000_0000_0000, n % 0x1_0000_0000_0000_0000;
    assert n == (q * 0x1_0000_0000) * 0x1_0000_0000 + r;
  }

  lemma HighHalf(n: nat)
    ensures n % 0x1_0000_0000_0000_0000 / 0x1_0000_0000 == n / 0x1_0000_0000 % 0x1_0000_0000
  {
    var q, r := n / 0x1_0000_0000_0000_0000, n % 0x1_0000_0000_0000_0000;
    var s := r / 0x1_0000_0000;
    assert n == (q * 0x1_0000_0000 + s) * 0x1_0000_0000 + r % 0x1_0000_0000;
    assert n / 0x1_0000_0000 == q * 0x1_0000_0000 + s;
  }

  lemma BigEndianLow4(n: nat)
    ensures BigEndian(n, 4) == BigEndian(n % 0x1_0000_0000, 4)
  {
    BigEndianLow(n, 4);
    assert Pow256(4) == Pow256(3) * 0x100 == 0x1_0000_0000;
  }

  // What the 64-bit count still says once it has wrapped.

  lemma CountModulo64(n: nat)
    ensures n % 0x1_0000_0000_0000_0000 % 64 == n % 64
  {
    var q, r := n / 0x1_0000_0000_0000_0000, n % 0x1_0000_0000_0000_0000;
    assert n == (q * 0x400_0000_0000_0000) * 64 + r;
  }

  lemma CountPlus(n: nat, k: nat)
    ensures (n % 0x1_0000_0000_0000_0000 + k) % 0x1_0000_0000_0000_0000 == (n + k) % 0x1_0000_0000_0000_0000
  {
    var s := n % 0x1_0000_0000_0000_0000 + k;
    ModUnique(n + k, 0x1_0000_0000_0000_0000,
              n / 0x1_0000_0000_0000_0000 + s / 0x1_0000_0000_0000_0000, s % 0x1_0000_0000_0000_0000);
  }

  lemma CountTimes8(n: nat)
    ensures n % 0x1_0000_0000_0000_0000 * 8 % 0x1_0000_0000_0000_0000 == 8 * n % 0x1_0000_0000_0000_0000
  {
    var s := n % 0x1_0000_0000_0000_0000 * 8;
    ModUnique(8 * n, 0x1_0000_0000_0000_0000,
              8 * (n / 0x1_0000_0000_0000_0000) + s / 0x1_0000_0000_0000_0000, s % 0x1_0000_0000_0000_0000);
  }

  // ---- The compression function ----

  /** The message schedule of a block. */
  method ExpandBlock(block: array<byte>) returns (w: array<word>)
    requires block.Length == 64
    ensures fresh(w) && w.Length == 64
    ensures forall t :: 0 <= t < 64 ==> w[t] == Schedule(block[..], t)
  {
    w := new word[64];
    ghost var m := block[..];
    for i := 0 to 16
      invariant forall t :: 0 <= t < i ==> w[t] == Schedule(m, t)
    {
      w[i] := Get32Be(block[i * 4..i * 4 + 4]);
      assert m[i * 4..i * 4 + 4] == block[i * 4..i * 4 + 4];
    }
    for i := 16 to 64
      invariant forall t :: 0 <= t < i ==> w[t] == Schedule(m, t)
    {
      w[i] := Add(Add(Add(SSig1(w[i - 2]), w[i - 7]), SSig0(w[i - 15])), w[i - 16]);
    }
  }

  /** The sixty-four rounds, on working variables loaded from `state`. */
  method RunRounds(state: array<word>, w: array<word>, ghost m: seq<byte>)
    returns (a: word, b: word, c: word, d: word, e: word, f: word, g: word, h: word)
    requires state.Length == 8 && w.Length == 64 && |m| == 64
    requires forall t :: 0 <= t < 64 ==> w[t] == Schedule(m, t)
    ensures Vars(a, b, c, d, e, f, g, h) == Rounds(m, ToVars(state[..]), 64)
  {
    hide Ch, Maj, BSig0, BSig1, Add, Schedule;
    a, b, c, d := state[0], state[1], state[2], state[3];
    e, f, g, h := state[4], state[5], state[6], state[7];
    ghost var start := ToVars(state[..]);
    for i := 0 to 64
      invariant Vars(a, b, c, d, e, f, g, h) == Rounds(m, start, i)
    {
      var t1 := Add(Add(Add(Add(h, BSig1(e)), Ch(e, f, g)), K[i]), w[i]);
      var t2 := Add(BSig0(a), Maj(a, b, c));
      h := g; g := f; f := e; e := Add(d, t1);
      d := c; c := b; b := a; a := Add(t1, t2);
    }
  }

  method Transform(state: array<word>, block: array<byte>)
    requires state.Length == 8 && block.Length == 64
    modifies state
    ensures state[..] == Compress(old(state[..]), block[..])
  {
    hide Rounds, Schedule, Add;
    var w := ExpandBlock(block);
    var a, b, c, d, e, f, g, h := RunRounds(state, w, block[..]);
    AddVars(state, a, b, c, d, e, f, g, h);
  }

  /** Step 4: the working variables are added to the state. */
  method AddVars(state: array<word>, a: word, b: word, c: word, d: word, e: word, f: word, g: word, h: word)
    requires state.Length == 8
    modifies state
    ensures var s := old(state[..]);
            state[..] == [Add(s[0], a), Add(s[1], b), Add(s[2], c), Add(s[3], d),
                          Add(s[4], e), Add(s[5], f), Add(s[6], g), Add(s[7], h)]
  {
    hide Add;
    state[0] := Add(state[0], a); state[1] := Add(state[1], b);
    state[2] := Add(state[2], c); state[3] := Add(state[3], d);
    state[4] := Add(state[4], e); state[5] := Add(state[5], f);
    state[6] := Add(state[6], g); state[7] := Add(state[7], h);
  }

  // ---- The streaming context ----

  class Context {
    const state: array<word>
    var count: u64
    const buf: array<byte>
    ghost var absorbed: seq<byte>  // every byte passed to Update since Init

    ghost predicate Shape()
    {
      state.Length == 8 && buf.Length == 64
    }

    ghost predicate Valid()
      reads this, state, buf
    {
      && Shape()
      && count == |absorbed| % 0x1_0000_0000_0000_0000
      && state[..] == HashBlocks(Whole(absorbed))
      && buf[..|Tail(absorbed)|] == Tail(absorbed)
    }

    /** A context on the stack: nothing is known about its contents. */
    constructor ()
      ensures Shape() && fresh(state) && fresh(buf)
    {
      state := new word[8];
      buf := new byte[64];
    }

    method Init()
      requires Shape()
      modifies this, state
      ensures Valid() && absorbed == []
    {
      state[0] := 0x6a09e667; state[1] := 0xbb67ae85; state[2] := 0x3c6ef372; state[3] := 0xa54ff53a;
      state[4] := 0x510e527f; state[5] := 0x9b05688c; state[6] := 0x1f83d9ab; state[7] := 0x5be0cd19;
      count := 0;
      absorbed := [];
      assert state[..] == H0;
    }

    method Update(data: seq<byte>)
      requires Valid()
      modifies this, state, buf
      ensures Valid() && absorbed == old(absorbed) + data
    {
      hide HashBlocks, Compress, Whole, Tail;
      var idx := count % 64;
      count := (count + |data|) % 0x1_0000_0000_0000_0000;
      var pos, len := 0, |data|;
      CountModulo64(|absorbed|);
      CountPlus(|absorbed|, |data|);
      assert absorbed + data[..0] == absorbed;
      while len > 0
        invariant 0 <= pos && 0 <= len && pos + len == |data|
        invariant absorbed == old(absorbed) && count == |absorbed + data| % 0x1_0000_0000_0000_0000
        invariant idx == |Tail(absorbed + data[..pos])|
        invariant state[..] == HashBlocks(Whole(absorbed + data[..pos]))
        invariant buf[..idx] == Tail(absorbed + data[..pos])
      {
        var fill := 64 - idx;
        if fill > len {
          fill := len;
        }
        ghost var m, c := absorbed + data[..pos], data[pos..pos + fill];
        assert absorbed + data[..pos + fill] == m + c;
        Copy(buf, idx, data[pos..pos + fill]);
        assert buf[..idx + fill] == Tail(m) + c && state[..] == HashBlocks(Whole(m));
        idx := idx + fill;
        pos := pos + fill;
        len := len - fill;
        if idx == 64 {
          assert buf[..] == Tail(m) + c;
          AbsorbBlock(m, c);
          Transform(state, buf);
          idx := 0;
        } else {
          AbsorbPart(m, c);
        }
      }
      assert data[..pos] == data;
      absorbed := absorbed + data;
    }

    /** Writes the digest to the first 32 bytes of `hash`. The context needs another Init before it is used again. */
    method Finish(hash: array<byte>)
      requires Valid() && hash.Length >= 32 && hash != buf
      modifies this, state, buf, hash
      ensures hash[..32] == Sha256(old(absorbed)) && hash[32..] == old(hash[32..])
    {
      hide HashBlocks, Compress, Whole, Tail, Pad, BigEndian, WordsToBytes;
      ghost var m := absorbed;
      var bits := count * 8 % 0x1_0000_0000_0000_0000;
      var idx := count % 64;
      CountModulo64(|m|);
      CountTimes8(|m|);
      PadFromTail(m);
      ghost var done := Whole(m);
      buf[idx] := 0x80;
      assert buf[..idx + 1] == Tail(m) + [0x80];
      idx := idx + 1;
      if idx > 56 {
        Clear(buf, idx, 64 - idx);
        assert buf[..] == Tail(m) + [0x80] + Zeros(63 - |Tail(m)|);
        HashOneMore(done, buf[..]);
        assert state[..] == HashBlocks(done);
        Transform(state, buf);
        done := done + buf[..];
        assert state[..] == HashBlocks(done);
        idx := 0;
      }
      Clear(buf, idx, 56 - idx);
      assert |Tail(m)| < 56 ==> buf[..56] == Tail(m) + [0x80] + Zeros(55 - |Tail(m)|);
      assert |Tail(m)| >= 56 ==> buf[..56] == Zeros(56);
      PutLength(buf, bits, 8 * |m|);
      assert done + buf[..] == Pad(m) by {
        assert buf[..] == buf[..56] + buf[56..];
      }
      assert state[..] == HashBlocks(done);
      HashOneMore(done, buf[..]);
      Transform(state, buf);
      PutDigest(hash, state);
    }
  }

  /** The bit count, in the last eight bytes of a block. */
  method PutLength(buf: array<byte>, bits: u64, ghost n: nat)
    requires buf.Length == 64 && bits == n % 0x1_0000_0000_0000_0000
    modifies buf
    ensures buf[..56] == old(buf[..56]) && buf[56..] == BigEndian(n, 8)
  {
    hide BigEndian, Put32Be;
    LengthField(n, bits);
    ghost var head := buf[..56];
    PutWord(buf, 56, (bits / 0x1_0000_0000) as word);
    ghost var hi := Put32Be((bits / 0x1_0000_0000) as word);
    assert buf[..60] == head + hi;
    PutWord(buf, 60, (bits % 0x1_0000_0000) as word);
    assert buf[..] == head + (hi + Put32Be((bits % 0x1_0000_0000) as word));
  }

  method PutDigest(hash: array<byte>, state: array<word>)
    requires state.Length == 8 && hash.Length >= 32
    modifies hash
    ensures hash[..32] == WordsToBytes(state[..]) && hash[32..] == old(hash[32..])
  {
    ghost var h := state[..];
    for i := 0 to 8
      invariant state[..] == h
      invariant hash[..4 * i] == WordsToBytes(h[..i]) && hash[32..] == old(hash[32..])
    {
      ghost var done, rest := hash[..4 * i], hash[32..];
      PutWord(hash, i * 4, state[i]);
      assert hash[..4 * i + 4] == done + Put32Be(h[i]);
      assert hash[32..] == rest;
      assert h[..i + 1][..i] == h[..i];
    }
    assert h[..8] == h;
  }

  method PutWord(p: array<byte>, at: nat, v: word)
    requires at + 4 <= p.Length
    modifies p
    ensures p[..] == old(p[..at]) + Put32Be(v) + old(p[at + 4..])
  {
    var n := v as int;
    p[at] := (n / 0x100_0000) as byte;
    p[at + 1] := (n / 0x1_0000 % 0x100) as byte;
    p[at + 2] := (n / 0x100 % 0x100) as byte;
    p[at + 3] := (n % 0x100) as byte;
  }

  /**
   * Any way of cutting a message into chunks gives its FIPS 180-4 digest, whatever a new context
   * happens to hold.
   */
  method DigestOfChunks(chunks: seq<seq<byte>>) returns (digest: seq<byte>)
    ensures digest == Sha256(Concat(chunks))
  {
    hide Sha256, Context.Valid;
    var ctx := new Context();
    ctx.Init();
    for i := 0 to |chunks|
      invariant ctx.Valid() && ctx.absorbed == Concat(chunks[..i])
      invariant fresh(ctx) && fresh(ctx.state) && fresh(ctx.buf)
    {
      ctx.Update(chunks[i]);
      assert chunks[..i + 1][..i] == chunks[..i];
    }
    assert chunks[..|chunks|] == chunks;
    var hash := new byte[32];
    ctx.Finish(hash);
    digest := hash[..];
    assert hash[..] == hash[..32];
  }
}
