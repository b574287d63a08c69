/**
 * The example of the Secure Hash Standard for "abc", a message of one block: every word of its schedule,
 * the working variables after every round, and the digest.
 */
module FipsExample {
  import opened Bytes
  import opened Fips180

  const ABC: seq<byte> := [0x61, 0x62, 0x63]

  type Block = b: seq<byte> | |b| == 64 witness Zeros(64)

  /** The padded message. */
  predicate IsBlock(b: Block)
  {
    b == ABC + [0x80] + Zeros(59) + [24]
  }

  lemma PaddedAbc()
    ensures |Pad(ABC)| == 64 && IsBlock(Pad(ABC))
  {
    LeadingZeros(24, 7);
    assert ZeroCount(3) == 52;
    assert Zeros(52) + Zeros(7) == Zeros(59);
  }

  /** A number below 256 in `k + 1` bytes. */
  lemma LeadingZeros(n: nat, k: nat)
    requires n < 0x100
    ensures BigEndian(n, k + 1) == Zeros(k) + [n as byte]
  {
    ZeroBytes(k);
    assert n / 0x100 == 0;
  }

  lemma {:induction false} ZeroBytes(k: nat)
    ensures BigEndian(0, k) == Zeros(k)
  {
    if k > 0 {
      ZeroBytes(k - 1);
    }
  }

  /** The first sixteen words are those of the block. */
  lemma FirstWords(b: Block, t: nat)
    requires IsBlock(b) && t < 16
    ensures Schedule(b, t) == if t == 0 then 0x61626380 else if t == 15 then 0x18 else 0
  {
    hide Get32Be;
    var s := b[4 * t..4 * t + 4];
    if t == 0 {
      assert s == [0x61, 0x62, 0x63, 0x80];
      FourBytes(0x61, 0x62, 0x63, 0x80);
    } else if t == 15 {
      assert s == [0, 0, 0, 24];
      FourBytes(0, 0, 0, 24);
    } else {
      assert s == [0, 0, 0, 0];
      FourBytes(0, 0, 0, 0);
    }
  }

  lemma FourBytes(a: byte, b: byte, c: byte, d: byte)
    ensures Get32Be([a, b, c, d]) as int == a as int * 0x100_0000 + b as int * 0x1_0000 + c as int * 0x100 + d as int
  {
  }

  lemma AddWrapped(x: word, y: word)
    ensures Add(x, y) as int == (x as int + y as int) % 0x1_0000_0000
  {
  }

  lemma AddOnce(x: nat, y: nat)
    ensures (x % 0x1_0000_0000 + y) % 0x1_0000_0000 == (x + y) % 0x1_0000_0000
  {
  }

  lemma Sum4(a: word, b: word, c: word, d: word)
    ensures Add(Add(Add(a, b), c), d) as int == (a as int + b as int + c as int + d as int) % 0x1_0000_0000
  {
    hide Add;
    AddWrapped(a, b);
    AddWrapped(Add(a, b), c);
    AddWrapped(Add(Add(a, b), c), d);
    AddOnce(a as int + b as int, c as int);
    AddOnce(a as int + b as int + c as int, d as int);
  }

  /** Word `t` from four earlier ones, with the two sums. */
  lemma NextWord(b: Block, t: nat, w2: word, w7: word, w15: word, w16: word, s1: word, s0: word, w: word)
    requires 16 <= t < 64
    requires Schedule(b, t - 2) == w2 && Schedule(b, t - 7) == w7
    requires Schedule(b, t - 15) == w15 && Schedule(b, t - 16) == w16
    requires SSig1(w2) == s1 && SSig0(w15) == s0
    requires w as int == (s1 as int + w7 as int + s0 as int + w16 as int) % 0x1_0000_0000
    ensures Schedule(b, t) == w
  {
    hide SSig1, SSig0, Add;
    Sum4(s1, w7, s0, w16);
  }

  /** The working variables after `t` rounds. */
  predicate After(b: Block, t: nat, v: Vars)
  {
    t <= 64 && Rounds(b, ToVars(H0), t) == v
  }

  /** One more round, with the four function values; only two of the variables are new. */
  lemma NextRound(
    b: Block, t: nat, v: Vars, k: word, w: word, s1: word, c: word, s0: word, m: word, a: word, e: word)
    returns (next: Vars)
    requires t < 64 && After(b, t, v) && K[t] == k && Schedule(b, t) == w
    requires BSig1(v.e) == s1 && Ch(v.e, v.f, v.g) == c && BSig0(v.a) == s0 && Maj(v.a, v.b, v.c) == m
    requires var t1 := v.h as int + s1 as int + c as int + k as int + w as int;
             && a as int == (t1 + s0 as int + m as int) % 0x1_0000_0000
             && e as int == (v.d as int + t1) % 0x1_0000_0000
    ensures next == Vars(a, v.a, v.b, v.c, e, v.e, v.f, v.g) && After(b, t + 1, next)
  {
    next := Vars(a, v.a, v.b, v.c, e, v.e, v.f, v.g);
    hide BSig1, Ch, BSig0, Maj, Add, Schedule, K;
    var t1 := v.h as int + s1 as int + c as int + k as int + w as int;
    var r1 := Add(Add(Add(Add(v.h, s1), c), k), w);
    Sum4(v.h, s1, c, k);
    AddWrapped(Add(Add(Add(v.h, s1), c), k), w);
    AddOnce(t1 - w as int, w as int);
    AddWrapped(v.d, r1);
    AddOnce(t1, v.d as int);
    AddWrapped(s0, m);
    AddWrapped(r1, Add(s0, m));
    AddOnce(t1, Add(s0, m) as int);
    AddOnce(s0 as int + m as int, t1);
  }

  lemma Sums16()
    ensures SSig1(0x00000000) == 0x00000000 && SSig0(0x00000000) == 0x00000000
    ensures SSig1(0x00000018) == 0x000f0000 && SSig0(0x00000000) == 0x00000000
    ensures SSig1(0x61626380) == 0x7da86405 && SSig0(0x00000000) == 0x00000000
    ensures SSig1(0x000f0000) == 0x600003c6 && SSig0(0x00000000) == 0x00000000
    ensures SSig1(0x7da86405) == 0x3e9d7b78 && SSig0(0x00000000) == 0x00000000
    ensures SSig1(0x600003c6) == 0x0183fc00 && SSig0(0x00000000) == 0x00000000
    ensures SSig1(0x3e9d7b78) == 0x12dcbfc3 && SSig0(0x00000000) == 0x00000000
    ensures SSig1(0x0183fc00) == 0x8180600e && SSig0(0x00000000) == 0x00000000
    ensures SSig1(0x12dcbfdb) == 0xc8125c1a && SSig0(0x00000000) == 0x00000000
    ensures SSig1(0xe2e2c38e) == 0x398e159d && SSig0(0x00000000) == 0x00000000
    ensures SSig1(0xc8215c1a) == 0x85bc3543 && SSig0(0x00000000) == 0x00000000
    ensures SSig1(0xb73679a2) == 0xf3c8c0e3 && SSig0(0x00000000) == 0x00000000
  {
  }

  lemma Sums28()
    ensures SSig1(0xe5bc3909) == 0x9b9ca167 && SSig0(0x00000000) == 0x00000000
    ensures SSig1(0x32663c5b) == 0xd9aa66f0 && SSig0(0x00000000) == 0x00000000
    ensures SSig1(0x9d209d67) == 0x5d387513 && SSig0(0x00000018) == 0x30060003
    ensures SSig1(0xec8726cb) == 0x7787aa1a && SSig0(0x61626380) == 0x940e90ef
    ensures SSig1(0x702138a4) == 0xbb5abe5a && SSig0(0x000f0000) == 0xc001fe03
    ensures SSig1(0xd3b7973b) == 0x394e7e48 && SSig0(0x7da86405) == 0x1c4f0322
    ensures SSig1(0x93f5997f) == 0x7fb4c6e2 && SSig0(0x600003c6) == 0x8031987f
    ensures SSig1(0x3b68ba73) == 0x4a7920f7 && SSig0(0x3e9d7b78) == 0xa9709a3e
    ensures SSig1(0xaff4ffc1) == 0xe0331f3b && SSig0(0x0183fc00) == 0xff337818
    ensures SSig1(0xf10a5c62) == 0x65816433 && SSig0(0x12dcbfdb) == 0x9b88ea33
    ensures SSig1(0x0a8b3996) == 0xfbfb66da && SSig0(0xe2e2c38e) == 0xb17a254e
    ensures SSig1(0x72af830a) == 0x31f8dce2 && SSig0(0xc8215c1a) == 0x7b92db33
  {
  }

  lemma Sums40()
    ensures SSig1(0x9409e33e) == 0xcddd9afd && SSig0(0xb73679a2) == 0xcde00e0a
    ensures SSig1(0x24641522) == 0x883c4fbb && SSig0(0xe5bc3909) == 0x013e863c
    ensures SSig1(0x9f47bf94) == 0x281f0da4 && SSig0(0x32663c5b) == 0x3f3ec76a
    ensures SSig1(0xf0a64f5a) == 0xee7a0fd4 && SSig0(0x9d209d67) == 0xfbc7b5de
    ensures SSig1(0x3e246a79) == 0xb87c31cc && SSig0(0xec8726cb) == 0x43fb11b5
    ensures SSig1(0x27333ba3) == 0xfaac3bb1 && SSig0(0x702138a4) == 0x08cd796d
    ensures SSig1(0x0c4763f2) == 0x5d845673 && SSig0(0xd3b7973b) == 0x881f6924
    ensures SSig1(0x840abf27) == 0x0856302b && SSig0(0x93f5997f) == 0x8b06bce0
    ensures SSig1(0x7a290d5d) == 0xa71b9812 && SSig0(0x3b68ba73) == 0xcf8708e0
    ensures SSig1(0x065c43da) == 0xa997d4f5 && SSig0(0xaff4ffc1) == 0xa9511dfa
    ensures SSig1(0xfb3e89cb) == 0x95e24d5a && SSig0(0xf10a5c62) == 0x4cdbe376
    ensures SSig1(0xcc7617db) == 0xc9258230 && SSig0(0x0a8b3996) == 0xe321f3e3
  {
  }

  lemma Sums52()
    ensures SSig1(0xb9e66c34) == 0xfbb2b254 && SSig0(0x72af830a) == 0xfa7233cc
    ensures SSig1(0xa9993667) == 0xbdd547b2 && SSig0(0x9409e33e) == 0x17668aa3
    ensures SSig1(0x84badedd) == 0x34945c7d && SSig0(0x24641522) == 0x458cc397
    ensures SSig1(0xc21462bc) == 0xbd397c50 && SSig0(0x9f47bf94) == 0xd5335f5c
    ensures SSig1(0x1487472c) == 0x4b76a902 && SSig0(0xf0a64f5a) == 0x3823395c
    ensures SSig1(0xb20f7a99) == 0x52336c98 && SSig0(0x3e246a79) == 0xef268a12
    ensures SSig1(0xef57b9cd) == 0x2be49faf && SSig0(0x27333ba3) == 0x8c40c8cf
    ensures SSig1(0xebe6b238) == 0x8f619123 && SSig0(0x0c4763f2) == 0x3d6ce1a8
    ensures SSig1(0x9fe3095e) == 0xe5a364cf && SSig0(0x840abf27) == 0xf040a398
    ensures SSig1(0x78bc8d4b) == 0xd712fc6a && SSig0(0x7a290d5d) == 0xf6e62d3b
    ensures SSig1(0xa43fcf15) == 0x1e41696b && SSig0(0x065c43da) == 0xa431b16b
    ensures SSig1(0x668b2ff8) == 0xf21a9d5f && SSig0(0xfb3e89cb) == 0x2ae352e5
  {
  }

  lemma Words16(b: Block)
    requires IsBlock(b)
    ensures && Schedule(b, 16) == 0x61626380 && Schedule(b, 17) == 0x000f0000 && Schedule(b, 18) == 0x7da86405
            && Schedule(b, 19) == 0x600003c6 && Schedule(b, 20) == 0x3e9d7b78 && Schedule(b, 21) == 0x0183fc00
  {
    hide Schedule, IsBlock, SSig0, SSig1;
    Sums16();
    forall t | 0 <= t < 16 { FirstWords(b, t); }
    NextWord(b, 16, 0x00000000, 0x00000000, 0x00000000, 0x61626380, 0x00000000, 0x00000000, 0x61626380);
    NextWord(b, 17, 0x00000018, 0x00000000, 0x00000000, 0x00000000, 0x000f0000, 0x00000000, 0x000f0000);
    NextWord(b, 18, 0x61626380, 0x00000000, 0x00000000, 0x00000000, 0x7da86405, 0x00000000, 0x7da86405);
    NextWord(b, 19, 0x000f0000, 0x00000000, 0x00000000, 0x00000000, 0x600003c6, 0x00000000, 0x600003c6);
    NextWord(b, 20, 0x7da86405, 0x00000000, 0x00000000, 0x00000000, 0x3e9d7b78, 0x00000000, 0x3e9d7b78);
    NextWord(b, 21, 0x600003c6, 0x00000000, 0x00000000, 0x00000000, 0x0183fc00, 0x00000000, 0x0183fc00);
  }

  lemma Words22(b: Block)
    requires IsBlock(b)
    ensures && Schedule(b, 22) == 0x12dcbfdb && Schedule(b, 23) == 0xe2e2c38e && Schedule(b, 24) == 0xc8215c1a
            && Schedule(b, 25) == 0xb73679a2 && Schedule(b, 26) == 0xe5bc3909 && Schedule(b, 27) == 0x32663c5b
  {
    hide Schedule, IsBlock, SSig0, SSig1;
    Sums16();
    forall t | 0 <= t < 16 { FirstWords(b, t); }
    Words16(b);
    NextWord(b, 22, 0x3e9d7b78, 0x00000018, 0x00000000, 0x00000000, 0x12dcbfc3, 0x00000000, 0x12dcbfdb);
    NextWord(b, 23, 0x0183fc00, 0x61626380, 0x00000000, 0x00000000, 0x8180600e, 0x00000000, 0xe2e2c38e);
    NextWord(b, 24, 0x12dcbfdb, 0x000f0000, 0x00000000, 0x00000000, 0xc8125c1a, 0x00000000, 0xc8215c1a);
    NextWord(b, 25, 0xe2e2c38e, 0x7da86405, 0x00000000, 0x00000000, 0x398e159d, 0x00000000, 0xb73679a2);
    NextWord(b, 26, 0xc8215c1a, 0x600003c6, 0x00000000, 0x00000000, 0x85bc3543, 0x00000000, 0xe5bc3909);
    NextWord(b, 27, 0xb73679a2, 0x3e9d7b78, 0x00000000, 0x00000000, 0xf3c8c0e3, 0x00000000, 0x32663c5b);
  }

  lemma Words28(b: Block)
    requires IsBlock(b)
    ensures && Schedule(b, 28) == 0x9d209d67 && Schedule(b, 29) == 0xec8726cb && Schedule(b, 30) == 0x702138a4
            && Schedule(b, 31) == 0xd3b7973b && Schedule(b, 32) == 0x93f5997f && Schedule(b, 33) == 0x3b68ba73
  {
    hide Schedule, IsBlock, SSig0, SSig1;
    Sums28();
    forall t | 0 <= t < 16 { FirstWords(b, t); }
    Words16(b); Words22(b);
    NextWord(b, 28, 0xe5bc3909, 0x0183fc00, 0x00000000, 0x00000000, 0x9b9ca167, 0x00000000, 0x9d209d67);
    NextWord(b, 29, 0x32663c5b, 0x12dcbfdb, 0x00000000, 0x00000000, 0xd9aa66f0, 0x00000000, 0xec8726cb);
    NextWord(b, 30, 0x9d209d67, 0xe2e2c38e, 0x00000018, 0x00000000, 0x5d387513, 0x30060003, 0x702138a4);
    NextWord(b, 31, 0xec8726cb, 0xc8215c1a, 0x61626380, 0x00000018, 0x7787aa1a, 0x940e90ef, 0xd3b7973b);
    NextWord(b, 32, 0x702138a4, 0xb73679a2, 0x000f0000, 0x61626380, 0xbb5abe5a, 0xc001fe03, 0x93f5997f);
    NextWord(b, 33, 0xd3b7973b, 0xe5bc3909, 0x7da86405, 0x000f0000, 0x394e7e48, 0x1c4f0322, 0x3b68ba73);
  }

  lemma Words34(b: Block)
    requires IsBlock(b)
    ensures && Schedule(b, 34) == 0xaff4ffc1 && Schedule(b, 35) == 0xf10a5c62 && Schedule(b, 36) == 0x0a8b3996
            && Schedule(b, 37) == 0x72af830a && Schedule(b, 38) == 0x9409e33e && Schedule(b, 39) == 0x24641522
  {
    hide Schedule, IsBlock, SSig0, SSig1;
    Sums28();
    Words16(b); Words22(b); Words28(b);
    NextWord(b, 34, 0x93f5997f, 0x32663c5b, 0x600003c6, 0x7da86405, 0x7fb4c6e2, 0x8031987f, 0xaff4ffc1);
    NextWord(b, 35, 0x3b68ba73, 0x9d209d67, 0x3e9d7b78, 0x600003c6, 0x4a7920f7, 0xa9709a3e, 0xf10a5c62);
    NextWord(b, 36, 0xaff4ffc1, 0xec8726cb, 0x0183fc00, 0x3e9d7b78, 0xe0331f3b, 0xff337818, 0x0a8b3996);
    NextWord(b, 37, 0xf10a5c62, 0x702138a4, 0x12dcbfdb, 0x0183fc00, 0x65816433, 0x9b88ea33, 0x72af830a);
    NextWord(b, 38, 0x0a8b3996, 0xd3b7973b, 0xe2e2c38e, 0x12dcbfdb, 0xfbfb66da, 0xb17a254e, 0x9409e33e);
    NextWord(b, 39, 0x72af830a, 0x93f5997f, 0xc8215c1a, 0xe2e2c38e, 0x31f8dce2, 0x7b92db33, 0x24641522);
  }

  lemma Words40(b: Block)
    requires IsBlock(b)
    ensures && Schedule(b, 40) == 0x9f47bf94 && Schedule(b, 41) == 0xf0a64f5a && Schedule(b, 42) == 0x3e246a79
            && Schedule(b, 43) == 0x27333ba3 && Schedule(b, 44) == 0x0c4763f2 && Schedule(b, 45) == 0x840abf27
  {
    hide Schedule, IsBlock, SSig0, SSig1;
    Sums40();
    Words22(b); Words28(b); Words34(b);
    NextWord(b, 40, 0x9409e33e, 0x3b68ba73, 0xb73679a2, 0xc8215c1a, 0xcddd9afd, 0xcde00e0a, 0x9f47bf94);
    NextWord(b, 41, 0x24641522, 0xaff4ffc1, 0xe5bc3909, 0xb73679a2, 0x883c4fbb, 0x013e863c, 0xf0a64f5a);
    NextWord(b, 42, 0x9f47bf94, 0xf10a5c62, 0x32663c5b, 0xe5bc3909, 0x281f0da4, 0x3f3ec76a, 0x3e246a79);
    NextWord(b, 43, 0xf0a64f5a, 0x0a8b3996, 0x9d209d67, 0x32663c5b, 0xee7a0fd4, 0xfbc7b5de, 0x27333ba3);
    NextWord(b, 44, 0x3e246a79, 0x72af830a, 0xec8726cb, 0x9d209d67, 0xb87c31cc, 0x43fb11b5, 0x0c4763f2);
    NextWord(b, 45, 0x27333ba3, 0x9409e33e, 0x702138a4, 0xec8726cb, 0xfaac3bb1, 0x08cd796d, 0x840abf27);
  }

  lemma Words46(b: Block)
    requires IsBlock(b)
    ensures && Schedule(b, 46) == 0x7a290d5d && Schedule(b, 47) == 0x065c43da && Schedule(b, 48) == 0xfb3e89cb
            && Schedule(b, 49) == 0xcc7617db && Schedule(b, 50) == 0xb9e66c34 && Schedule(b, 51) == 0xa9993667
  {
    hide Schedule, IsBlock, SSig0, SSig1;
    Sums40();
    Words28(b); Words34(b); Words40(b);
    NextWord(b, 46, 0x0c4763f2, 0x24641522, 0xd3b7973b, 0x702138a4, 0x5d845673, 0x881f6924, 0x7a290d5d);
    NextWord(b, 47, 0x840abf27, 0x9f47bf94, 0x93f5997f, 0xd3b7973b, 0x0856302b, 0x8b06bce0, 0x065c43da);
    NextWord(b, 48, 0x7a290d5d, 0xf0a64f5a, 0x3b68ba73, 0x93f5997f, 0xa71b9812, 0xcf8708e0, 0xfb3e89cb);
    NextWord(b, 49, 0x065c43da, 0x3e246a79, 0xaff4ffc1, 0x3b68ba73, 0xa997d4f5, 0xa9511dfa, 0xcc7617db);
    NextWord(b, 50, 0xfb3e89cb, 0x27333ba3, 0xf10a5c62, 0xaff4ffc1, 0x95e24d5a, 0x4cdbe376, 0xb9e66c34);
    NextWord(b, 51, 0xcc7617db, 0x0c4763f2, 0x0a8b3996, 0xf10a5c62, 0xc9258230, 0xe321f3e3, 0xa9993667);
  }

  lemma Words52(b: Block)
    requires IsBlock(b)
    ensures && Schedule(b, 52) == 0x84badedd && Schedule(b, 53) == 0xc21462bc && Schedule(b, 54) == 0x1487472c
            && Schedule(b, 55) == 0xb20f7a99 && Schedule(b, 56) == 0xef57b9cd && Schedule(b, 57) == 0xebe6b238
  {
    hide Schedule, IsBlock, SSig0, SSig1;
    Sums52();
    Words34(b); Words40(b); Words46(b);
    NextWord(b, 52, 0xb9e66c34, 0x840abf27, 0x72af830a, 0x0a8b3996, 0xfbb2b254, 0xfa7233cc, 0x84badedd);
    NextWord(b, 53, 0xa9993667, 0x7a290d5d, 0x9409e33e, 0x72af830a, 0xbdd547b2, 0x17668aa3, 0xc21462bc);
    NextWord(b, 54, 0x84badedd, 0x065c43da, 0x24641522, 0x9409e33e, 0x34945c7d, 0x458cc397, 0x1487472c);
    NextWord(b, 55, 0xc21462bc, 0xfb3e89cb, 0x9f47bf94, 0x24641522, 0xbd397c50, 0xd5335f5c, 0xb20f7a99);
    NextWord(b, 56, 0x1487472c, 0xcc7617db, 0xf0a64f5a, 0x9f47bf94, 0x4b76a902, 0x3823395c, 0xef57b9cd);
    NextWord(b, 57, 0xb20f7a99, 0xb9e66c34, 0x3e246a79, 0xf0a64f5a, 0x52336c98, 0xef268a12, 0xebe6b238);
  }

  lemma Words58(b: Block)
    requires IsBlock(b)
    ensures && Schedule(b, 58) == 0x9fe3095e && Schedule(b, 59) == 0x78bc8d4b && Schedule(b, 60) == 0xa43fcf15
            && Schedule(b, 61) == 0x668b2ff8 && Schedule(b, 62) == 0xeeaba2cc && Schedule(b, 63) == 0x12b1edeb
  {
    hide Schedule, IsBlock, SSig0, SSig1;
    Sums52();
    Words40(b); Words46(b); Words52(b);
    NextWord(b, 58, 0xef57b9cd, 0xa9993667, 0x27333ba3, 0x3e246a79, 0x2be49faf, 0x8c40c8cf, 0x9fe3095e);
    NextWord(b, 59, 0xebe6b238, 0x84badedd, 0x0c4763f2, 0x27333ba3, 0x8f619123, 0x3d6ce1a8, 0x78bc8d4b);
    NextWord(b, 60, 0x9fe3095e, 0xc21462bc, 0x840abf27, 0x0c4763f2, 0xe5a364cf, 0xf040a398, 0xa43fcf15);
    NextWord(b, 61, 0x78bc8d4b, 0x1487472c, 0x7a290d5d, 0x840abf27, 0xd712fc6a, 0xf6e62d3b, 0x668b2ff8);
    NextWord(b, 62, 0xa43fcf15, 0xb20f7a99, 0x065c43da, 0x7a290d5d, 0x1e41696b, 0xa431b16b, 0xeeaba2cc);
    NextWord(b, 63, 0x668b2ff8, 0xef57b9cd, 0xfb3e89cb, 0x065c43da, 0xf21a9d5f, 0x2ae352e5, 0x12b1edeb);
  }

  lemma Constants0()
    ensures && K[0] == 0x428a2f98 && K[1] == 0x71374491 && K[2] == 0xb5c0fbcf && K[3] == 0xe9b5dba5
            && K[4] == 0x3956c25b && K[5] == 0x59f111f1 && K[6] == 0x923f82a4 && K[7] == 0xab1c5ed5
  {
  }

  lemma Constants8()
    ensures && K[8] == 0xd807aa98 && K[9] == 0x12835b01 && K[10] == 0x243185be && K[11] == 0x550c7dc3
            && K[12] == 0x72be5d74 && K[13] == 0x80deb1fe && K[14] == 0x9bdc06a7 && K[15] == 0xc19bf174
  {
  }

  lemma Constants16()
    ensures && K[16] == 0xe49b69c1 && K[17] == 0xefbe4786 && K[18] == 0x0fc19dc6 && K[19] == 0x240ca1cc
            && K[20] == 0x2de92c6f && K[21] == 0x4a7484aa && K[22] == 0x5cb0a9dc && K[23] == 0x76f988da
  {
  }

  lemma Constants24()
    ensures && K[24] == 0x983e5152 && K[25] == 0xa831c66d && K[26] == 0xb00327c8 && K[27] == 0xbf597fc7
            && K[28] == 0xc6e00bf3 && K[29] == 0xd5a79147 && K[30] == 0x06ca6351 && K[31] == 0x14292967
  {
  }

  lemma Constants32()
    ensures && K[32] == 0x27b70a85 && K[33] == 0x2e1b2138 && K[34] == 0x4d2c6dfc && K[35] == 0x53380d13
            && K[36] == 0x650a7354 && K[37] == 0x766a0abb && K[38] == 0x81c2c92e && K[39] == 0x92722c85
  {
  }

  lemma Constants40()
    ensures && K[40] == 0xa2bfe8a1 && K[41] == 0xa81a664b && K[42] == 0xc24b8b70 && K[43] == 0xc76c51a3
            && K[44] == 0xd192e819 && K[45] == 0xd6990624 && K[46] == 0xf40e3585 && K[47] == 0x106aa070
  {
  }

  lemma Constants48()
    ensures && K[48] == 0x19a4c116 && K[49] == 0x1e376c08 && K[50] == 0x2748774c && K[51] == 0x34b0bcb5
            && K[52] == 0x391c0cb3 && K[53] == 0x4ed8aa4a && K[54] == 0x5b9cca4f && K[55] == 0x682e6ff3
  {
  }

  lemma Constants56()
    ensures && K[56] == 0x748f82ee && K[57] == 0x78a5636f && K[58] == 0x84c87814 && K[59] == 0x8cc70208
            && K[60] == 0x90befffa && K[61] == 0xa4506ceb && K[62] == 0xbef9a3f7 && K[63] == 0xc67178f2
  {
  }

  lemma Values0()
    ensures BSig1(0x510e527f) == 0x3587272b && Ch(0x510e527f, 0x9b05688c, 0x1f83d9ab) == 0x1f85c98c
    ensures BSig0(0x6a09e667) == 0xce20b47e && Maj(0x6a09e667, 0xbb67ae85, 0x3c6ef372) == 0x3a6fe667
    ensures BSig1(0xfa2a4622) == 0x5a94fd2d && Ch(0xfa2a4622, 0x510e527f, 0x9b05688c) == 0x510f6aae
    ensures BSig0(0x5d6aebcd) == 0xa29f64d1 && Maj(0x5d6aebcd, 0x6a09e667, 0xbb67ae85) == 0x7b6beec5
    ensures BSig1(0x78ce7989) == 0x73f0e495 && Ch(0x78ce7989, 0xfa2a4622, 0x510e527f) == 0x790a4276
    ensures BSig0(0x5a6ad9ad) == 0x3096d054 && Maj(0x5a6ad9ad, 0x5d6aebcd, 0x6a09e667) == 0x5a6aebed
    ensures BSig1(0xf92939eb) == 0x0607743c && Ch(0xf92939eb, 0x78ce7989, 0xfa2a4622) == 0x7a0a7f89
    ensures BSig0(0xc8c347a7) == 0xc21008d0 && Maj(0xc8c347a7, 0x5a6ad9ad, 0x5d6aebcd) == 0x586acbad
    ensures BSig1(0x24e00850) == 0x3a933432 && Ch(0x24e00850, 0xf92939eb, 0x78ce7989) == 0x782e79c9
    ensures BSig0(0xd550f666) == 0x45bb0c4b && Maj(0xd550f666, 0xc8c347a7, 0x5a6ad9ad) == 0xd842d7a7
    ensures BSig1(0x43ada245) == 0x8b77e19c && Ch(0x43ada245, 0x24e00850, 0xf92939eb) == 0xb8a019ea
    ensures BSig0(0x04409a6a) == 0x5029ac8f && Maj(0x04409a6a, 0xd550f666, 0xc8c347a7) == 0xc440d666
    ensures BSig1(0x714260ad) == 0x015b7776 && Ch(0x714260ad, 0x43ada245, 0x24e00850) == 0x45a02855
    ensures BSig0(0x2b4209f5) == 0x0d5e0cc0 && Maj(0x2b4209f5, 0x04409a6a, 0xd550f666) == 0x05409a66
    ensures BSig1(0x9b27a401) == 0x158dfaa9 && Ch(0x9b27a401, 0x714260ad, 0x43ada245) == 0x518a2245
    ensures BSig0(0xe5030380) == 0x2949eb6c && Maj(0xe5030380, 0x2b4209f5, 0x04409a6a) == 0x25420be0
  {
  }

  lemma Values8()
    ensures BSig1(0x0c657a79) == 0x99ad25c0 && Ch(0x0c657a79, 0x9b27a401, 0x714260ad) == 0x79272085
    ensures BSig0(0x85a07b5f) == 0xba794dc2 && Maj(0x85a07b5f, 0xe5030380, 0x2b4209f5) == 0xa5020bd5
    ensures BSig1(0x32ca2d8c) == 0xe45bb7ea && Ch(0x32ca2d8c, 0x0c657a79, 0x9b27a401) == 0x8965a809
    ensures BSig0(0x8e04ecb9) == 0x15ffad31 && Maj(0x8e04ecb9, 0x85a07b5f, 0xe5030380) == 0x85006b99
    ensures BSig1(0x1cc92596) == 0x8e2276bc && Ch(0x1cc92596, 0x32ca2d8c, 0x0c657a79) == 0x10ec7fed
    ensures BSig0(0x8c87346b) == 0x5cac0711 && Maj(0x8c87346b, 0x8e04ecb9, 0x85a07b5f) == 0x8c847c7b
    ensures BSig1(0x436b23e8) == 0x699435ca && Ch(0x436b23e8, 0x1cc92596, 0x32ca2d8c) == 0x30c92d84
    ensures BSig0(0x4798a3f4) == 0x6ccbc526 && Maj(0x4798a3f4, 0x8c87346b, 0x8e04ecb9) == 0x8e84a4f9
    ensures BSig1(0x816fd6e9) == 0xccdee661 && Ch(0x816fd6e9, 0x436b23e8, 0x1cc92596) == 0x1deb23fe
    ensures BSig0(0xf71fc5a9) == 0x2f9eee48 && Maj(0xf71fc5a9, 0x4798a3f4, 0x8c87346b) == 0xc79fa5e9
    ensures BSig1(0x1e578218) == 0x08bb98f7 && Ch(0x1e578218, 0x816fd6e9, 0x436b23e8) == 0x416fa3e8
    ensures BSig0(0x87912990) == 0x29c634f3 && Maj(0x87912990, 0xf71fc5a9, 0x4798a3f4) == 0xc799a1b0
    ensures BSig1(0x745a48de) == 0x4f3b8d50 && Ch(0x745a48de, 0x1e578218, 0x816fd6e9) == 0x95779639
    ensures BSig0(0xd932eb16) == 0x25562836 && Maj(0xd932eb16, 0x87912990, 0xf71fc5a9) == 0xd713e990
    ensures BSig1(0x0b92f20c) == 0xb8d63f93 && Ch(0x0b92f20c, 0x745a48de, 0x1e578218) == 0x1457401c
    ensures BSig0(0xc0645fde) == 0xdf906fd4 && Maj(0xc0645fde, 0xd932eb16, 0x87912990) == 0xc1306b96
  {
  }

  lemma Values16()
    ensures BSig1(0x07590dcd) == 0x213b6995 && Ch(0x07590dcd, 0x0b92f20c, 0x745a48de) == 0x7312401e
    ensures BSig0(0xb0fa238e) == 0x58c535f1 && Maj(0xb0fa238e, 0xc0645fde, 0xd932eb16) == 0xd0726b9e
    ensures BSig1(0x8034229c) == 0x3b81984e && Ch(0x8034229c, 0x07590dcd, 0x0b92f20c) == 0x0b92d08c
    ensures BSig0(0x21da9a9b) == 0x76c5c4f5 && Maj(0x21da9a9b, 0xb0fa238e, 0xc0645fde) == 0xa0fa1b9e
    ensures BSig1(0x846ee454) == 0xeff31c0f && Ch(0x846ee454, 0x8034229c, 0x07590dcd) == 0x8335299d
    ensures BSig0(0xc2fbd9d1) == 0x5157a6a1 && Maj(0xc2fbd9d1, 0x21da9a9b, 0xb0fa238e) == 0xa0fa9b9b
    ensures BSig1(0xcc899961) == 0xefc707b0 && Ch(0xcc899961, 0x846ee454, 0x8034229c) == 0x843ca2dc
    ensures BSig0(0xfe777bbf) == 0xff8cd2ad && Maj(0xfe777bbf, 0xc2fbd9d1, 0x21da9a9b) == 0xe2fbdb9b
    ensures BSig1(0xb0638179) == 0xf8373ead && Ch(0xb0638179, 0xcc899961, 0x846ee454) == 0x840de565
    ensures BSig0(0xe1f20c33) == 0x51d3431b && Maj(0xe1f20c33, 0xfe777bbf, 0xc2fbd9d1) == 0xe2f359b3
    ensures BSig1(0x8ada8930) == 0x897ea930 && Ch(0x8ada8930, 0xb0638179, 0xcc899961) == 0xc4439171
    ensures BSig0(0x9dc68b63) == 0xa640c29b && Maj(0x9dc68b63, 0xe1f20c33, 0xfe777bbf) == 0xfdf60b33
    ensures BSig1(0xe1257970) == 0x7f24093a && Ch(0xe1257970, 0x8ada8930, 0xb0638179) == 0x90428939
    ensures BSig0(0xc2606d6d) == 0x9a43bf51 && Maj(0xc2606d6d, 0x9dc68b63, 0xe1f20c33) == 0xc1e20d63
    ensures BSig1(0x49f5114a) == 0xfae64fc3 && Ch(0x49f5114a, 0xe1257970, 0x8ada8930) == 0xc32f9970
    ensures BSig0(0xa7a3623f) == 0x759d1b0a && Maj(0xa7a3623f, 0xc2606d6d, 0x9dc68b63) == 0x87e26b6f
  {
  }

  lemma Values24()
    ensures BSig1(0xaa47c347) == 0x55bdf420 && Ch(0xaa47c347, 0x49f5114a, 0xe1257970) == 0x49653972
    ensures BSig0(0xc5d53d8d) == 0xc9ed56dd && Maj(0xc5d53d8d, 0xa7a3623f, 0xc2606d6d) == 0xc7e16d2d
    ensures BSig1(0x2823ef91) == 0xa7724357 && Ch(0x2823ef91, 0xaa47c347, 0x49f5114a) == 0x69d7d34b
    ensures BSig0(0x1c2c2838) == 0xf66b0b1f && Maj(0x1c2c2838, 0xc5d53d8d, 0xa7a3623f) == 0x85a5283d
    ensures BSig1(0x14383d8e) == 0x958ca0fb && Ch(0x14383d8e, 0x2823ef91, 0xaa47c347) == 0xaa67efc1
    ensures BSig0(0xcde8037d) == 0xc89998a8 && Maj(0xcde8037d, 0x1c2c2838, 0xc5d53d8d) == 0xcdec293d
    ensures BSig1(0xc74c6516) == 0x5ff7537b && Ch(0xc74c6516, 0x14383d8e, 0x2823ef91) == 0x2c2baf87
    ensures BSig0(0xb62ec4bc) == 0xb37cf281 && Maj(0xb62ec4bc, 0xcde8037d, 0x1c2c2838) == 0x9c2c003c
    ensures BSig1(0xedffbff8) == 0xe375bd7e && Ch(0xedffbff8, 0xc74c6516, 0x14383d8e) == 0xd54c2516
    ensures BSig0(0x77d37528) == 0xf963c20e && Maj(0x77d37528, 0xb62ec4bc, 0xcde8037d) == 0xf7ea453c
    ensures BSig1(0x6112a3b7) == 0x2239b36a && Ch(0x6112a3b7, 0xedffbff8, 0xc74c6516) == 0xe75ee7b0
    ensures BSig0(0x363482c9) == 0x89cfb5ce && Maj(0x363482c9, 0x77d37528, 0xb62ec4bc) == 0x3636c4a8
    ensures BSig1(0xade79437) == 0xab883974 && Ch(0xade79437, 0x6112a3b7, 0xedffbff8) == 0x611aabff
    ensures BSig0(0xa0060b30) == 0x69a8407c && Maj(0xa0060b30, 0x363482c9, 0x77d37528) == 0x36160328
    ensures BSig1(0x0109ab3a) == 0x0b919a99 && Ch(0x0109ab3a, 0xade79437, 0x6112a3b7) == 0x611380b7
    ensures BSig0(0xea992a22) == 0x8f1995eb && Maj(0xea992a22, 0xa0060b30, 0x363482c9) == 0xa2140a20
  {
  }

  lemma Values32()
    ensures BSig1(0xba591112) == 0x4436a63b && Ch(0xba591112, 0x0109ab3a, 0xade79437) == 0x05af8537
    ensures BSig0(0x73b33bf5) == 0x4fa886aa && Maj(0x73b33bf5, 0xea992a22, 0xa0060b30) == 0xe2932b30
    ensures BSig1(0x9cd9f5f6) == 0x085a07a7 && Ch(0x9cd9f5f6, 0xba591112, 0x0109ab3a) == 0x99591b1a
    ensures BSig0(0x98e12507) == 0x4a90902b && Maj(0x98e12507, 0x73b33bf5, 0xea992a22) == 0xfab12b27
    ensures BSig1(0x59249dd3) == 0x65415f48 && Ch(0x59249dd3, 0x9cd9f5f6, 0xba591112) == 0xba5995d2
    ensures BSig0(0xfe604df5) == 0x91003786 && Maj(0xfe604df5, 0x98e12507, 0x73b33bf5) == 0xfae12df5
    ensures BSig1(0x085f3833) == 0xe5dc6e83 && Ch(0x085f3833, 0x59249dd3, 0x9cd9f5f6) == 0x9c84ddd7
    ensures BSig0(0xa9a7738c) == 0x2bc2a37e && Maj(0xa9a7738c, 0xfe604df5, 0x98e12507) == 0xb8e16585
    ensures BSig1(0xf4b002d6) == 0x590d3d71 && Ch(0xf4b002d6, 0x085f3833, 0x59249dd3) == 0x09149d13
    ensures BSig0(0x65a0cfe4) == 0xe5748f69 && Maj(0x65a0cfe4, 0xa9a7738c, 0xfe604df5) == 0xeda04fe4
    ensures BSig1(0x0772a26b) == 0x582c115e && Ch(0x0772a26b, 0xf4b002d6, 0x085f3833) == 0x0c3d1a52
    ensures BSig0(0x41a65cb1) == 0x2c915f18 && Maj(0x41a65cb1, 0x65a0cfe4, 0xa9a7738c) == 0x61a65fa4
    ensures BSig1(0xa507a53d) == 0xd2f220b2 && Ch(0xa507a53d, 0x0772a26b, 0xf4b002d6) == 0x55b2a2eb
    ensures BSig0(0x34df1604) == 0xc14e73aa && Maj(0x34df1604, 0x41a65cb1, 0x65a0cfe4) == 0x65a65ea4
    ensures BSig1(0xf0781bc8) == 0x66d20b14 && Ch(0xf0781bc8, 0xa507a53d, 0x0772a26b) == 0xa702a12b
    ensures BSig0(0x6dc57a8a) == 0x5ac8193e && Maj(0x6dc57a8a, 0x34df1604, 0x41a65cb1) == 0x65c75e80
  {
  }

  lemma Values40()
    ensures BSig1(0x1efbc0a0) == 0xe9986075 && Ch(0x1efbc0a0, 0xf0781bc8, 0xa507a53d) == 0xb17c259d
    ensures BSig0(0x79ea687a) == 0x7408bcaa && Maj(0x79ea687a, 0x6dc57a8a, 0x34df1604) == 0x7dcf7a0a
    ensures BSig1(0x26352d63) == 0x3a6aa383 && Ch(0x26352d63, 0x1efbc0a0, 0xf0781bc8) == 0xd67912a8
    ensures BSig0(0xd6670766) == 0x12b2e9b8 && Maj(0xd6670766, 0x79ea687a, 0x6dc57a8a) == 0x7de76a6a
    ensures BSig1(0x838b2711) == 0x61add539 && Ch(0x838b2711, 0x26352d63, 0x1efbc0a0) == 0x1e71e5a1
    ensures BSig0(0xdf46652f) == 0xc73bdc05 && Maj(0xdf46652f, 0xd6670766, 0x79ea687a) == 0xdf66656e
    ensures BSig1(0xdecd4715) == 0xd363665b && Ch(0xdecd4715, 0x838b2711, 0x26352d63) == 0xa2b92f73
    ensures BSig0(0x17aa0dfe) == 0x422dc671 && Maj(0x17aa0dfe, 0xdf46652f, 0xd6670766) == 0xd766056e
    ensures BSig1(0xfda24c2e) == 0xef0f2a07 && Ch(0xfda24c2e, 0xdecd4715, 0x838b2711) == 0xde896715
    ensures BSig0(0x9d4baf93) == 0xb5704fcc && Maj(0x9d4baf93, 0x17aa0dfe, 0xdf46652f) == 0x9f4a2dbf
    ensures BSig1(0xa80f11f0) == 0xfb3dc5f1 && Ch(0xa80f11f0, 0xfda24c2e, 0xdecd4715) == 0xfec24625
    ensures BSig0(0x26628815) == 0x8311c588 && Maj(0x26628815, 0x9d4baf93, 0x17aa0dfe) == 0x176a8d97
    ensures BSig1(0xb7755da1) == 0x8845eb06 && Ch(0xb7755da1, 0xa80f11f0, 0xfda24c2e) == 0xe88711ae
    ensures BSig0(0x72ab4b91) == 0xad0f0274 && Maj(0x72ab4b91, 0x26628815, 0x9d4baf93) == 0x366b8b91
    ensures BSig1(0xd57b94a9) == 0x8fa515ca && Ch(0xd57b94a9, 0xb7755da1, 0xa80f11f0) == 0xbd7515f1
    ensures BSig0(0xa14c14b0) == 0xbd84cdc9 && Maj(0xa14c14b0, 0x72ab4b91, 0x26628815) == 0x226a0891
  {
  }

  lemma Values48()
    ensures BSig1(0xfecf0bc6) == 0x04a106b1 && Ch(0xfecf0bc6, 0xd57b94a9, 0xb7755da1) == 0xd57b54a1
    ensures BSig0(0x4172328d) == 0x0cfcb237 && Maj(0x4172328d, 0xa14c14b0, 0x72ab4b91) == 0x616a1291
    ensures BSig1(0xbd714038) == 0x5d427776 && Ch(0xbd714038, 0xfecf0bc6, 0xd57b94a9) == 0xfc4b9481
    ensures BSig0(0x05757ceb) == 0xf3f6d884 && Maj(0x05757ceb, 0x4172328d, 0xa14c14b0) == 0x017434a9
    ensures BSig1(0x6e5c390c) == 0x3e283d54 && Ch(0x6e5c390c, 0xbd714038, 0xfecf0bc6) == 0xbcd302ca
    ensures BSig0(0xf11bfaa8) == 0x86ebd5b1 && Maj(0xf11bfaa8, 0x05757ceb, 0x4172328d) == 0x41737aa9
    ensures BSig1(0x52f1ccf7) == 0x3b47e2a3 && Ch(0x52f1ccf7, 0x6e5c390c, 0xbd714038) == 0xef50080c
    ensures BSig0(0x7a0508a1) == 0x0fa817e8 && Maj(0x7a0508a1, 0xf11bfaa8, 0x05757ceb) == 0x711578a9
    ensures BSig1(0x49231c1e) == 0x6b63a737 && Ch(0x49231c1e, 0x52f1ccf7, 0x6e5c390c) == 0x667d2d16
    ensures BSig0(0x886e7a22) == 0xcae757da && Maj(0x886e7a22, 0x7a0508a1, 0xf11bfaa8) == 0xf80f7aa0
    ensures BSig1(0x529e7d00) == 0xee7eaa12 && Ch(0x529e7d00, 0x49231c1e, 0x52f1ccf7) == 0x40639cf7
    ensures BSig0(0x101fd28f) == 0x2f35481d && Maj(0x101fd28f, 0x886e7a22, 0x7a0508a1) == 0x180f5aa3
    ensures BSig1(0x9f4787c3) == 0x55cd1720 && Ch(0x9f4787c3, 0x529e7d00, 0x49231c1e) == 0x52261d1c
    ensures BSig0(0xf5702fdb) == 0x433ccfa2 && Maj(0xf5702fdb, 0x101fd28f, 0x886e7a22) == 0x907e7a8b
    ensures BSig1(0xe50e1b4f) == 0xd1653e5c && Ch(0xe50e1b4f, 0x9f4787c3, 0x529e7d00) == 0x97966743
    ensures BSig0(0x3ec45cdb) == 0x381b8def && Maj(0x3ec45cdb, 0xf5702fdb, 0x101fd28f) == 0x34545edb
  {
  }

  lemma Values56()
    ensures BSig1(0x54cb266b) == 0x05aa8057 && Ch(0x54cb266b, 0xe50e1b4f, 0x9f4787c3) == 0xcf0e83cb
    ensures BSig0(0x38cc9913) == 0x34ceacc3 && Maj(0x38cc9913, 0x3ec45cdb, 0xf5702fdb) == 0x3cc41ddb
    ensures BSig1(0x9b5e906c) == 0x10b627de && Ch(0x9b5e906c, 0x54cb266b, 0xe50e1b4f) == 0x744a0b6b
    ensures BSig0(0xfcd1887b) == 0xfaca6b61 && Maj(0xfcd1887b, 0x38cc9913, 0x3ec45cdb) == 0x3cc4985b
    ensures BSig1(0x7e44008e) == 0x0a369fbd && Ch(0x7e44008e, 0x9b5e906c, 0x54cb266b) == 0x1acf266d
    ensures BSig0(0xc062d46f) == 0xd837090c && Maj(0xc062d46f, 0xfcd1887b, 0x38cc9913) == 0xf8c0987b
    ensures BSig1(0x6d83bfc6) == 0x20a45dbe && Ch(0x6d83bfc6, 0x7e44008e, 0x9b5e906c) == 0xfe5c00ae
    ensures BSig0(0xffb70472) == 0x406bf75a && Maj(0xffb70472, 0xc062d46f, 0xfcd1887b) == 0xfcf3847b
    ensures BSig1(0xb21bad3d) == 0x5ca8b318 && Ch(0xb21bad3d, 0x6d83bfc6, 0x7e44008e) == 0x6c47ad86
    ensures BSig0(0xb6ae8fff) == 0x2869e851 && Maj(0xb6ae8fff, 0xffb70472, 0xc062d46f) == 0xf6a6847f
    ensures BSig1(0x961f4894) == 0x4f6ef480 && Ch(0x961f4894, 0xb21bad3d, 0x6d83bfc6) == 0xfb9bbf56
    ensures BSig0(0xb85e2ce9) == 0x71e9ef2a && Maj(0xb85e2ce9, 0xb6ae8fff, 0xffb70472) == 0xbebe0cfb
    ensures BSig1(0x948d25b6) == 0x2a127e78 && Ch(0x948d25b6, 0x961f4894, 0xb21bad3d) == 0xb61f889d
    ensures BSig0(0x04d24d6c) == 0x236105da && Maj(0x04d24d6c, 0xb85e2ce9, 0xb6ae8fff) == 0xb4de0ded
    ensures BSig1(0xfb121210) == 0x88fa2277 && Ch(0xfb121210, 0x948d25b6, 0x961f4894) == 0x940d4894
    ensures BSig0(0xd39a2165) == 0x174d83c6 && Maj(0xd39a2165, 0x04d24d6c, 0xb85e2ce9) == 0x90da2d6d
  {
  }

  lemma Rounds0(b: Block)
    ensures After(b, 0,
                  Vars(0x6a09e667, 0xbb67ae85, 0x3c6ef372, 0xa54ff53a, 0x510e527f, 0x9b05688c, 0x1f83d9ab, 0x5be0cd19))
  {
  }

  lemma Rounds16(b: Block)
    requires IsBlock(b)
    ensures After(b, 16,
                  Vars(0xb0fa238e, 0xc0645fde, 0xd932eb16, 0x87912990, 0x07590dcd, 0x0b92f20c, 0x745a48de, 0x1e578218))
  {
    hide Schedule, After, IsBlock, K, BSig1, Ch, BSig0, Maj;
    Rounds0(b); Constants0(); Constants8();
    Values0(); Values8();
    forall t | 0 <= t < 16 { FirstWords(b, t); }
    var v := Vars(0x6a09e667, 0xbb67ae85, 0x3c6ef372, 0xa54ff53a, 0x510e527f, 0x9b05688c, 0x1f83d9ab, 0x5be0cd19);
    v := NextRound(b, 0, v, 0x428a2f98, 0x61626380, 0x3587272b, 0x1f85c98c, 0xce20b47e, 0x3a6fe667,
                   0x5d6aebcd, 0xfa2a4622);
    v := NextRound(b, 1, v, 0x71374491, 0x00000000, 0x5a94fd2d, 0x510f6aae, 0xa29f64d1, 0x7b6beec5,
                   0x5a6ad9ad, 0x78ce7989);
    v := NextRound(b, 2, v, 0xb5c0fbcf, 0x00000000, 0x73f0e495, 0x790a4276, 0x3096d054, 0x5a6aebed,
                   0xc8c347a7, 0xf92939eb);
    v := NextRound(b, 3, v, 0xe9b5dba5, 0x00000000, 0x0607743c, 0x7a0a7f89, 0xc21008d0, 0x586acbad,
                   0xd550f666, 0x24e00850);
    v := NextRound(b, 4, v, 0x3956c25b, 0x00000000, 0x3a933432, 0x782e79c9, 0x45bb0c4b, 0xd842d7a7,
                   0x04409a6a, 0x43ada245);
    v := NextRound(b, 5, v, 0x59f111f1, 0x00000000, 0x8b77e19c, 0xb8a019ea, 0x5029ac8f, 0xc440d666,
                   0x2b4209f5, 0x714260ad);
    v := NextRound(b, 6, v, 0x923f82a4, 0x00000000, 0x015b7776, 0x45a02855, 0x0d5e0cc0, 0x05409a66,
                   0xe5030380, 0x9b27a401);
    v := NextRound(b, 7, v, 0xab1c5ed5, 0x00000000, 0x158dfaa9, 0x518a2245, 0x2949eb6c, 0x25420be0,
                   0x85a07b5f, 0x0c657a79);
    v := NextRound(b, 8, v, 0xd807aa98, 0x00000000, 0x99ad25c0, 0x79272085, 0xba794dc2, 0xa5020bd5,
                   0x8e04ecb9, 0x32ca2d8c);
    v := NextRound(b, 9, v, 0x12835b01, 0x00000000, 0xe45bb7ea, 0x8965a809, 0x15ffad31, 0x85006b99,
                   0x8c87346b, 0x1cc92596);
    v := NextRound(b, 10, v, 0x243185be, 0x00000000, 0x8e2276bc, 0x10ec7fed, 0x5cac0711, 0x8c847c7b,
                   0x4798a3f4, 0x436b23e8);
    v := NextRound(b, 11, v, 0x550c7dc3, 0x00000000, 0x699435ca, 0x30c92d84, 0x6ccbc526, 0x8e84a4f9,
                   0xf71fc5a9, 0x816fd6e9);
    v := NextRound(b, 12, v, 0x72be5d74, 0x00000000, 0xccdee661, 0x1deb23fe, 0x2f9eee48, 0xc79fa5e9,
                   0x87912990, 0x1e578218);
    v := NextRound(b, 13, v, 0x80deb1fe, 0x00000000, 0x08bb98f7, 0x416fa3e8, 0x29c634f3, 0xc799a1b0,
                   0xd932eb16, 0x745a48de);
    v := NextRound(b, 14, v, 0x9bdc06a7, 0x00000000, 0x4f3b8d50, 0x95779639, 0x25562836, 0xd713e990,
                   0xc0645fde, 0x0b92f20c);
    v := NextRound(b, 15, v, 0xc19bf174, 0x00000018, 0xb8d63f93, 0x1457401c, 0xdf906fd4, 0xc1306b96,
                   0xb0fa238e, 0x07590dcd);
  }

  lemma Rounds32(b: Block)
    requires IsBlock(b)
    ensures After(b, 32,
                  Vars(0x73b33bf5, 0xea992a22, 0xa0060b30, 0x363482c9, 0xba591112, 0x0109ab3a, 0xade79437, 0x6112a3b7))
  {
    hide Schedule, After, IsBlock, K, BSig1, Ch, BSig0, Maj;
    Rounds16(b); Constants16(); Constants24();
    Values16(); Values24(); Words16(b); Words22(b); Words28(b);
    var v := Vars(0xb0fa238e, 0xc0645fde, 0xd932eb16, 0x87912990, 0x07590dcd, 0x0b92f20c, 0x745a48de, 0x1e578218);
    v := NextRound(b, 16, v, 0xe49b69c1, 0x61626380, 0x213b6995, 0x7312401e, 0x58c535f1, 0xd0726b9e,
                   0x21da9a9b, 0x8034229c);
    v := NextRound(b, 17, v, 0xefbe4786, 0x000f0000, 0x3b81984e, 0x0b92d08c, 0x76c5c4f5, 0xa0fa1b9e,
                   0xc2fbd9d1, 0x846ee454);
    v := NextRound(b, 18, v, 0x0fc19dc6, 0x7da86405, 0xeff31c0f, 0x8335299d, 0x5157a6a1, 0xa0fa9b9b,
                   0xfe777bbf, 0xcc899961);
    v := NextRound(b, 19, v, 0x240ca1cc, 0x600003c6, 0xefc707b0, 0x843ca2dc, 0xff8cd2ad, 0xe2fbdb9b,
                   0xe1f20c33, 0xb0638179);
    v := NextRound(b, 20, v, 0x2de92c6f, 0x3e9d7b78, 0xf8373ead, 0x840de565, 0x51d3431b, 0xe2f359b3,
                   0x9dc68b63, 0x8ada8930);
    v := NextRound(b, 21, v, 0x4a7484aa, 0x0183fc00, 0x897ea930, 0xc4439171, 0xa640c29b, 0xfdf60b33,
                   0xc2606d6d, 0xe1257970);
    v := NextRound(b, 22, v, 0x5cb0a9dc, 0x12dcbfdb, 0x7f24093a, 0x90428939, 0x9a43bf51, 0xc1e20d63,
                   0xa7a3623f, 0x49f5114a);
    v := NextRound(b, 23, v, 0x76f988da, 0xe2e2c38e, 0xfae64fc3, 0xc32f9970, 0x759d1b0a, 0x87e26b6f,
                   0xc5d53d8d, 0xaa47c347);
    v := NextRound(b, 24, v, 0x983e5152, 0xc8215c1a, 0x55bdf420, 0x49653972, 0xc9ed56dd, 0xc7e16d2d,
                   0x1c2c2838, 0x2823ef91);
    v := NextRound(b, 25, v, 0xa831c66d, 0xb73679a2, 0xa7724357, 0x69d7d34b, 0xf66b0b1f, 0x85a5283d,
                   0xcde8037d, 0x14383d8e);
    v := NextRound(b, 26, v, 0xb00327c8, 0xe5bc3909, 0x958ca0fb, 0xaa67efc1, 0xc89998a8, 0xcdec293d,
                   0xb62ec4bc, 0xc74c6516);
    v := NextRound(b, 27, v, 0xbf597fc7, 0x32663c5b, 0x5ff7537b, 0x2c2baf87, 0xb37cf281, 0x9c2c003c,
                   0x77d37528, 0xedffbff8);
    v := NextRound(b, 28, v, 0xc6e00bf3, 0x9d209d67, 0xe375bd7e, 0xd54c2516, 0xf963c20e, 0xf7ea453c,
                   0x363482c9, 0x6112a3b7);
    v := NextRound(b, 29, v, 0xd5a79147, 0xec8726cb, 0x2239b36a, 0xe75ee7b0, 0x89cfb5ce, 0x3636c4a8,
                   0xa0060b30, 0xade79437);
    v := NextRound(b, 30, v, 0x06ca6351, 0x702138a4, 0xab883974, 0x611aabff, 0x69a8407c, 0x36160328,
                   0xea992a22, 0x0109ab3a);
    v := NextRound(b, 31, v, 0x14292967, 0xd3b7973b, 0x0b919a99, 0x611380b7, 0x8f1995eb, 0xa2140a20,
                   0x73b33bf5, 0xba591112);
  }

  lemma Rounds48(b: Block)
    requires IsBlock(b)
    ensures After(b, 48,
                  Vars(0x4172328d, 0xa14c14b0, 0x72ab4b91, 0x26628815, 0xfecf0bc6, 0xd57b94a9, 0xb7755da1, 0xa80f11f0))
  {
    hide Schedule, After, IsBlock, K, BSig1, Ch, BSig0, Maj;
    Rounds32(b); Constants32(); Constants40();
    Values32(); Values40(); Words28(b); Words34(b); Words40(b); Words46(b);
    var v := Vars(0x73b33bf5, 0xea992a22, 0xa0060b30, 0x363482c9, 0xba591112, 0x0109ab3a, 0xade79437, 0x6112a3b7);
    v := NextRound(b, 32, v, 0x27b70a85, 0x93f5997f, 0x4436a63b, 0x05af8537, 0x4fa886aa, 0xe2932b30,
                   0x98e12507, 0x9cd9f5f6);
    v := NextRound(b, 33, v, 0x2e1b2138, 0x3b68ba73, 0x085a07a7, 0x99591b1a, 0x4a90902b, 0xfab12b27,
                   0xfe604df5, 0x59249dd3);
    v := NextRound(b, 34, v, 0x4d2c6dfc, 0xaff4ffc1, 0x65415f48, 0xba5995d2, 0x91003786, 0xfae12df5,
                   0xa9a7738c, 0x085f3833);
    v := NextRound(b, 35, v, 0x53380d13, 0xf10a5c62, 0xe5dc6e83, 0x9c84ddd7, 0x2bc2a37e, 0xb8e16585,
                   0x65a0cfe4, 0xf4b002d6);
    v := NextRound(b, 36, v, 0x650a7354, 0x0a8b3996, 0x590d3d71, 0x09149d13, 0xe5748f69, 0xeda04fe4,
                   0x41a65cb1, 0x0772a26b);
    v := NextRound(b, 37, v, 0x766a0abb, 0x72af830a, 0x582c115e, 0x0c3d1a52, 0x2c915f18, 0x61a65fa4,
                   0x34df1604, 0xa507a53d);
    v := NextRound(b, 38, v, 0x81c2c92e, 0x9409e33e, 0xd2f220b2, 0x55b2a2eb, 0xc14e73aa, 0x65a65ea4,
                   0x6dc57a8a, 0xf0781bc8);
    v := NextRound(b, 39, v, 0x92722c85, 0x24641522, 0x66d20b14, 0xa702a12b, 0x5ac8193e, 0x65c75e80,
                   0x79ea687a, 0x1efbc0a0);
    v := NextRound(b, 40, v, 0xa2bfe8a1, 0x9f47bf94, 0xe9986075, 0xb17c259d, 0x7408bcaa, 0x7dcf7a0a,
                   0xd6670766, 0x26352d63);
    v := NextRound(b, 41, v, 0xa81a664b, 0xf0a64f5a, 0x3a6aa383, 0xd67912a8, 0x12b2e9b8, 0x7de76a6a,
                   0xdf46652f, 0x838b2711);
    v := NextRound(b, 42, v, 0xc24b8b70, 0x3e246a79, 0x61add539, 0x1e71e5a1, 0xc73bdc05, 0xdf66656e,
                   0x17aa0dfe, 0xdecd4715);
    v := NextRound(b, 43, v, 0xc76c51a3, 0x27333ba3, 0xd363665b, 0xa2b92f73, 0x422dc671, 0xd766056e,
                   0x9d4baf93, 0xfda24c2e);
    v := NextRound(b, 44, v, 0xd192e819, 0x0c4763f2, 0xef0f2a07, 0xde896715, 0xb5704fcc, 0x9f4a2dbf,
                   0x26628815, 0xa80f11f0);
    v := NextRound(b, 45, v, 0xd6990624, 0x840abf27, 0xfb3dc5f1, 0xfec24625, 0x8311c588, 0x176a8d97,
                   0x72ab4b91, 0xb7755da1);
    v := NextRound(b, 46, v, 0xf40e3585, 0x7a290d5d, 0x8845eb06, 0xe88711ae, 0xad0f0274, 0x366b8b91,
                   0xa14c14b0, 0xd57b94a9);
    v := NextRound(b, 47, v, 0x106aa070, 0x065c43da, 0x8fa515ca, 0xbd7515f1, 0xbd84cdc9, 0x226a0891,
                   0x4172328d, 0xfecf0bc6);
  }

  lemma Rounds64(b: Block)
    requires IsBlock(b)
    ensures After(b, 64,
                  Vars(0x506e3058, 0xd39a2165, 0x04d24d6c, 0xb85e2ce9, 0x5ef50f24, 0xfb121210, 0x948d25b6, 0x961f4894))
  {
    hide Schedule, After, IsBlock, K, BSig1, Ch, BSig0, Maj;
    Rounds48(b); Constants48(); Constants56();
    Values48(); Values56(); Words46(b); Words52(b); Words58(b);
    var v := Vars(0x4172328d, 0xa14c14b0, 0x72ab4b91, 0x26628815, 0xfecf0bc6, 0xd57b94a9, 0xb7755da1, 0xa80f11f0);
    v := NextRound(b, 48, v, 0x19a4c116, 0xfb3e89cb, 0x04a106b1, 0xd57b54a1, 0x0cfcb237, 0x616a1291,
                   0x05757ceb, 0xbd714038);
    v := NextRound(b, 49, v, 0x1e376c08, 0xcc7617db, 0x5d427776, 0xfc4b9481, 0xf3f6d884, 0x017434a9,
                   0xf11bfaa8, 0x6e5c390c);
    v := NextRound(b, 50, v, 0x2748774c, 0xb9e66c34, 0x3e283d54, 0xbcd302ca, 0x86ebd5b1, 0x41737aa9,
                   0x7a0508a1, 0x52f1ccf7);
    v := NextRound(b, 51, v, 0x34b0bcb5, 0xa9993667, 0x3b47e2a3, 0xef50080c, 0x0fa817e8, 0x711578a9,
                   0x886e7a22, 0x49231c1e);
    v := NextRound(b, 52, v, 0x391c0cb3, 0x84badedd, 0x6b63a737, 0x667d2d16, 0xcae757da, 0xf80f7aa0,
                   0x101fd28f, 0x529e7d00);
    v := NextRound(b, 53, v, 0x4ed8aa4a, 0xc21462bc, 0xee7eaa12, 0x40639cf7, 0x2f35481d, 0x180f5aa3,
                   0xf5702fdb, 0x9f4787c3);
    v := NextRound(b, 54, v, 0x5b9cca4f, 0x1487472c, 0x55cd1720, 0x52261d1c, 0x433ccfa2, 0x907e7a8b,
                   0x3ec45cdb, 0xe50e1b4f);
    v := NextRound(b, 55, v, 0x682e6ff3, 0xb20f7a99, 0xd1653e5c, 0x97966743, 0x381b8def, 0x34545edb,
                   0x38cc9913, 0x54cb266b);
    v := NextRound(b, 56, v, 0x748f82ee, 0xef57b9cd, 0x05aa8057, 0xcf0e83cb, 0x34ceacc3, 0x3cc41ddb,
                   0xfcd1887b, 0x9b5e906c);
    v := NextRound(b, 57, v, 0x78a5636f, 0xebe6b238, 0x10b627de, 0x744a0b6b, 0xfaca6b61, 0x3cc4985b,
                   0xc062d46f, 0x7e44008e);
    v := NextRound(b, 58, v, 0x84c87814, 0x9fe3095e, 0x0a369fbd, 0x1acf266d, 0xd837090c, 0xf8c0987b,
                   0xffb70472, 0x6d83bfc6);
    v := NextRound(b, 59, v, 0x8cc70208, 0x78bc8d4b, 0x20a45dbe, 0xfe5c00ae, 0x406bf75a, 0xfcf3847b,
                   0xb6ae8fff, 0xb21bad3d);
    v := NextRound(b, 60, v, 0x90befffa, 0xa43fcf15, 0x5ca8b318, 0x6c47ad86, 0x2869e851, 0xf6a6847f,
                   0xb85e2ce9, 0x961f4894);
    v := NextRound(b, 61, v, 0xa4506ceb, 0x668b2ff8, 0x4f6ef480, 0xfb9bbf56, 0x71e9ef2a, 0xbebe0cfb,
                   0x04d24d6c, 0x948d25b6);
    v := NextRound(b, 62, v, 0xbef9a3f7, 0xeeaba2cc, 0x2a127e78, 0xb61f889d, 0x236105da, 0xb4de0ded,
                   0xd39a2165, 0xfb121210);
    v := NextRound(b, 63, v, 0xc67178f2, 0x12b1edeb, 0x88fa2277, 0x940d4894, 0x174d83c6, 0x90da2d6d,
                   0x506e3058, 0x5ef50f24);
  }

  lemma AbcState(b: Block)
    requires IsBlock(b)
    ensures HashBlocks(b) == [0xba7816bf, 0x8f01cfea, 0x414140de, 0x5dae2223,
                              0xb00361a3, 0x96177a9c, 0xb410ff61, 0xf20015ad]
  {
    hide Rounds, IsBlock;
    Rounds64(b);
    assert b[..0] == [] && b[0..] == b;
    assert HashBlocks(b) == Compress(H0, b);
  }

  lemma Bytes0() ensures Put32Be(0xba7816bf) == [0xba, 0x78, 0x16, 0xbf] {}
  lemma Bytes1() ensures Put32Be(0x8f01cfea) == [0x8f, 0x01, 0xcf, 0xea] {}
  lemma Bytes2() ensures Put32Be(0x414140de) == [0x41, 0x41, 0x40, 0xde] {}
  lemma Bytes3() ensures Put32Be(0x5dae2223) == [0x5d, 0xae, 0x22, 0x23] {}
  lemma Bytes4() ensures Put32Be(0xb00361a3) == [0xb0, 0x03, 0x61, 0xa3] {}
  lemma Bytes5() ensures Put32Be(0x96177a9c) == [0x96, 0x17, 0x7a, 0x9c] {}
  lemma Bytes6() ensures Put32Be(0xb410ff61) == [0xb4, 0x10, 0xff, 0x61] {}
  lemma Bytes7() ensures Put32Be(0xf20015ad) == [0xf2, 0x00, 0x15, 0xad] {}

  /** The words one after the other. */
  lemma EightWords(h: seq<word>)
    requires |h| == 8
    ensures WordsToBytes(h) == Put32Be(h[0]) + Put32Be(h[1]) + Put32Be(h[2]) + Put32Be(h[3])
                               + Put32Be(h[4]) + Put32Be(h[5]) + Put32Be(h[6]) + Put32Be(h[7])
  {
    hide Put32Be;
    forall i | 0 <= i < 8
      ensures WordsToBytes(h[..i + 1]) == WordsToBytes(h[..i]) + Put32Be(h[i])
    {
      assert h[..i + 1][..i] == h[..i];
    }
    assert h[..8] == h && WordsToBytes(h[..0]) == [];
  }

  lemma DigestBytes(h: seq<word>)
    requires h == [0xba7816bf, 0x8f01cfea, 0x414140de, 0x5dae2223,
                   0xb00361a3, 0x96177a9c, 0xb410ff61, 0xf20015ad]
    ensures WordsToBytes(h) == Digest()
  {
    hide WordsToBytes, Put32Be;
    EightWords(h);
    Bytes0(); Bytes1(); Bytes2(); Bytes3(); Bytes4(); Bytes5(); Bytes6(); Bytes7();
  }

  function Digest(): seq<byte>
  {
    [0xba, 0x78, 0x16, 0xbf, 0x8f, 0x01, 0xcf, 0xea,
     0x41, 0x41, 0x40, 0xde, 0x5d, 0xae, 0x22, 0x23,
     0xb0, 0x03, 0x61, 0xa3, 0x96, 0x17, 0x7a, 0x9c,
     0xb4, 0x10, 0xff, 0x61, 0xf2, 0x00, 0x15, 0xad]
  }

  /** SHA-256("abc") is ba7816bf 8f01cfea 414140de 5dae2223 b00361a3 96177a9c b410ff61 f20015ad. */
  lemma DigestOfAbc()
    ensures Sha256(ABC) == Digest()
  {
    hide Pad, HashBlocks, WordsToBytes, IsBlock;
    PaddedAbc();
    AbcState(Pad(ABC));
    DigestBytes(HashBlocks(Pad(ABC)));
  }
}
