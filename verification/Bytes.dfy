/** Machine integers, big-endian byte strings and the few sequence helpers shared by every component. */
module Bytes {

  newtype byte = x: int | 0 <= x < 0x100          // uint8_t
  newtype word = x: int | 0 <= x < 0x1_0000_0000  // uint32_t

  type u16 = x: int | 0 <= x < 0x1_0000
  type u64 = x: int | 0 <= x < 0x1_0000_0000_0000_0000
  type i16 = x: int | -0x8000 <= x < 0x8000
  type i32 = x: int | -0x8000_0000 <= x < 0x8000_0000

  datatype Option<+T> = None | Some(value: T)

  /** The low `k` bytes of `n`, most significant first. */
  function BigEndian(n: nat, k: nat): (s: seq<byte>)
    ensures |s| == k
  {
    if k == 0 then [] else BigEndian(n / 0x100, k - 1) + [(n % 0x100) as byte]
  }

  /** The number a big-endian byte string denotes. */
  function FromBigEndian(s: seq<byte>): (n: nat)
  {
    if s == [] then 0 else FromBigEndian(s[..|s| - 1]) * 0x100 + s[|s| - 1] as nat
  }

  // Shifting right by 8k is division by 256^k, and the `|` of disjoint shifted bytes is their sum.

  function Put32Be(v: word): (s: seq<byte>)
    ensures |s| == 4
  {
    var n := v as int;
    [(n / 0x100_0000) as byte, (n / 0x1_0000 % 0x100) as byte, (n / 0x100 % 0x100) as byte, (n % 0x100) as byte]
  }

  function Get32Be(s: seq<byte>): word
    requires |s| == 4
  {
    (s[0] as int * 0x100_0000 + s[1] as int * 0x1_0000 + s[2] as int * 0x100 + s[3] as int) as word
  }

  function Put16Be(v: u16): (s: seq<byte>)
    ensures |s| == 2
  {
    [(v / 0x100) as byte, (v % 0x100) as byte]
  }

  function Get16Be(s: seq<byte>): u16
    requires |s| == 2
  {
    s[0] as int * 0x100 + s[1] as int
  }

  lemma Put32IsBigEndian(v: word)
    ensures Put32Be(v) == BigEndian(v as int, 4)
    ensures Get32Be(Put32Be(v)) == v
  {
    var n := v as int;
    assert n / 0x100 / 0x100 == n / 0x1_0000;
    assert n / 0x1_0000 / 0x100 == n / 0x100_0000;
    assert BigEndian(n / 0x100_0000, 1) == [(n / 0x100_0000) as byte];
    assert BigEndian(n / 0x1_0000, 2) == BigEndian(n / 0x100_0000, 1) + [(n / 0x1_0000 % 0x100) as byte];
    assert BigEndian(n / 0x100, 3) == BigEndian(n / 0x1_0000, 2) + [(n / 0x100 % 0x100) as byte];
  }

  lemma Put16IsBigEndian(v: u16)
    ensures Put16Be(v) == BigEndian(v, 2) && Get16Be(Put16Be(v)) == v
  {
    assert BigEndian(v / 0x100, 1) == [(v / 0x100) as byte];
  }

  /** Two and four bytes read as numbers: the first byte weighs most. */
  lemma GetIsBigEndian(a: byte, b: byte, c: byte, d: byte)
    ensures Get16Be([a, b]) == FromBigEndian([a, b]) == a as nat * 256 + b as nat
    ensures Get32Be([a, b, c, d]) as nat == FromBigEndian([a, b, c, d])
            == a as nat * 16_777_216 + b as nat * 65_536 + c as nat * 256 + d as nat
  {
    var two, three, four := [a, b], [a, b, c], [a, b, c, d];
    assert four[..3] == three && three[..2] == two && two[..1] == [a] && [a][..0] == [];
    assert FromBigEndian([a]) == a as nat;
  }

  lemma Get16IsBigEndian(s: seq<byte>)
    requires |s| == 2
    ensures Get16Be(s) == FromBigEndian(s)
  {
    GetIsBigEndian(s[0], s[1], 0, 0);
    assert s == [s[0], s[1]];
  }

  lemma Get32IsBigEndian(s: seq<byte>)
    requires |s| == 4
    ensures Get32Be(s) as nat == FromBigEndian(s)
  {
    GetIsBigEndian(s[0], s[1], s[2], s[3]);
    assert s == [s[0], s[1], s[2], s[3]];
  }

  lemma Get32Inverse(s: seq<byte>)
    requires |s| == 4
    ensures Put32Be(Get32Be(s)) == s
  {
    var n := Get32Be(s) as int;
    assert n / 0x100_0000 == s[0] as int && n / 0x1_0000 == s[0] as int * 0x100 + s[1] as int;
    assert n / 0x100 == s[0] as int * 0x1_0000 + s[1] as int * 0x100 + s[2] as int;
  }

  lemma {:induction false} BigEndianInverse(n: nat, k: nat)
    ensures FromBigEndian(BigEndian(n, k)) == n % Pow256(k)
    decreases k
  {
    if k == 0 {
      assert n % 1 == 0;
    } else {
      BigEndianInverse(n / 0x100, k - 1);
      var s := BigEndian(n, k);
      assert s[..k - 1] == BigEndian(n / 0x100, k - 1);
      DigitStep(n, Pow256(k - 1));
    }
  }

  lemma DigitStep(n: nat, p: nat)
    requires p > 0
    ensures (n / 0x100 % p) * 0x100 + n % 0x100 == n % (p * 0x100)
  {
    var h, d := n / 0x100, n % 0x100;
    var q, r := h / p, h % p;
    assert n == q * (p * 0x100) + (r * 0x100 + d) by {
      assert h == q * p + r;
      assert q * (p * 0x100) == (q * p) * 0x100;
    }
    assert 0 <= r * 0x100 + d < p * 0x100;
    ModUnique(n, p * 0x100, q, r * 0x100 + d);
  }

  lemma ModUnique(n: int, m: int, q: int, r: int)
    requires m > 0 && n == q * m + r && 0 <= r < m
    ensures n % m == r && n / m == q
  {
    var d := n / m - q;
    assert d * m == r - n % m by { assert d * m == n / m * m - q * m; }
    if d != 0 {
      NonzeroMultiple(d, m);
    }
  }

  lemma NonzeroMultiple(d: int, m: nat)
    requires d != 0
    ensures d * m >= m || d * m + m <= 0
  {
    if d > 0 {
      assert (d - 1) * m >= 0;
    } else {
      assert (-d - 1) * m >= 0;
    }
  }

  /** The last four of `k + 4` bytes, split off. */
  lemma BigEndianSplit(n: nat, k: nat)
    ensures BigEndian(n, k + 4) == BigEndian(n / 0x1_0000_0000, k) + BigEndian(n, 4)
  {
    var n1, n2, n3, n4 := n / 0x100, n / 0x1_0000, n / 0x100_0000, n / 0x1_0000_0000;
    assert n1 / 0x100 == n2 && n2 / 0x100 == n3 && n3 / 0x100 == n4;
    var d0, d1, d2, d3 := (n % 0x100) as byte, (n1 % 0x100) as byte, (n2 % 0x100) as byte, (n3 % 0x100) as byte;
    assert BigEndian(n, 4) == [d3, d2, d1, d0] by {
      assert BigEndian(n1, 3) == BigEndian(n2, 2) + [d1];
      assert BigEndian(n2, 2) == BigEndian(n3, 1) + [d2];
      assert BigEndian(n3, 1) == [d3];
    }
    assert BigEndian(n, k + 4) == BigEndian(n4, k) + [d3, d2, d1, d0] by {
      assert BigEndian(n1, k + 3) == BigEndian(n2, k + 2) + [d1];
      assert BigEndian(n2, k + 2) == BigEndian(n3, k + 1) + [d2];
      assert BigEndian(n3, k + 1) == BigEndian(n4, k) + [d3];
    }
  }

  lemma {:induction false} BigEndianLow(n: nat, k: nat)
    ensures BigEndian(n, k) == BigEndian(n % Pow256(k), k)
    decreases k
  {
    if k > 0 {
      var p := Pow256(k - 1);
      DigitStep(n, p);
      BigEndianLow(n / 0x100, k - 1);
      var m := n % Pow256(k);
      assert m == (n / 0x100 % p) * 0x100 + n % 0x100;
      assert m / 0x100 == n / 0x100 % p && m % 0x100 == n % 0x100;
    }
  }

  function Pow256(k: nat): (p: nat)
    ensures p > 0
  {
    if k == 0 then 1 else Pow256(k - 1) * 0x100
  }

  /** Concatenation of a list of chunks. */
  function Concat(chunks: seq<seq<byte>>): seq<byte>
  {
    if chunks == [] then [] else Concat(chunks[..|chunks| - 1]) + chunks[|chunks| - 1]
  }

  /** The codes of a text, the low byte of each. */
  function Ascii(s: string): (b: seq<byte>)
    ensures |b| == |s|
  {
    seq(|s|, i requires 0 <= i < |s| => (s[i] as int % 0x100) as byte)
  }

  function Zeros(k: nat): (s: seq<byte>)
    ensures |s| == k && forall i :: 0 <= i < k ==> s[i] == 0
  {
    seq(k, i => 0)
  }

  /** Writing `b` behind `a` is writing both at once. */
  lemma Splice(s: seq<byte>, at: nat, a: seq<byte>, b: seq<byte>)
    requires at + |a| + |b| <= |s|
    ensures var t := s[..at] + a + s[at + |a|..];
            t[..at + |a|] + b + t[at + |a| + |b|..] == s[..at] + (a + b) + s[at + |a| + |b|..]
  {
  }

  /** memcpy to `dst + at`. */
  method Copy(dst: array<byte>, at: nat, src: seq<byte>)
    requires at + |src| <= dst.Length
    modifies dst
    ensures dst[..] == old(dst[..at]) + src + old(dst[at + |src|..])
    ensures dst[..at] == old(dst[..at]) && dst[at..at + |src|] == src
    ensures dst[at + |src|..] == old(dst[at + |src|..])
  {
    forall k | 0 <= k < |src| {
      dst[at + k] := src[k];
    }
  }

  /** memset to zero of `len` bytes at `dst + at`. */
  method Clear(dst: array<byte>, at: nat, len: nat)
    requires at + len <= dst.Length
    modifies dst
    ensures dst[..] == old(dst[..at]) + Zeros(len) + old(dst[at + len..])
    ensures dst[..at] == old(dst[..at]) && dst[at..at + len] == Zeros(len)
    ensures dst[at + len..] == old(dst[at + len..])
  {
    forall k | 0 <= k < len {
      dst[at + k] := 0;
    }
  }
}
