/**
 * The streaming hash contexts (include/keylight/ed25519.hpp:85-142 and sha256.hpp:83-170) over
 * any compression function, against the padding of FIPS 180-4 section 5.1.
 */
module Sha2 {
  import opened Limbs

  datatype Words = Words(a: u64, b: u64, c: u64, d: u64, e: u64, f: u64, g: u64, h: u64)

  type Compression = (Words, seq<byte>) -> Words

  const W64: int := 0x1_0000_0000_0000_0000

  // ---------------------------------------------------------------- specification

  /** The whole blocks of `m`, each of `size` bytes, folded from the left. */
  ghost function Folded(f: Compression, w: Words, m: seq<byte>, size: nat): (r: Words)
    requires size > 0
    decreases |m|
  {
    if |m| < size then w else Folded(f, f(w, m[..size]), m[size..], size)
  }

  /** The last `n` bytes of `v`, most significant first. */
  function BigEndian(v: nat, n: nat): (s: seq<byte>)
    ensures |s| == n
  {
    if n == 0 then [] else BigEndian(v / 0x100, n - 1) + [v % 0x100]
  }

  /** How many zeros fill the last block up to its length field of `tail` bytes. */
  function ZeroCount(n: nat, size: nat, tail: nat): (z: nat)
    requires size > 1
    ensures z < size && (n + 1 + z + tail) % size == 0
  {
    FillUp(n + 1 + tail, size);
    (size - (n + 1 + tail) % size) % size
  }

  lemma FillUp(n: nat, size: nat)
    requires size > 1
    ensures var z := (size - n % size) % size;
      0 <= z < size && (n + z) % size == 0
  {
    var q, r := n / size, n % size;
    Shift(q, size, r);
    if r == 0 {
      QuotRem(size, size, 1, 0);
    } else {
      QuotRem(size - r, size, 0, size - r);
      QuotRem(n + (size - r), size, q + 1, 0);
    }
  }

  lemma Shift(q: int, size: int, r: int)
    ensures q * size + r + (size - r) == (q + 1) * size
    ensures (q - 1) * size == q * size - size
  {
  }

  /** A one bit, zeros, and the length in bits. */
  function Padding(n: nat, bits: nat, size: nat, tail: nat): (p: seq<byte>)
    requires size > 1
    ensures (n + |p|) % size == 0
  {
    [0x80] + Zeros(ZeroCount(n, size, tail)) + BigEndian(bits, tail)
  }

  /** FIPS 180-4: the length field holds the length itself. */
  ghost function Fips(f: Compression, w: Words, m: seq<byte>, size: nat, tail: nat): (r: Words)
    requires size > 1
  {
    Folded(f, w, m + Padding(|m|, 8 * |m|, size, tail), size)
  }

  /** The contexts count bits in 64 bits. */
  ghost function Counted(f: Compression, w: Words, m: seq<byte>, size: nat, tail: nat): (r: Words)
    requires size > 1
  {
    Folded(f, w, m + Padding(|m|, 8 * |m| % W64, size, tail), size)
  }

  lemma {:induction false} FoldedConcat(f: Compression, w: Words, a: seq<byte>, b: seq<byte>, size: nat, k: nat)
    requires size > 0 && |a| == k * size
    ensures Folded(f, w, a + b, size) == Folded(f, Folded(f, w, a, size), b, size)
    decreases k
  {
    if k == 0 {
      assert a == [] && a + b == b;
    } else {
      Shift(k, size, 0);
      NonNegative(k - 1, size);
      assert (a + b)[..size] == a[..size] && (a + b)[size..] == a[size..] + b;
      FoldedConcat(f, f(w, a[..size]), a[size..], b, size, k - 1);
    }
  }

  /** A further block after `m`. */
  lemma AnotherBlock(f: Compression, w: Words, m: seq<byte>, b: seq<byte>, size: nat, k: nat)
    requires size > 0 && |m| == k * size && |b| == size
    ensures Folded(f, w, m + b, size) == f(Folded(f, w, m, size), b)
  {
    FoldedConcat(f, w, m, b, size, k);
    assert b[..size] == b && b[size..] == [];
  }

  lemma {:induction false} BigEndianBound(v: nat, n: nat)
    ensures n > 0 ==> BigEndian(v, n)[n - 1] == v % 0x100
    ensures n > 0 ==> BigEndian(v, n)[..n - 1] == BigEndian(v / 0x100, n - 1)
  {
  }

  /** Big-endian bytes determine the number below 256^n. */
  lemma {:induction false} BigEndianInjective(u: nat, v: nat, n: nat)
    requires u < Pow(256, n) && v < Pow(256, n)
    ensures BigEndian(u, n) == BigEndian(v, n) <==> u == v
  {
    if n > 0 {
      BigEndianBound(u, n);
      BigEndianBound(v, n);
      assert u / 0x100 < Pow(256, n - 1) && v / 0x100 < Pow(256, n - 1);
      BigEndianInjective(u / 0x100, v / 0x100, n - 1);
    }
  }

  /** A small number in a wide field starts with zeros. */
  lemma {:induction false} BigEndianWide(v: nat, n: nat, k: nat)
    requires v < Pow(256, n)
    ensures BigEndian(v, k + n) == Zeros(k) + BigEndian(v, n)
  {
    if n > 0 {
      assert v / 0x100 < Pow(256, n - 1);
      BigEndianWide(v / 0x100, n - 1, k);
    } else if k > 0 {
      BigEndianWide(0, 0, k - 1);
      assert BigEndian(0, k) == Zeros(k - 1) + [0];
    }
  }

  lemma Pow8And16()
    ensures Pow(256, 8) == W64 && Pow(256, 16) == W64 * W64
  {
    PowAdd(256, 4, 4);
    PowAdd(256, 8, 8);
  }

  /** The length field is right exactly below 2^61 bytes, as far as a 16-byte field can tell. */
  lemma CountIsLength(n: nat)
    requires 8 * n < W64 * W64
    ensures Padding(n, 8 * n % W64, 128, 16) == Padding(n, 8 * n, 128, 16) <==> n < 0x2000_0000_0000_0000
  {
    Pow8And16();
    hide Pow, BigEndian, ZeroCount;
    BigEndianInjective(8 * n % W64, 8 * n, 16);
    var z := [0x80] + Zeros(ZeroCount(n, 128, 16));
    SameTail(z, BigEndian(8 * n % W64, 16), BigEndian(8 * n, 16));
  }

  lemma SameTail(z: seq<byte>, a: seq<byte>, b: seq<byte>)
    ensures z + a == z + b <==> a == b
  {
    assert (z + a)[|z|..] == a && (z + b)[|z|..] == b;
  }

  // ---------------------------------------------------------------- what the bytes spell

  /** The number bytes spell, most significant first. */
  ghost function BigNumber(s: seq<byte>): (v: nat) {
    if |s| == 0 then 0 else 0x100 * BigNumber(s[..|s| - 1]) + s[|s| - 1]
  }

  lemma {:induction false} BigEndianSpells(v: nat, n: nat)
    requires v < Pow(256, n)
    ensures BigNumber(BigEndian(v, n)) == v
  {
    if n > 0 {
      assert v / 0x100 < Pow(256, n - 1);
      BigEndianSpells(v / 0x100, n - 1);
      BigEndianBound(v, n);
    }
  }

  lemma {:induction false} BigNumberConcat(a: seq<byte>, b: seq<byte>)
    ensures BigNumber(a + b) == BigNumber(a) * Pow(256, |b|) + BigNumber(b)
  {
    if |b| == 0 {
      assert a + b == a;
    } else {
      var c := b[..|b| - 1];
      BigNumberConcat(a, c);
      assert (a + b)[..|a + b| - 1] == a + c;
      NextDigit(BigNumber(a), Pow(256, |c|), BigNumber(c), b[|b| - 1]);
    }
  }

  lemma NextDigit(a: int, p: int, c: int, x: int)
    ensures 0x100 * (a * p + c) + x == a * (0x100 * p) + (0x100 * c + x)
  {
    assert 0x100 * (a * p) == a * (0x100 * p);
  }

  lemma {:induction false} ZerosSpellNothing(n: nat)
    ensures BigNumber(Zeros(n)) == 0
  {
    if n > 0 {
      assert Zeros(n)[..n - 1] == Zeros(n - 1);
      ZerosSpellNothing(n - 1);
    }
  }

  /** 2^(8n + 7), the value of a leading one bit before 8n + 7 others. */
  lemma {:induction false} LeadingBit(n: nat)
    ensures 0x80 * Pow(256, n) == Pow(2, 8 * n + 7)
  {
    if n == 0 {
      PowAdd(2, 3, 4);
    } else {
      LeadingBit(n - 1);
      PowAdd(2, 4, 4);
      PowAdd(2, 8, 8 * (n - 1) + 7);
      assert Pow(256, n) == 256 * Pow(256, n - 1);
    }
  }

  /**
   * FIPS 180-4 section 5.1: the padding is a one bit, then zeros, then the length in the last
   * `tail` bytes, and as short as that allows.
   */
  lemma PaddingSpells(n: nat, bits: nat, size: nat, tail: nat)
    requires size > 1 && bits < Pow(256, tail)
    ensures var p := Padding(n, bits, size, tail);
      && BigNumber(p) == Pow(2, 8 * |p| - 1) + bits
      && (n + |p|) % size == 0 && tail < |p| <= tail + size
  {
    var z := ZeroCount(n, size, tail);
    var zeros, length := Zeros(z), BigEndian(bits, tail);
    BigEndianSpells(bits, tail);
    assert BigNumber([0x80]) == 0x100 * BigNumber([]) + 0x80;
    hide ZeroCount, BigEndian, Zeros, BigNumber, Pow;
    ZerosSpellNothing(z);
    BigNumberConcat([0x80] + zeros, length);
    BigNumberConcat([0x80], zeros);
    LeadingBits(z, tail);
  }

  lemma LeadingBits(z: nat, tail: nat)
    ensures (0x80 * Pow(256, z) + 0) * Pow(256, tail) == Pow(2, 8 * (1 + z + tail) - 1)
  {
    PowAdd(256, z, tail);
    LeadingBit(z + tail);
    assert (0x80 * Pow(256, z)) * Pow(256, tail) == 0x80 * (Pow(256, z) * Pow(256, tail));
  }

  /** Nothing else spells that. */
  lemma PaddingIsUnique(n: nat, bits: nat, size: nat, tail: nat, p: seq<byte>)
    requires size > 1 && bits < Pow(256, tail) && (n + |p|) % size == 0 && tail < |p| <= tail + size
    requires BigNumber(p) == Pow(2, 8 * |p| - 1) + bits
    ensures p == Padding(n, bits, size, tail)
  {
    var q := Padding(n, bits, size, tail);
    PaddingSpells(n, bits, size, tail);
    hide Padding, BigNumber;
    SameResidue(n, |p|, |q|, tail, size);
    BigNumberInjective(p, q);
  }

  lemma SameResidue(n: nat, x: nat, y: nat, low: nat, size: nat)
    requires size > 1 && (n + x) % size == 0 && (n + y) % size == 0 && low < x <= low + size && low < y <= low + size
    ensures x == y
  {
    Whole(n + x, size);
    Whole(n + y, size);
    SameMultiple((n + x) / size, (n + y) / size, size, x - y);
  }

  lemma Whole(v: nat, size: nat)
    requires size > 0 && v % size == 0
    ensures v == (v / size) * size
  {
  }

  lemma SameMultiple(j: int, k: int, size: int, d: int)
    requires size > 0 && j * size - k * size == d && -size < d < size
    ensures d == 0
  {
    assert (j - k) * size == d;
    if j - k >= 1 {
      NonNegative(j - k - 1, size);
    }
    if j - k <= -1 {
      NonNegative(k - j - 1, size);
    }
  }

  lemma {:induction false} BigNumberInjective(p: seq<byte>, q: seq<byte>)
    requires |p| == |q| && BigNumber(p) == BigNumber(q)
    ensures p == q
  {
    if |p| > 0 {
      var n := |p| - 1;
      BigNumberInjective(p[..n], q[..n]);
      assert p == p[..n] + [p[n]] && q == q[..n] + [q[n]];
    }
  }

  // ---------------------------------------------------------------- bytes of words

  /** `v >> 8 k`. */
  function Shifted(v: nat, k: nat): (u: nat) {
    if k == 0 then v else Shifted(v / 0x100, k - 1)
  }

  lemma {:induction false} BigEndianAt(v: nat, n: nat, i: nat)
    requires i < n
    ensures BigEndian(v, n)[i] == Shifted(v, n - 1 - i) % 0x100
  {
    if i < n - 1 {
      BigEndianAt(v / 0x100, n - 1, i);
    }
  }

  function WordList(w: Words): (s: seq<u64>)
    ensures |s| == 8
  {
    [w.a, w.b, w.c, w.d, w.e, w.f, w.g, w.h]
  }

  /** The low `n` bytes of each word, most significant first. */
  function WordBytes(s: seq<u64>, n: nat): (o: seq<byte>)
    ensures |o| == |s| * n
  {
    if |s| == 0 then []
    else
      var r := WordBytes(s[..|s| - 1], n);
      assert |r| + n == |s| * n by { Shift(|s|, n, 0); }
      r + BigEndian(s[|s| - 1], n)
  }

  /** Each word of a digest in its place, most significant byte first. */
  lemma {:induction false} WordsSpell(s: seq<u64>, n: nat, i: nat)
    requires i < |s| && s[i] < Pow(256, n)
    ensures 0 <= i * n <= i * n + n <= |WordBytes(s, n)|
    ensures BigNumber(WordBytes(s, n)[i * n..i * n + n]) == s[i]
  {
    var k := |s| - 1;
    var r, last := WordBytes(s[..k], n), BigEndian(s[k], n);
    assert WordBytes(s, n) == r + last;
    hide WordBytes, BigNumber, BigEndian, Pow;
    WordPlace(i, |s|, n);
    if i == k {
      assert (r + last)[i * n..i * n + n] == last;
      BigEndianSpells(s[k], n);
    } else {
      WordsSpell(s[..k], n, i);
      assert (r + last)[i * n..i * n + n] == r[i * n..i * n + n];
    }
  }

  lemma WordPlace(i: nat, m: nat, n: nat)
    requires i < m
    ensures 0 <= i * n && i * n + n <= m * n && m * n == (m - 1) * n + n
  {
    NonNegative(m - 1 - i, n);
    NonNegative(i, n);
  }

  /** The nested loops that write the digest. */
  method Emit(w: Words, n: nat) returns (out: seq<byte>)
    ensures out == WordBytes(WordList(w), n)
  {
    var s := WordList(w);
    out := [];
    for i := 0 to 8
      invariant out == WordBytes(s[..i], n)
    {
      ghost var before := out;
      for j := 0 to n
        invariant out == before + BigEndian(s[i], n)[..j]
      {
        BigEndianAt(s[i], n, j);
        out := out + [Shifted(s[i], n - 1 - j) % 0x100];
        assert BigEndian(s[i], n)[..j + 1] == BigEndian(s[i], n)[..j] + [BigEndian(s[i], n)[j]];
      }
      assert BigEndian(s[i], n)[..n] == BigEndian(s[i], n);
      assert s[..i + 1][..i] == s[..i] && s[..i + 1][i] == s[i];
    }
    assert s[..8] == s;
  }

  // ---------------------------------------------------------------- what both contexts do to their buffer

  /** Bytes into a buffer from position `at`. */
  method Copy(buf: array<byte>, at: nat, m: seq<byte>)
    requires at + |m| <= buf.Length
    modifies buf
    ensures buf[..at + |m|] == old(buf[..at]) + m && buf[at + |m|..] == old(buf[at + |m|..])
  {
    ghost var b := buf[..at];
    for i := 0 to |m|
      invariant buf[..at + i] == b + m[..i] && buf[at + |m|..] == old(buf[at + |m|..])
    {
      buf[at + i] := m[i];
      assert buf[..at + i + 1] == buf[..at + i] + [m[i]];
      assert m[..i + 1] == m[..i] + [m[i]];
    }
    assert m[..|m|] == m;
  }

  method ZeroTo(buf: array<byte>, at: nat, limit: nat)
    requires at <= limit <= buf.Length
    modifies buf
    ensures buf[..limit] == old(buf[..at]) + Zeros(limit - at)
  {
    ghost var b := buf[..at];
    var i := at;
    while i < limit
      invariant at <= i <= limit && buf[..i] == b + Zeros(i - at)
    {
      buf[i] := 0;
      assert buf[..i + 1] == buf[..i] + [0];
      i := i + 1;
    }
  }

  /** A number into a buffer, most significant byte first. */
  method StoreLength(buf: array<byte>, at: nat, v: nat, n: nat)
    requires at + n <= buf.Length
    modifies buf
    ensures buf[..at + n] == old(buf[..at]) + BigEndian(v, n)
  {
    ghost var b := buf[..at];
    for i := 0 to n
      invariant buf[..at + i] == b + BigEndian(v, n)[..i]
    {
      BigEndianAt(v, n, i);
      buf[at + i] := Shifted(v, n - 1 - i) % 0x100;
      assert buf[..at + i + 1] == buf[..at + i] + [buf[at + i]];
      assert BigEndian(v, n)[..i + 1] == BigEndian(v, n)[..i] + [BigEndian(v, n)[i]];
    }
    assert BigEndian(v, n)[..n] == BigEndian(v, n);
  }
}
