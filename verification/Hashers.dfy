/** The two streaming contexts, SHA-512 and SHA-256, as objects updated in place. */
module Hashers {
  import opened Limbs
  import opened Modular
  import opened Sha2

  function Start512(): Words {
    Words(0x6a09e667f3bcc908, 0xbb67ae8584caa73b, 0x3c6ef372fe94f82b, 0xa54ff53a5f1d36f1,
          0x510e527fade682d1, 0x9b05688c2b3e6c1f, 0x1f83d9abfb41bd6b, 0x5be0cd19137e2179)
  }

  function Start256(): Words {
    Words(0x6a09e667, 0xbb67ae85, 0x3c6ef372, 0xa54ff53a, 0x510e527f, 0x9b05688c, 0x1f83d9ab, 0x5be0cd19)
  }

  /** `v` is the first `bits` bits of the fraction of the square root of `prime`, `root` being its integer part. */
  ghost predicate RootFraction(v: int, prime: int, root: int, scale: int) {
    var x := root * scale + v;
    0 <= v < scale && x * x <= prime * (scale * scale) < (x + 1) * (x + 1)
  }

  /** FIPS 180-4 section 5.3: the square roots of the first eight primes. */
  lemma StartIsRoots()
    ensures var w := Start512();
      && RootFraction(w.a, 2, 1, W64) && RootFraction(w.b, 3, 1, W64) && RootFraction(w.c, 5, 2, W64)
      && RootFraction(w.d, 7, 2, W64) && RootFraction(w.e, 11, 3, W64) && RootFraction(w.f, 13, 3, W64)
      && RootFraction(w.g, 17, 4, W64) && RootFraction(w.h, 19, 4, W64)
    ensures var v, w := Start256(), Start512();
      && v.a == w.a / 0x1_0000_0000 && v.b == w.b / 0x1_0000_0000 && v.c == w.c / 0x1_0000_0000
      && v.d == w.d / 0x1_0000_0000 && v.e == w.e / 0x1_0000_0000 && v.f == w.f / 0x1_0000_0000
      && v.g == w.g / 0x1_0000_0000 && v.h == w.h / 0x1_0000_0000
  {
  }

  /** The last block or blocks when `rest` is what the whole blocks left over. */
  ghost function Tail(rest: seq<byte>, n: nat, size: nat, tail: nat): (t: seq<byte>)
    requires size > 1
  {
    rest + Padding(n, 8 * n % W64, size, tail)
  }

  /** Hashing the leftover tail finishes the message. */
  lemma TailFinishes(f: Compression, w: Words, m: seq<byte>, size: nat, tail: nat, k: nat)
    requires size > 1 && k * size <= |m|
    ensures Folded(f, Folded(f, w, m[..k * size], size), Tail(m[k * size..], |m|, size, tail), size)
      == Counted(f, w, m, size, tail)
  {
    var t := Tail(m[k * size..], |m|, size, tail);
    FoldedConcat(f, w, m[..k * size], t, size, k);
    assert m[..k * size] + t == m + Padding(|m|, 8 * |m| % W64, size, tail);
  }

  lemma OneTail(f: Compression, w: Words, a: seq<byte>, size: nat)
    requires size > 1 && |a| == size
    ensures Folded(f, w, a, size) == f(w, a)
  {
    assert a[..size] == a && a[size..] == [];
  }

  lemma TwoTails(f: Compression, w: Words, a: seq<byte>, b: seq<byte>, size: nat)
    requires size > 1 && |a| == |b| == size
    ensures Folded(f, w, a + b, size) == f(f(w, a), b)
  {
    assert (a + b)[..size] == a && (a + b)[size..] == b;
    OneTail(f, f(w, a), b, size);
  }

  // ---------------------------------------------------------------- SHA-512

  class Sha512 {
    const f: Compression
    var h: Words
    const buf: array<byte>
    var total: u64
    var used: nat
    ghost var msg: seq<byte>   // everything passed to Update so far

    ghost predicate Valid()
      reads this, buf
    {
      && buf.Length == 128 && used < 128 && used <= |msg| && (|msg| - used) % 128 == 0
      && total == (|msg| - used) % W64
      && h == Folded(f, Start512(), msg[..|msg| - used], 128)
      && buf[..used] == msg[|msg| - used..]
    }

    constructor (c: Compression)
      ensures Valid() && f == c && msg == [] && fresh(buf)
    {
      f := c;
      h := Start512();
      buf := new byte[128](_ => 0);
      total, used := 0, 0;
      msg := [];
    }

    /** One round of the loop of `update`: as much as the buffer has room for. */
    method Absorb(chunk: seq<byte>)
      requires Valid() && |chunk| <= 128 - used
      modifies this`h, this`total, this`used, this`msg, buf
      ensures Valid() && msg == old(msg) + chunk
    {
      hide Folded, Start512;
      ghost var whole := msg[..|msg| - used];
      ghost var more := msg + chunk;
      Copy(buf, used, chunk);
      used := used + |chunk|;
      assert more[|whole|..] == msg[|whole|..] + chunk;
      assert more[..|whole|] == whole;
      msg := more;
      if used == 128 {
        assert buf[..] == buf[..128];
        assert whole + buf[..] == msg;
        Process(whole);
        assert msg[..|msg| - 0] == msg;
        assert buf[..0] == [];
      }
    }

    /** A full buffer goes through. */
    method Process(ghost whole: seq<byte>)
      requires buf.Length == 128 && |whole| % 128 == 0 && total == |whole| % W64 && h == Folded(f, Start512(), whole, 128)
      modifies this`h, this`total, this`used
      ensures used == 0 && total == (|whole| + 128) % W64 && h == Folded(f, Start512(), whole + buf[..], 128)
    {
      hide Folded, Start512;
      assert |whole| == |whole| / 128 * 128;
      AnotherBlock(f, Start512(), whole, buf[..], 128, |whole| / 128);
      h := f(h, buf[..]);
      total := (total + 128) % W64;
      used := 0;
    }

    method Update(data: seq<byte>)
      requires Valid()
      modifies this`h, this`total, this`used, this`msg, buf
      ensures Valid() && msg == old(msg) + data
    {
      hide Folded;
      var i := 0;
      assert old(msg) + data[..0] == old(msg);
      while i < |data|
        invariant 0 <= i <= |data| && Valid() && msg == old(msg) + data[..i]
      {
        var space := 128 - used;
        var take := if |data| - i < space then |data| - i else space;
        Absorb(data[i..i + take]);
        assert data[..i] + data[i..i + take] == data[..i + take];
        i := i + take;
      }
      assert data[..|data|] == data;
    }

    /** Zeros up to the length field, and the field. */
    method Close(at: nat, bits: u64)
      requires buf.Length == 128 && at <= 112
      modifies buf
      ensures buf[..] == old(buf[..at]) + Zeros(120 - at) + BigEndian(bits, 8)
    {
      ZeroTo(buf, at, 112);
      ZeroTo(buf, 112, 120);
      assert Zeros(112 - at) + Zeros(8) == Zeros(120 - at);
      StoreLength(buf, 120, bits, 8);
      assert buf[..] == buf[..128];
    }

    /** The one bit, and the rest of a block that has no room for the length. */
    method Spill()
      requires buf.Length == 128 && 112 < used <= 128
      modifies this`h, this`used, buf
      ensures h == f(old(h), old(buf[..used]) + Zeros(128 - old(used))) && used == 0
    {
      ZeroTo(buf, used, 128);
      assert buf[..] == buf[..128];
      h := f(h, buf[..]);
      used := 0;
    }

    /** The blocks `final` puts through: the rest of the message, padded. */
    method Pad(bits: u64, ghost n: nat, ghost k: nat)
      requires buf.Length == 128 && used < 128 && n == k * 128 + used && bits == 8 * n % W64
      modifies this`h, this`used, buf
      ensures h == Folded(f, old(h), Tail(old(buf[..used]), n, 128, 16), 128)
    {
      hide Folded, Tail, Zeros, BigEndian;
      ghost var rest, w := buf[..used], h;
      buf[used] := 0x80;
      used := used + 1;
      assert buf[..used] == rest + [0x80];
      if used > 112 {
        Spill();
        Close(0, bits);
        LongTail(rest, n, bits, k);
        assert buf[..0] == [];
        TwoTails(f, w, rest + [0x80] + Zeros(128 - (|rest| + 1)), buf[..], 128);
      } else {
        Close(used, bits);
        ShortTail(rest, n, bits, k);
        OneTail(f, w, buf[..], 128);
      }
      h := f(h, buf[..]);
    }

    method BitLength() returns (bits: u64)
      requires Valid()
      ensures bits == 8 * |msg| % W64
    {
      bits := (total + used) % W64 * 8 % W64;
      BitCount(|msg| - used, used);
    }

    method Finish(bits: u64, ghost k: nat) returns (out: seq<byte>)
      requires buf.Length == 128 && used < 128 && |msg| == k * 128 + used && bits == 8 * |msg| % W64
      requires h == Folded(f, Start512(), msg[..k * 128], 128) && buf[..used] == msg[k * 128..]
      modifies this`h, this`used, buf
      ensures out == WordBytes(WordList(Counted(f, Start512(), msg, 128, 16)), 8)
    {
      hide Folded, WordBytes, Counted, Tail, WordList, Start512;
      TailFinishes(f, Start512(), msg, 128, 16, k);
      Pad(bits, |msg|, k);
      out := Emit(h, 8);
    }

    /** `final`: the digest of everything passed to `Update`, however it was split. */
    method Final() returns (out: seq<byte>)
      requires Valid()
      modifies this`h, this`used, buf
      ensures out == WordBytes(WordList(Counted(f, Start512(), msg, 128, 16)), 8)
    {
      hide Folded, WordBytes, Counted, WordList, Start512;
      var bits := BitLength();
      ghost var k := (|msg| - used) / 128;
      assert |msg| - used == k * 128;
      out := Finish(bits, k);
    }
  }

  /** The padding of a rest that leaves room for it. */
  lemma ShortTail(rest: seq<byte>, n: nat, bits: u64, k: nat)
    requires |rest| <= 111 && n == k * 128 + |rest| && bits == 8 * n % W64
    ensures rest + [0x80] + Zeros(120 - (|rest| + 1)) + BigEndian(bits, 8) == Tail(rest, n, 128, 16)
  {
    Zeros512(n, |rest|, k);
    BigEndian512(bits);
    var z := ZeroCount(n, 128, 16);
    assert Zeros(z) + Zeros(8) == Zeros(120 - (|rest| + 1));
    hide ZeroCount, BigEndian, Zeros;
    assert Padding(n, bits, 128, 16) == [0x80] + Zeros(z) + (Zeros(8) + BigEndian(bits, 8));
  }

  /** The padding of a rest that spills into a second block. */
  lemma LongTail(rest: seq<byte>, n: nat, bits: u64, k: nat)
    requires 112 <= |rest| < 128 && n == k * 128 + |rest| && bits == 8 * n % W64
    ensures (rest + [0x80] + Zeros(128 - (|rest| + 1))) + ([] + Zeros(120) + BigEndian(bits, 8)) == Tail(rest, n, 128, 16)
  {
    Zeros512(n, |rest|, k);
    BigEndian512(bits);
    var z := ZeroCount(n, 128, 16);
    assert Zeros(z) + Zeros(8) == Zeros(128 - (|rest| + 1)) + Zeros(120);
    hide ZeroCount, BigEndian, Zeros;
    assert Padding(n, bits, 128, 16) == [0x80] + Zeros(z) + (Zeros(8) + BigEndian(bits, 8));
  }

  lemma CountBits(n: nat, used: nat, m: int)
    requires m > 0
    ensures (n % m + used) % m * 8 % m == 8 * (n + used) % m
  {
    CongMod(n, m);
    CongRefl(used, m);
    CongAdd(n % m, n, used, used, m);
    CongMod(n % m + used, m);
    CongTrans((n % m + used) % m, n % m + used, n + used, m);
    CongRefl(8, m);
    CongMul((n % m + used) % m, n + used, 8, 8, m);
    CongIffMod((n % m + used) % m * 8, (n + used) * 8, m);
  }

  lemma BitCount(n: nat, used: nat)
    ensures (n % W64 + used) % W64 * 8 % W64 == 8 * (n + used) % W64
  {
    CountBits(n, used, W64);
  }

  lemma Zeros512(n: nat, u: nat, k: nat)
    requires u < 128 && n == k * 128 + u
    ensures ZeroCount(n, 128, 16) == if u <= 111 then 111 - u else 239 - u
  {
  }

  lemma BigEndian512(bits: u64)
    ensures BigEndian(bits, 16) == Zeros(8) + BigEndian(bits, 8)
  {
    Pow8And16();
    BigEndianWide(bits, 8, 8);
  }

  /** Below 2^61 bytes the contexts hash what FIPS 180-4 says. */
  lemma CountedIsFips(f: Compression, w: Words, m: seq<byte>, size: nat, tail: nat)
    requires size > 1 && |m| < 0x2000_0000_0000_0000
    ensures Counted(f, w, m, size, tail) == Fips(f, w, m, size, tail)
  {
    assert 8 * |m| % W64 == 8 * |m|;
  }

  // ---------------------------------------------------------------- SHA-256

  class Sha256 {
    const f: Compression
    var state: Words
    const data: array<byte>
    var bitLength: u64
    var dataLength: nat
    ghost var msg: seq<byte>   // everything passed to Update so far

    ghost predicate Valid()
      reads this, data
    {
      && data.Length == 64 && dataLength < 64 && dataLength <= |msg| && (|msg| - dataLength) % 64 == 0
      && bitLength == 8 * (|msg| - dataLength) % W64
      && state == Folded(f, Start256(), msg[..|msg| - dataLength], 64)
      && data[..dataLength] == msg[|msg| - dataLength..]
    }

    constructor (c: Compression)
      ensures Valid() && f == c && msg == [] && fresh(data)
    {
      f := c;
      state := Start256();
      data := new byte[64](_ => 0);
      bitLength, dataLength := 0, 0;
      msg := [];
    }

    /** A full buffer goes through. */
    method Process(ghost whole: seq<byte>)
      requires data.Length == 64 && |whole| % 64 == 0 && bitLength == 8 * |whole| % W64
      requires state == Folded(f, Start256(), whole, 64)
      modifies this`state, this`bitLength, this`dataLength
      ensures dataLength == 0 && bitLength == 8 * (|whole| + 64) % W64
      ensures state == Folded(f, Start256(), whole + data[..], 64)
    {
      hide Folded, Start256;
      assert |whole| == |whole| / 64 * 64;
      AnotherBlock(f, Start256(), whole, data[..], 64, |whole| / 64);
      state := f(state, data[..]);
      AddBits(|whole|, 64, W64);
      bitLength := (bitLength + 512) % W64;
      dataLength := 0;
    }

    /** The body of the loop of `sha256_update`. */
    method Absorb(x: byte)
      requires Valid()
      modifies this`state, this`bitLength, this`dataLength, this`msg, data
      ensures Valid() && msg == old(msg) + [x]
    {
      hide Folded, Start256;
      ghost var whole := msg[..|msg| - dataLength];
      ghost var rest := data[..dataLength];
      ghost var more := msg + [x];
      data[dataLength] := x;
      dataLength := dataLength + 1;
      assert data[..dataLength] == rest + [x];
      assert more[|whole|..] == msg[|whole|..] + [x] && more[..|whole|] == whole;
      msg := more;
      if dataLength == 64 {
        assert data[..] == data[..64];
        assert whole + data[..] == msg;
        Process(whole);
        assert msg[..|msg| - 0] == msg;
        assert data[..0] == [];
      }
    }

    method Update(m: seq<byte>)
      requires Valid()
      modifies this`state, this`bitLength, this`dataLength, this`msg, data
      ensures Valid() && msg == old(msg) + m
    {
      assert old(msg) + m[..0] == old(msg);
      for i := 0 to |m|
        invariant Valid() && msg == old(msg) + m[..i]
      {
        Absorb(m[i]);
        assert m[..i + 1] == m[..i] + [m[i]];
      }
      assert m[..|m|] == m;
    }

    /** The one bit, a full block, and zeros up to the length field of the next. */
    method Spill()
      requires data.Length == 64 && 56 <= dataLength < 64
      modifies this`state, data
      ensures state == f(old(state), old(data[..dataLength]) + [0x80] + Zeros(63 - dataLength))
      ensures data[..56] == Zeros(56)
    {
      ghost var rest := data[..dataLength];
      var i := dataLength;
      data[i] := 0x80;
      i := i + 1;
      assert data[..i] == rest + [0x80];
      ZeroTo(data, i, 64);
      assert data[..] == data[..64];
      state := f(state, data[..]);
      ZeroTo(data, 0, 56);
      assert data[..0] == [] && [] + Zeros(56) == Zeros(56);
    }

    /** The blocks `sha256_final` puts through: the rest of the message, padded. */
    method Pad(bits: u64, ghost n: nat, ghost k: nat)
      requires data.Length == 64 && dataLength < 64 && n == k * 64 + dataLength && bits == 8 * n % W64
      modifies this`state, data
      ensures state == Folded(f, old(state), Tail(old(data[..dataLength]), n, 64, 8), 64)
    {
      hide Folded, Tail, Zeros, BigEndian;
      ghost var rest, w := data[..dataLength], state;
      if dataLength < 56 {
        var i := dataLength;
        data[i] := 0x80;
        i := i + 1;
        assert data[..i] == rest + [0x80];
        ZeroTo(data, i, 56);
        StoreLength(data, 56, bits, 8);
        assert data[..] == data[..64];
        ShortTail256(rest, n, bits, k);
        OneTail(f, w, data[..], 64);
      } else {
        Spill();
        StoreLength(data, 56, bits, 8);
        assert data[..] == data[..64];
        LongTail256(rest, n, bits, k);
        TwoTails(f, w, rest + [0x80] + Zeros(63 - |rest|), data[..], 64);
      }
      state := f(state, data[..]);
    }

    method Finish(ghost k: nat) returns (out: seq<byte>)
      requires data.Length == 64 && dataLength < 64 && |msg| == k * 64 + dataLength && bitLength == 8 * |msg| % W64
      requires state == Folded(f, Start256(), msg[..k * 64], 64) && data[..dataLength] == msg[k * 64..]
      modifies this`state, data
      ensures out == WordBytes(WordList(Counted(f, Start256(), msg, 64, 8)), 4)
    {
      hide Folded, WordBytes, Counted, Tail, WordList, Start256;
      TailFinishes(f, Start256(), msg, 64, 8, k);
      Pad(bitLength, |msg|, k);
      out := Emit(state, 4);
    }

    /** `sha256_final`. */
    method Final() returns (out: seq<byte>)
      requires Valid()
      modifies this`state, this`bitLength, data
      ensures out == WordBytes(WordList(Counted(f, Start256(), msg, 64, 8)), 4)
    {
      hide Folded, WordBytes, Counted, WordList, Start256;
      ghost var k := (|msg| - dataLength) / 64;
      assert |msg| - dataLength == k * 64;
      AddBits(|msg| - dataLength, dataLength, W64);
      bitLength := (bitLength + dataLength * 8) % W64;
      out := Finish(k);
    }
  }

  lemma AddBits(n: nat, u: nat, m: int)
    requires m > 0
    ensures (8 * n % m + u * 8) % m == 8 * (n + u) % m
  {
    CongMod(8 * n, m);
    CongRefl(u * 8, m);
    CongAdd(8 * n % m, 8 * n, u * 8, u * 8, m);
    CongIffMod(8 * n % m + u * 8, 8 * n + u * 8, m);
  }

  lemma Zeros256(n: nat, u: nat, k: nat)
    requires u < 64 && n == k * 64 + u
    ensures ZeroCount(n, 64, 8) == if u <= 55 then 55 - u else 119 - u
  {
  }

  lemma ShortTail256(rest: seq<byte>, n: nat, bits: u64, k: nat)
    requires |rest| <= 55 && n == k * 64 + |rest| && bits == 8 * n % W64
    ensures rest + [0x80] + Zeros(56 - (|rest| + 1)) + BigEndian(bits, 8) == Tail(rest, n, 64, 8)
  {
    Zeros256(n, |rest|, k);
    hide ZeroCount, BigEndian, Zeros;
    assert Padding(n, bits, 64, 8) == [0x80] + Zeros(55 - |rest|) + BigEndian(bits, 8);
  }

  lemma LongTail256(rest: seq<byte>, n: nat, bits: u64, k: nat)
    requires 56 <= |rest| < 64 && n == k * 64 + |rest| && bits == 8 * n % W64
    ensures (rest + [0x80] + Zeros(63 - |rest|)) + (Zeros(56) + BigEndian(bits, 8)) == Tail(rest, n, 64, 8)
  {
    Zeros256(n, |rest|, k);
    assert Zeros(119 - |rest|) == Zeros(63 - |rest|) + Zeros(56);
    hide ZeroCount, BigEndian, Zeros;
    assert Padding(n, bits, 64, 8) == [0x80] + Zeros(119 - |rest|) + BigEndian(bits, 8);
  }
}
