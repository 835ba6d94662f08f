/** The ChaCha20 stream cipher (include/keylight/chacha20poly1305.hpp:20-89; RFC 8439, sections 2.1 to 2.4). */
module ChaCha {
  import opened Limbs
  import opened Bits
  import PolyMath

  const W: int := 0x1_0000_0000

  /** Rotation by k bits, with `up` = 2^k and `down` = 2^(32 - k). */
  function Rotl(x: u32, up: int, down: int): (y: u32)
    requires down > 0 && up * down == W
  {
    RotlBound(x, x % down, x / down, up, down);
    x % down * up + x / down
  }

  lemma RotlBound(x: int, low: int, high: int, up: int, down: int)
    requires 0 <= x < up * down && x == high * down + low && 0 <= low < down
    ensures 0 <= low * up + high < up * down
  {
    QuotientBelow(high, up, down, low);
    BoundStep(high, low, up, down);
  }

  lemma QuotientBelow(q: int, n: int, d: int, r: int)
    requires 0 <= q * d + r < n * d && 0 <= r < d
    ensures 0 <= q < n
  {
    assert q >= n ==> (q - n) * d >= 0;
    assert q < 0 ==> (-1 - q) * d >= 0;
  }

  function Add32(a: u32, b: u32): (c: u32) {
    (a + b) % W
  }

  /** Four words of the state stirred: rotations by 16, 12, 8 and 7 bits. */
  function QuarterRound(s: seq<u32>, a: nat, b: nat, c: nat, d: nat): (t: seq<u32>)
    requires |s| == 16 && a < 16 && b < 16 && c < 16 && d < 16
    ensures |t| == 16
  {
    hide Xor32, Rotl;
    var s := s[a := Add32(s[a], s[b])];
    var s := s[d := Rotl(Xor32(s[d], s[a]), 0x1_0000, 0x1_0000)];
    var s := s[c := Add32(s[c], s[d])];
    var s := s[b := Rotl(Xor32(s[b], s[c]), 0x1000, 0x10_0000)];
    var s := s[a := Add32(s[a], s[b])];
    var s := s[d := Rotl(Xor32(s[d], s[a]), 0x100, 0x100_0000)];
    var s := s[c := Add32(s[c], s[d])];
    s[b := Rotl(Xor32(s[b], s[c]), 0x80, 0x200_0000)]
  }

  /** A column round and a diagonal round. */
  function DoubleRound(x: seq<u32>): (y: seq<u32>)
    requires |x| == 16
    ensures |y| == 16
  {
    hide QuarterRound;
    var x := QuarterRound(x, 0, 4, 8, 12);
    var x := QuarterRound(x, 1, 5, 9, 13);
    var x := QuarterRound(x, 2, 6, 10, 14);
    var x := QuarterRound(x, 3, 7, 11, 15);
    var x := QuarterRound(x, 0, 5, 10, 15);
    var x := QuarterRound(x, 1, 6, 11, 12);
    var x := QuarterRound(x, 2, 7, 8, 13);
    QuarterRound(x, 3, 4, 9, 14)
  }

  function Rounds(x: seq<u32>, n: nat): (y: seq<u32>)
    requires |x| == 16
    ensures |y| == 16
  {
    if n == 0 then x else DoubleRound(Rounds(x, n - 1))
  }

  function Start(key: seq<byte>, counter: u32, nonce: seq<byte>): (s: seq<u32>)
    requires |key| == 32 && |nonce| == 12
    ensures |s| == 16
  {
    [0x61707865, 0x3320646e, 0x79622d32, 0x6b206574,
     PolyMath.Load32(key, 0), PolyMath.Load32(key, 4), PolyMath.Load32(key, 8), PolyMath.Load32(key, 12),
     PolyMath.Load32(key, 16), PolyMath.Load32(key, 20), PolyMath.Load32(key, 24), PolyMath.Load32(key, 28),
     counter, PolyMath.Load32(nonce, 0), PolyMath.Load32(nonce, 4), PolyMath.Load32(nonce, 8)]
  }

  /** The words of `x` plus those of `s`, stored little-endian. */
  function Output(x: seq<u32>, s: seq<u32>): (o: seq<byte>)
    requires |x| == |s|
    ensures |o| == 4 * |x|
  {
    if |x| == 0 then [] else PolyMath.Store32(Add32(x[0], s[0])) + Output(x[1..], s[1..])
  }

  /** One 64-byte keystream block. */
  function Block(key: seq<byte>, counter: u32, nonce: seq<byte>): (o: seq<byte>)
    requires |key| == 32 && |nonce| == 12
    ensures |o| == 64
  {
    hide Start, Rounds;
    var s := Start(key, counter, nonce);
    Output(Rounds(s, 10), s)
  }

  // ---------------------------------------------------------------- the stream

  /** Byte `i` of the keystream that starts at block `counter`; the block number is 32 bits wide. */
  function KeyByte(key: seq<byte>, counter: u32, nonce: seq<byte>, i: nat): (k: byte)
    requires |key| == 32 && |nonce| == 12
  {
    Block(key, (counter + i / 64) % W, nonce)[i % 64]
  }

  ghost function Stream(key: seq<byte>, counter: u32, nonce: seq<byte>, m: seq<byte>): (c: seq<byte>)
    requires |key| == 32 && |nonce| == 12
    ensures |c| == |m|
    ensures forall i :: 0 <= i < |m| ==> c[i] == Xor8(m[i], KeyByte(key, counter, nonce, i))
  {
    seq(|m|, i requires 0 <= i < |m| => Xor8(m[i], KeyByte(key, counter, nonce, i)))
  }

  /** RFC 8439 section 2.4.1: a whole block under the current one, and the rest from the next one on. */
  lemma StreamByBlocks(key: seq<byte>, counter: u32, nonce: seq<byte>, m: seq<byte>)
    requires |key| == 32 && |nonce| == 12 && |m| >= 64
    ensures var c := Stream(key, counter, nonce, m);
      && c[64..] == Stream(key, (counter + 1) % 0x1_0000_0000, nonce, m[64..])
      && forall i :: 0 <= i < 64 ==> c[i] == Xor8(m[i], Block(key, counter, nonce)[i])
  {
    hide Block, Xor8;
    var c, d := Stream(key, counter, nonce, m), Stream(key, (counter + 1) % W, nonce, m[64..]);
    forall i | 0 <= i < |d|
      ensures c[64..][i] == d[i]
    {
      NextByte(counter, i);
    }
  }

  lemma NextByte(counter: u32, i: nat)
    ensures (64 + i) % 64 == i % 64 && (counter + (64 + i) / 64) % W == ((counter + 1) % W + i / 64) % W
  {
    assert (64 + i) / 64 == 1 + i / 64;
    assert ((counter + 1) % W + i / 64) % W == (counter + 1 + i / 64) % W;
  }

  // ---------------------------------------------------------------- the block

  /** The words of a state, little-endian. */
  ghost function Serialized(s: seq<u32>): (o: seq<byte>)
    ensures |o| == 4 * |s|
  {
    if |s| == 0 then [] else PolyMath.Store32(s[0]) + Serialized(s[1..])
  }

  /** The text every state starts with. */
  function Ascii(t: string): (s: seq<byte>)
    requires forall i :: 0 <= i < |t| ==> t[i] < 128 as char
    ensures |s| == |t|
  {
    seq(|t|, i requires 0 <= i < |t| => t[i] as int)
  }

  lemma LoadStores(m: seq<byte>, at: nat)
    requires at + 4 <= |m|
    ensures PolyMath.Store32(PolyMath.Load32(m, at)) == m[at..at + 4]
  {
    var w := m[at..at + 4];
    Horner4(w, 256);
    ValInjective(PolyMath.Store32(PolyMath.Load32(m, at)), w, 256);
  }

  lemma {:induction false} SerializedConcat(s: seq<u32>, t: seq<u32>)
    ensures Serialized(s + t) == Serialized(s) + Serialized(t)
  {
    if |s| == 0 {
      assert s + t == t;
    } else {
      assert (s + t)[1..] == s[1..] + t;
      SerializedConcat(s[1..], t);
    }
  }

  /** The little-endian words of some bytes. */
  ghost function LoadedWords(m: seq<byte>): (s: seq<u32>)
    requires |m| % 4 == 0
    ensures |s| == |m| / 4
  {
    if |m| == 0 then [] else [PolyMath.Load32(m, 0)] + LoadedWords(m[4..])
  }

  lemma {:induction false} LoadedSerialized(m: seq<byte>)
    requires |m| % 4 == 0
    ensures Serialized(LoadedWords(m)) == m
  {
    hide PolyMath.Store32, PolyMath.Load32;
    if |m| > 0 {
      LoadedSerialized(m[4..]);
      LoadStores(m, 0);
      assert m == m[0..4] + m[4..];
    }
  }

  lemma {:induction false} LoadedAt(m: seq<byte>, i: nat)
    requires |m| % 4 == 0 && i < |m| / 4
    ensures LoadedWords(m)[i] == PolyMath.Load32(m, 4 * i)
  {
    if i > 0 {
      LoadedAt(m[4..], i - 1);
    }
  }

  /** "expand 32-byte k" in ASCII. */
  function Sigma(): (t: seq<byte>)
    ensures |t| == 16
  {
    ['e' as int, 'x' as int, 'p' as int, 'a' as int, 'n' as int, 'd' as int, ' ' as int, '3' as int,
     '2' as int, '-' as int, 'b' as int, 'y' as int, 't' as int, 'e' as int, ' ' as int, 'k' as int]
  }

  lemma KeyWords(key: seq<byte>)
    requires |key| == 32
    ensures LoadedWords(key) ==
      [PolyMath.Load32(key, 0), PolyMath.Load32(key, 4), PolyMath.Load32(key, 8), PolyMath.Load32(key, 12),
       PolyMath.Load32(key, 16), PolyMath.Load32(key, 20), PolyMath.Load32(key, 24), PolyMath.Load32(key, 28)]
  {
    hide PolyMath.Load32, LoadedWords;
    LoadedAt(key, 0);
    LoadedAt(key, 1);
    LoadedAt(key, 2);
    LoadedAt(key, 3);
    LoadedAt(key, 4);
    LoadedAt(key, 5);
    LoadedAt(key, 6);
    LoadedAt(key, 7);
  }

  lemma NonceWords(nonce: seq<byte>)
    requires |nonce| == 12
    ensures LoadedWords(nonce) == [PolyMath.Load32(nonce, 0), PolyMath.Load32(nonce, 4), PolyMath.Load32(nonce, 8)]
  {
    hide PolyMath.Load32, LoadedWords;
    LoadedAt(nonce, 0);
    LoadedAt(nonce, 1);
    LoadedAt(nonce, 2);
  }

  lemma SigmaWords()
    ensures LoadedWords(Sigma()) == [0x61707865, 0x3320646e, 0x79622d32, 0x6b206574]
  {
    var t := Sigma();
    assert PolyMath.Load32(t, 0) == 0x61707865 && PolyMath.Load32(t, 4) == 0x3320646e;
    assert PolyMath.Load32(t, 8) == 0x79622d32 && PolyMath.Load32(t, 12) == 0x6b206574;
    hide PolyMath.Load32, LoadedWords, Sigma;
    LoadedAt(t, 0);
    LoadedAt(t, 1);
    LoadedAt(t, 2);
    LoadedAt(t, 3);
  }

  /** RFC 8439 section 2.3: a fixed text, the key, the counter and the nonce, in this order. */
  lemma StartSpells(key: seq<byte>, counter: u32, nonce: seq<byte>)
    requires |key| == 32 && |nonce| == 12
    ensures Serialized(Start(key, counter, nonce)) == Sigma() + key + Bytes(counter, 4) + nonce
  {
    hide PolyMath.Store32, PolyMath.Load32, Start, LoadedWords, Sigma, Bytes;
    var a, b, c := LoadedWords(Sigma()), LoadedWords(key), LoadedWords(nonce);
    StartWords(key, counter, nonce);
    LoadedSerialized(Sigma());
    LoadedSerialized(key);
    LoadedSerialized(nonce);
    SerializedConcat(a + b + [counter], c);
    SerializedConcat(a + b, [counter]);
    SerializedConcat(a, b);
    assert Serialized([counter]) == PolyMath.Store32(counter) + Serialized([]);
    StoredBytes(counter);
  }

  lemma StartWords(key: seq<byte>, counter: u32, nonce: seq<byte>)
    requires |key| == 32 && |nonce| == 12
    ensures Start(key, counter, nonce) == LoadedWords(Sigma()) + LoadedWords(key) + [counter] + LoadedWords(nonce)
  {
    hide PolyMath.Load32, LoadedWords, Sigma;
    KeyWords(key);
    NonceWords(nonce);
    SigmaWords();
  }

  lemma StoredBytes(v: u32)
    ensures PolyMath.Store32(v) == Bytes(v, 4)
  {
    BytesUnique(PolyMath.Store32(v), v);
  }

  /** Word `i` of a block is that of the start plus that of what twenty rounds make of it. */
  ghost predicate BlockWord(key: seq<byte>, counter: u32, nonce: seq<byte>, i: nat)
    requires |key| == 32 && |nonce| == 12 && i < 16
  {
    hide Rounds, Start, Block;
    var s := Start(key, counter, nonce);
    var x := Rounds(s, 10);
    Val(Block(key, counter, nonce)[4 * i..4 * i + 4], 256) == (x[i] as int + s[i]) % 0x1_0000_0000
  }

  lemma BlockSpells(key: seq<byte>, counter: u32, nonce: seq<byte>, i: nat)
    requires |key| == 32 && |nonce| == 12 && i < 16
    ensures BlockWord(key, counter, nonce, i)
  {
    hide Rounds, Start, Output, PolyMath.Store32, Bytes;
    var s := Start(key, counter, nonce);
    OutputWord(Rounds(s, 10), s, i);
  }

  lemma {:induction false} OutputWord(x: seq<u32>, s: seq<u32>, i: nat)
    requires |x| == |s| && i < |x|
    ensures Output(x, s)[4 * i..4 * i + 4] == PolyMath.Store32(Add32(x[i], s[i]))
  {
    hide PolyMath.Store32, Add32;
    if i > 0 {
      OutputWord(x[1..], s[1..], i - 1);
      var o := Output(x[1..], s[1..]);
      assert Output(x, s) == PolyMath.Store32(Add32(x[0], s[0])) + o;
      assert Output(x, s)[4 * i..4 * i + 4] == o[4 * (i - 1)..4 * (i - 1) + 4];
    }
  }

  // ---------------------------------------------------------------- the rounds

  /** Rotation left by `k` bits. */
  ghost function RotateBy(x: u32, k: nat): (y: int)
    requires k < 32
  {
    PowPositive(2, 32 - k);
    x % Pow(2, 32 - k) * Pow(2, k) + x / Pow(2, 32 - k)
  }

  lemma RotatedParts(x: u32, k: nat) returns (low: nat, high: nat)
    requires 0 < k < 32
    ensures low < Pow(2, 32 - k) && high < Pow(2, k)
    ensures x == low + Pow(2, 32 - k) * high && RotateBy(x, k) == high + Pow(2, k) * low
  {
    var up, down := Pow(2, k), Pow(2, 32 - k);
    PowPositive(2, k);
    PowPositive(2, 32 - k);
    Pow2Eight();
    PowAdd(2, k, 32 - k);
    low, high := Divided(x, down);
    QuotientBelow(high, up, down, low);
  }

  lemma Divided(x: nat, d: int) returns (low: nat, high: nat)
    requires d > 0
    ensures low == x % d < d && high == x / d && x == high * d + low
  {
    low, high := x % d, x / d;
  }

  /** Bit `i` moves up `k` places, around the end. */
  lemma RotateMovesBits(x: u32, k: nat, i: nat)
    requires 0 < k < 32 && i < 32
    ensures RotateBy(x, k) >= 0
    ensures BitAt(RotateBy(x, k), if i + k < 32 then i + k else i + k - 32) == BitAt(x, i)
  {
    var low, high := RotatedParts(x, k);
    hide Pow, BitAt, RotateBy;
    BitsJoin(high, low, k, if i + k < 32 then i + k else i + k - 32);
    BitsJoin(low, high, 32 - k, i);
  }

  /** The words of RFC 8439 section 2.1, step by step. */
  ghost predicate Stirred(a: u32, b: u32, c: u32, d: u32, a': u32, b': u32, c': u32, d': u32) {
    var a1 := (a + b) % 0x1_0000_0000;
    var d1 := RotateBy(Xor32(d, a1), 16);
    var c1 := (c + d1) % 0x1_0000_0000;
    0 <= d1 < 0x1_0000_0000 &&
    var b1 := RotateBy(Xor32(b, c1), 12);
    0 <= b1 < 0x1_0000_0000 &&
    a' == (a1 + b1) % 0x1_0000_0000 &&
    var d2 := RotateBy(Xor32(d1, a'), 8);
    d' == d2 && 0 <= d2 < 0x1_0000_0000 &&
    c' == (c1 + d2) % 0x1_0000_0000 && b' == RotateBy(Xor32(b1, c'), 7)
  }

  lemma RotlRotates(x: u32)
    ensures Rotl(x, 0x1_0000, 0x1_0000) == RotateBy(x, 16) && Rotl(x, 0x1000, 0x10_0000) == RotateBy(x, 12)
    ensures Rotl(x, 0x100, 0x100_0000) == RotateBy(x, 8) && Rotl(x, 0x80, 0x200_0000) == RotateBy(x, 7)
  {
    PowersOfTwo();
    hide Pow;
  }

  lemma PowersOfTwo()
    ensures Pow(2, 7) == 0x80 && Pow(2, 8) == 0x100 && Pow(2, 12) == 0x1000 && Pow(2, 16) == 0x1_0000
    ensures Pow(2, 20) == 0x10_0000 && Pow(2, 24) == 0x100_0000 && Pow(2, 25) == 0x200_0000
  {
    PowAdd(2, 3, 4);
    PowAdd(2, 4, 4);
    PowAdd(2, 4, 8);
    PowAdd(2, 8, 8);
    PowAdd(2, 4, 16);
    PowAdd(2, 8, 16);
    PowAdd(2, 1, 24);
  }

  /** A quarter round stirs its four words and no other. */
  lemma QuarterRoundSpells(s: seq<u32>, a: nat, b: nat, c: nat, d: nat)
    requires |s| == 16 && a < 16 && b < 16 && c < 16 && d < 16
    requires a != b && a != c && a != d && b != c && b != d && c != d
    ensures var t := QuarterRound(s, a, b, c, d);
      && Stirred(s[a], s[b], s[c], s[d], t[a], t[b], t[c], t[d])
      && forall i :: 0 <= i < 16 && i != a && i != b && i != c && i != d ==> t[i] == s[i]
  {
    hide Xor32, Rotl, RotateBy;
    var a1 := Add32(s[a], s[b]);
    RotlRotates(Xor32(s[d], a1));
    var d1 := Rotl(Xor32(s[d], a1), 0x1_0000, 0x1_0000);
    var c1 := Add32(s[c], d1);
    RotlRotates(Xor32(s[b], c1));
    var b1 := Rotl(Xor32(s[b], c1), 0x1000, 0x10_0000);
    var a2 := Add32(a1, b1);
    RotlRotates(Xor32(d1, a2));
    var d2 := Rotl(Xor32(d1, a2), 0x100, 0x100_0000);
    RotlRotates(Xor32(b1, Add32(c1, d2)));
  }

  /** The state read as four rows of four words: each column is stirred. */
  ghost predicate ColumnsStirred(x: seq<u32>, y: seq<u32>)
    requires |x| == 16 && |y| == 16
  {
    forall j :: 0 <= j < 4 ==> ColumnStirred(x, y, j)
  }

  ghost predicate ColumnStirred(x: seq<u32>, y: seq<u32>, j: nat)
    requires |x| == 16 && |y| == 16 && j < 4
  {
    Stirred(x[j], x[4 + j], x[8 + j], x[12 + j], y[j], y[4 + j], y[8 + j], y[12 + j])
  }

  /** Row `r` rotated left by `r` places, which turns diagonals into columns. */
  ghost function Slanted(x: seq<u32>): (y: seq<u32>)
    requires |x| == 16
    ensures |y| == 16
  {
    [x[0], x[1], x[2], x[3], x[5], x[6], x[7], x[4], x[10], x[11], x[8], x[9], x[15], x[12], x[13], x[14]]
  }

  lemma SlantedRows(x: seq<u32>, r: nat, j: nat)
    requires |x| == 16 && r < 4 && j < 4
    ensures Slanted(x)[4 * r + j] == x[4 * r + (j + r) % 4]
  {
  }

  /** RFC 8439 section 2.3: a column round, and then a column round of the slanted state. */
  lemma DoubleRoundSpells(x: seq<u32>)
    requires |x| == 16
    ensures exists y :: |y| == 16 && ColumnsStirred(x, y) && ColumnsStirred(Slanted(y), Slanted(DoubleRound(x)))
  {
    hide Stirred, QuarterRound;
    var x1 := QuarterRound(x, 0, 4, 8, 12);
    QuarterRoundSpells(x, 0, 4, 8, 12);
    var x2 := QuarterRound(x1, 1, 5, 9, 13);
    QuarterRoundSpells(x1, 1, 5, 9, 13);
    var x3 := QuarterRound(x2, 2, 6, 10, 14);
    QuarterRoundSpells(x2, 2, 6, 10, 14);
    var y := QuarterRound(x3, 3, 7, 11, 15);
    QuarterRoundSpells(x3, 3, 7, 11, 15);
    assert ColumnsStirred(x, y);
    Diagonals(y);
  }

  lemma Diagonals(y: seq<u32>)
    requires |y| == 16
    ensures var y1 := QuarterRound(QuarterRound(y, 0, 5, 10, 15), 1, 6, 11, 12);
      ColumnsStirred(Slanted(y), Slanted(QuarterRound(QuarterRound(y1, 2, 7, 8, 13), 3, 4, 9, 14)))
  {
    hide Stirred, QuarterRound;
    var y1 := QuarterRound(y, 0, 5, 10, 15);
    QuarterRoundSpells(y, 0, 5, 10, 15);
    var y2 := QuarterRound(y1, 1, 6, 11, 12);
    QuarterRoundSpells(y1, 1, 6, 11, 12);
    var y3 := QuarterRound(y2, 2, 7, 8, 13);
    QuarterRoundSpells(y2, 2, 7, 8, 13);
    QuarterRoundSpells(y3, 3, 4, 9, 14);
  }

  /** Applying the stream twice gives the message back, whatever its length. */
  lemma StreamTwice(key: seq<byte>, counter: u32, nonce: seq<byte>, m: seq<byte>)
    requires |key| == 32 && |nonce| == 12
    ensures Stream(key, counter, nonce, Stream(key, counter, nonce, m)) == m
  {
    hide KeyByte, Xor8;
    var c := Stream(key, counter, nonce, m);
    var d := Stream(key, counter, nonce, c);
    forall i | 0 <= i < |m|
      ensures d[i] == m[i]
    {
      Xor8Twice(m[i], KeyByte(key, counter, nonce, i));
    }
  }

  /** `chacha20_xor`, over the first `len` bytes; `out` may be `in_`. */
  method ChaChaXor(key: seq<byte>, counter: u32, nonce: seq<byte>, in_: array<byte>, len: nat, out: array<byte>)
    requires |key| == 32 && |nonce| == 12 && len <= in_.Length && len <= out.Length
    modifies out
    ensures out[..len] == Stream(key, counter, nonce, old(in_[..len]))
    ensures out[len..] == old(out[len..])
  {
    hide Block, Xor8;
    ghost var m := in_[..len];
    ghost var c := Stream(key, counter, nonce, m);
    ghost var rest := out[len..];
    var off, ctr := 0, counter;
    while off < len
      invariant 0 <= off <= len && (off % 64 == 0 || off == len)
      invariant off % 64 == 0 ==> ctr == (counter + off / 64) % W
      invariant out[..off] == c[..off] && out[len..] == rest
      invariant forall k :: off <= k < len ==> in_[k] == m[k]
    {
      var block := Block(key, ctr, nonce);
      var n := if len - off < 64 then len - off else 64;
      for i := 0 to n
        invariant out[..off + i] == c[..off + i] && out[len..] == rest
        invariant forall k :: off + i <= k < len ==> in_[k] == m[k]
      {
        BlockIndex(off, i);
        out[off + i] := Xor8(in_[off + i], block[i]);
        assert out[..off + i + 1] == out[..off + i] + [c[off + i]];
      }
      NextBlock(off, counter);
      off := off + n;
      ctr := (ctr + 1) % W;
    }
    assert c[..len] == c;
  }

  lemma BlockIndex(off: nat, i: nat)
    requires off % 64 == 0 && i < 64
    ensures (off + i) / 64 == off / 64 && (off + i) % 64 == i
  {
  }

  lemma NextBlock(off: nat, counter: int)
    requires off % 64 == 0
    ensures ((counter + off / 64) % W + 1) % W == (counter + (off + 64) / 64) % W
  {
    var x := counter + off / 64;
    assert (off + 64) / 64 == off / 64 + 1;
    assert (x % W + 1) % W == (x + 1) % W;
  }
}
