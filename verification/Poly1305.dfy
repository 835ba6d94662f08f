/**
 * The Poly1305 one-time authenticator (include/keylight/chacha20poly1305.hpp:91-242): the
 * polynomial of RFC 8439 section 2.5.1 and the buffering class that evaluates it.
 */
module Poly1305 {
  import opened Limbs
  import opened Modular
  import opened PolyMath
  import Bits

  // ---------------------------------------------------------------- the polynomial

  /** r with the bits RFC 8439 clears: the top four of every fourth byte, the bottom two after it. */
  ghost function Clamp(k: seq<byte>): (c: seq<byte>)
    requires |k| == 16
    ensures |c| == 16
  {
    [k[0], k[1], k[2], k[3] % 16, k[4] / 4 * 4, k[5], k[6], k[7] % 16,
     k[8] / 4 * 4, k[9], k[10], k[11] % 16, k[12] / 4 * 4, k[13], k[14], k[15] % 16]
  }

  /** Whole 16-byte blocks of `m` folded into `x`, each with `mark` added: x := (x + block + mark) r. */
  ghost function Fold(r: int, x: int, m: seq<byte>, mark: int): int
    requires |m| % 16 == 0
    decreases |m|
  {
    if |m| == 0 then x
    else MulMod(Fold(r, x, m[..|m| - 16], mark) + (Val(m[|m| - 16..], 256) + mark), r, PP)
  }

  ghost function Whole(n: nat): (k: nat)
    ensures k <= n && k % 16 == 0 && n - k < 16
  {
    n / 16 * 16
  }

  const TWO128: int := 0x1_00000000_00000000_00000000_00000000

  /** RFC 8439 section 2.5.1, before the addition of s. */
  ghost function Accumulator(r: int, msg: seq<byte>): int {
    var n := Whole(|msg|);
    var x := Fold(r, 0, msg[..n], TWO128);
    if n == |msg| then x else MulMod(x + (Val(msg[n..], 256) + Pow(256, |msg| - n)), r, PP)
  }

  /** The tag as a number. */
  ghost function Tag(key: seq<byte>, msg: seq<byte>): int
    requires |key| == 32
  {
    (Accumulator(Val(Clamp(key[..16]), 256), msg) + Val(key[16..], 256)) % TWO128
  }

  lemma {:induction false} FoldConcat(r: int, x: int, a: seq<byte>, b: seq<byte>, mark: int)
    requires |a| % 16 == 0 && |b| % 16 == 0
    ensures Fold(r, Fold(r, x, a, mark), b, mark) == Fold(r, x, a + b, mark)
    decreases |b|
  {
    if |b| == 0 {
      assert a + b == a;
    } else {
      var c := b[..|b| - 16];
      FoldConcat(r, x, a, c, mark);
      assert (a + b)[..|a + b| - 16] == a + c;
      assert (a + b)[|a + b| - 16..] == b[|b| - 16..];
    }
  }

  lemma FoldExtend(r: int, msg: seq<byte>, n: nat, m: seq<byte>)
    requires n % 16 == 0 && |m| % 16 == 0 && n + |m| <= |msg| && m == msg[n..n + |m|]
    ensures Fold(r, Fold(r, 0, msg[..n], TWO128), m, TWO128) == Fold(r, 0, msg[..n + |m|], TWO128)
  {
    hide Fold;
    FoldConcat(r, 0, msg[..n], m, TWO128);
    assert msg[..n] + m == msg[..n + |m|];
  }

  // ---------------------------------------------------------------- what the polynomial is

  /** The blocks of `msg` as little-endian numbers, each with a one byte appended. */
  ghost function Coefficients(msg: seq<byte>): (c: seq<int>)
    decreases |msg|
  {
    if |msg| == 0 then []
    else var n := Whole(|msg| - 1); Coefficients(msg[..n]) + [Val(msg[n..] + [1], 256)]
  }

  /** The sum of `c[i] * r^(|c| - i)`. */
  ghost function PowerSum(r: int, c: seq<int>): int {
    if |c| == 0 then 0 else c[0] * Pow(r, |c|) + PowerSum(r, c[1..])
  }

  lemma {:induction false} PowerSumHorner(r: int, c: seq<int>, x: int)
    ensures PowerSum(r, c + [x]) == (PowerSum(r, c) + x) * r
  {
    if |c| == 0 {
      assert c + [x] == [x] && Pow(r, 1) == r * Pow(r, 0);
    } else {
      assert (c + [x])[1..] == c[1..] + [x];
      PowerSumHorner(r, c[1..], x);
      HornerStep(c[0], Pow(r, |c|), PowerSum(r, c[1..]), x, r);
    }
  }

  lemma HornerStep(a: int, p: int, s: int, x: int, r: int)
    ensures a * (r * p) + (s + x) * r == (a * p + s + x) * r
  {
    assert (a * p) * r == a * (r * p);
  }

  /** A block with its marker. */
  lemma MarkedBlock(b: seq<byte>)
    ensures Val(b + [1], 256) == Val(b, 256) + Pow(256, |b|)
  {
    ValAppend(b, 1, 256);
  }

  lemma Pow256Sixteen()
    ensures Pow(256, 16) == TWO128
  {
    PowAdd(256, 8, 8);
    PowAdd(256, 4, 4);
    assert Pow(256, 4) == 0x1_0000_0000;
  }

  /** The fold of whole blocks is the polynomial in their coefficients. */
  lemma {:induction false} FoldIsPolynomial(r: int, m: seq<byte>)
    requires |m| % 16 == 0
    ensures Cong(Fold(r, 0, m, TWO128), PowerSum(r, Coefficients(m)), PP)
    decreases |m|
  {
    if |m| == 0 {
      CongRefl(0, PP);
    } else {
      var n := |m| - 16;
      assert Whole(|m| - 1) == n;
      FoldIsPolynomial(r, m[..n]);
      MarkedBlock(m[n..]);
      Pow256Sixteen();
      hide Fold, PowerSum, Coefficients;
      StepIsPolynomial(r, Fold(r, 0, m[..n], TWO128), Coefficients(m[..n]), Val(m[n..] + [1], 256), PP);
      FoldEnd(r, m);
      CoefficientsLast(m);
    }
  }

  lemma FoldEnd(r: int, m: seq<byte>)
    requires |m| % 16 == 0 && |m| > 0
    ensures Fold(r, 0, m, TWO128)
      == MulMod(Fold(r, 0, m[..|m| - 16], TWO128) + (Val(m[|m| - 16..], 256) + TWO128), r, PP)
  {
  }

  lemma CoefficientsLast(m: seq<byte>)
    requires |m| > 0
    ensures var n := Whole(|m| - 1); Coefficients(m) == Coefficients(m[..n]) + [Val(m[n..] + [1], 256)]
  {
  }

  lemma StepIsPolynomial(r: int, x: int, c: seq<int>, y: int, m: int)
    requires m > 0 && Cong(x, PowerSum(r, c), m)
    ensures Cong(MulMod(x + y, r, m), PowerSum(r, c + [y]), m)
  {
    CongRefl(y, m);
    CongRefl(r, m);
    CongAdd(x, PowerSum(r, c), y, y, m);
    MulModCong(x + y, PowerSum(r, c) + y, r, r, m);
    PowerSumHorner(r, c, y);
  }

  lemma AccumulatorEnd(r: int, msg: seq<byte>)
    requires |msg| % 16 != 0
    ensures var n := Whole(|msg|);
      && n == Whole(|msg| - 1)
      && Accumulator(r, msg) == MulMod(Fold(r, 0, msg[..n], TWO128) + Val(msg[n..] + [1], 256), r, PP)
  {
    hide Fold, Val, MulMod;
    MarkedBlock(msg[Whole(|msg|)..]);
  }

  lemma AccumulatorWhole(r: int, msg: seq<byte>)
    requires |msg| % 16 == 0
    ensures Accumulator(r, msg) == Fold(r, 0, msg, TWO128)
  {
    hide Fold;
    assert msg[..|msg|] == msg;
  }

  /** RFC 8439 section 2.5: the accumulator is the sum of the coefficients times falling powers of r, modulo p. */
  lemma AccumulatorIsPolynomial(r: int, msg: seq<byte>)
    ensures Accumulator(r, msg) == PowerSum(r, Coefficients(msg)) % PP
  {
    AccumulatorRange(r, msg);
    hide Fold, PowerSum, Coefficients, Val, Accumulator, MulMod;
    if |msg| % 16 == 0 {
      FoldIsPolynomial(r, msg);
      AccumulatorWhole(r, msg);
    } else {
      var n := Whole(|msg|);
      FoldIsPolynomial(r, msg[..n]);
      AccumulatorEnd(r, msg);
      CoefficientsLast(msg);
      StepIsPolynomial(r, Fold(r, 0, msg[..n], TWO128), Coefficients(msg[..n]), Val(msg[n..] + [1], 256), PP);
    }
    ModIsSym(PowerSum(r, Coefficients(msg)), Accumulator(r, msg), PP);
  }

  lemma ModIsSym(x: int, y: int, m: int)
    requires m > 0 && 0 <= y < m && Cong(y, x, m)
    ensures x % m == y
  {
    CongSym(y, x, m);
    ModIs(x, y, m);
  }

  /** The coefficients determine the message, its length included. */
  lemma {:induction false} CoefficientsInjective(a: seq<byte>, b: seq<byte>)
    ensures Coefficients(a) == Coefficients(b) <==> a == b
    decreases |a|
  {
    if Coefficients(a) == Coefficients(b) && |a| > 0 && |b| > 0 {
      var m, n := Whole(|a| - 1), Whole(|b| - 1);
      var c, d := Coefficients(a[..m]), Coefficients(b[..n]);
      var x, y := a[m..], b[n..];
      assert Coefficients(a)[..|c|] == c && Coefficients(b)[..|d|] == d;
      assert |c| == |d| && Val(x + [1], 256) == Val(y + [1], 256) by {
        assert |Coefficients(a)| == |c| + 1 && |Coefficients(b)| == |d| + 1;
        assert Coefficients(a)[|c|] == Val(x + [1], 256) && Coefficients(b)[|d|] == Val(y + [1], 256);
      }
      CoefficientsInjective(a[..m], b[..n]);
      MarkedInjective(x, y);
      assert a == a[..m] + x && b == b[..n] + y;
    }
  }

  /** A block's number with the marker determines the block. */
  lemma MarkedInjective(x: seq<byte>, y: seq<byte>)
    requires Val(x + [1], 256) == Val(y + [1], 256)
    ensures x == y
  {
    MarkedBlock(x);
    MarkedBlock(y);
    ValBound(x, 256);
    ValBound(y, 256);
    if |x| < |y| {
      ShorterIsLess(x, y);
    } else if |y| < |x| {
      ShorterIsLess(y, x);
    } else {
      ValInjective(x, y, 256);
    }
  }

  lemma ShorterIsLess(x: seq<byte>, y: seq<byte>)
    requires |x| < |y|
    ensures Val(x + [1], 256) < Val(y + [1], 256)
  {
    MarkedBlock(x);
    MarkedBlock(y);
    ValBound(x, 256);
    ValBound(y, 256);
    PowGrows(|x| + 1, |y|);
    assert Pow(256, |x| + 1) == 256 * Pow(256, |x|);
  }

  lemma {:induction false} PowGrows(i: nat, j: nat)
    requires i <= j
    ensures Pow(256, i) <= Pow(256, j)
    decreases j
  {
    if i < j {
      PowGrows(i, j - 1);
      PowPositive(256, j - 1);
    }
  }

  // ---------------------------------------------------------------- the key

  /** RFC 8439 section 2.5: r &= 0x0ffffffc0ffffffc0ffffffc0fffffff, byte by byte. */
  function ClampMask(): (m: seq<byte>)
    ensures |m| == 16
  {
    [0xff, 0xff, 0xff, 0x0f, 0xfc, 0xff, 0xff, 0x0f, 0xfc, 0xff, 0xff, 0x0f, 0xfc, 0xff, 0xff, 0x0f]
  }

  lemma ClampIsMask(k: seq<byte>, i: nat)
    requires |k| == 16 && i < 16
    ensures Clamp(k)[i] == Bits.And(8, k[i], ClampMask()[i])
  {
    Bits.ByteMasks(k[i]);
  }

  lemma ClampConstant()
    ensures Val(ClampMask(), 256) == 0x0ffffffc_0ffffffc_0ffffffc_0fffffff
  {
    hide Val;
    assert ClampMask()[16..] == [];
    FourWords(ClampMask());
  }

  /** The clamped limbs `init` stores; the masks keep or clear runs of bits. */
  function RLimbs(k: seq<byte>): (r: seq<u32>)
    requires |k| == 16
    ensures KeyLimbs(r)
  {
    [Load32(k, 0) % R26,
     Mask(Load32(k, 3) / 4, 0x4, 0x100),
     Mask(Load32(k, 6) / 16, 0x100, 0x4000),
     Mask(Load32(k, 9) / 64, 0x4000, 0x10_0000),
     Load32(k, 12) / 0x100 % 0x10_0000]
  }

  /** The low 26 bits of `x` without those from `lo` up to `hi` (powers of two). */
  function Mask(x: nat, lo: nat, hi: nat): (y: u32)
    requires 0 < lo <= hi <= R26 && R26 % hi == 0 && (hi == 0x100 || hi == 0x4000 || hi == 0x10_0000)
    ensures y < R26
  {
    x % lo + x / hi % (R26 / hi) * hi
  }

  /** The pieces of the clamped key, in the bytes of the key. */
  ghost function ClampedPieces(k: seq<int>): (l: seq<int>)
    requires |k| == 16
    ensures |l| == 5
  {
    [k[0] + 0x100 * k[1] + 0x1_0000 * k[2] + 0x100_0000 * (k[3] % 4),
     k[3] % 16 / 4 + 0x40 * (k[4] / 4 * 4) + 0x4000 * k[5] + 0x40_0000 * (k[6] % 16),
     k[6] / 16 + 0x10 * (k[7] % 16) + 0x1000 * (k[8] / 4 * 4) + 0x10_0000 * (k[9] % 64),
     k[9] / 64 + 4 * k[10] + 0x400 * (k[11] % 16) + 0x4_0000 * (k[12] / 4 * 4),
     k[13] + 0x100 * k[14] + 0x1_0000 * (k[15] % 16)]
  }

  lemma ClampThenCut(k: seq<byte>)
    requires |k| == 16
    ensures Pieces(Clamp(k)) == ClampedPieces(k)
  {
  }

  lemma CutThenMaskEven(k: seq<byte>)
    requires |k| == 16
    ensures var r, l := RLimbs(k), ClampedPieces(k);
      r[0] == l[0] && r[2] == l[2] && r[4] == l[4]
  {
    Cut0(k[0], k[1], k[2], k[3]);
    Clamp2(k[6], k[7], k[8], k[9]);
    Clamp4(k[12], k[13], k[14], k[15]);
  }

  lemma CutThenMaskOdd(k: seq<byte>)
    requires |k| == 16
    ensures var r, l := RLimbs(k), ClampedPieces(k);
      r[1] == l[1] && r[3] == l[3]
  {
    Clamp1(k[3], k[4], k[5], k[6]);
    Clamp3(k[9], k[10], k[11], k[12]);
  }

  /** Masking the limbs is clamping the bytes. */
  lemma ClampedLimbs(k: seq<byte>)
    requires |k| == 16
    ensures Val(RLimbs(k), R26) == Val(Clamp(k), 256)
  {
    CutThenMaskEven(k);
    CutThenMaskOdd(k);
    assert RLimbs(k) == ClampedPieces(k);
    ClampThenCut(k);
    BlockPieces(Clamp(k));
    BlockValue(Clamp(k));
  }

  lemma Clamp1(x: byte, a: byte, b: byte, c: byte)
    ensures Mask((x + 0x100 * a + 0x1_0000 * b + 0x100_0000 * c) / 4, 0x4, 0x100)
         == x % 16 / 4 + 0x40 * (a / 4 * 4) + 0x4000 * b + 0x40_0000 * (c % 16)
  {
    var v := x / 4 + 0x40 * a + 0x4000 * b + 0x40_0000 * c;
    QuotRem(x + 0x100 * a + 0x1_0000 * b + 0x100_0000 * c, 4, v, x % 4);
    QuotRem(v, 4, x / 16 + 0x10 * a + 0x1000 * b + 0x10_0000 * c, x % 16 / 4);
    var u := a / 4 + 0x40 * b + 0x4000 * c;
    QuotRem(v, 0x100, u, x / 4 + 0x40 * (a % 4));
    QuotRem(u, 0x4_0000, c / 16, a / 4 + 0x40 * b + 0x4000 * (c % 16));
  }

  lemma Clamp2(x: byte, a: byte, b: byte, c: byte)
    ensures Mask((x + 0x100 * a + 0x1_0000 * b + 0x100_0000 * c) / 16, 0x100, 0x4000)
         == x / 16 + 0x10 * (a % 16) + 0x1000 * (b / 4 * 4) + 0x10_0000 * (c % 64)
  {
    var v := x / 16 + 0x10 * a + 0x1000 * b + 0x10_0000 * c;
    QuotRem(x + 0x100 * a + 0x1_0000 * b + 0x100_0000 * c, 16, v, x % 16);
    QuotRem(v, 0x100, a / 16 + 0x10 * b + 0x1000 * c, x / 16 + 0x10 * (a % 16));
    var u := b / 4 + 0x40 * c;
    QuotRem(v, 0x4000, u, x / 16 + 0x10 * a + 0x1000 * (b % 4));
    QuotRem(u, 0x1000, c / 64, b / 4 + 0x40 * (c % 64));
  }

  lemma Clamp3(x: byte, a: byte, b: byte, c: byte)
    ensures Mask((x + 0x100 * a + 0x1_0000 * b + 0x100_0000 * c) / 64, 0x4000, 0x10_0000)
         == x / 64 + 4 * a + 0x400 * (b % 16) + 0x4_0000 * (c / 4 * 4)
  {
    var v := x / 64 + 4 * a + 0x400 * b + 0x4_0000 * c;
    QuotRem(x + 0x100 * a + 0x1_0000 * b + 0x100_0000 * c, 64, v, x % 64);
    QuotRem(v, 0x4000, b / 16 + 0x10 * c, x / 64 + 4 * a + 0x400 * (b % 16));
    QuotRem(v, 0x10_0000, c / 4, x / 64 + 4 * a + 0x400 * b + 0x4_0000 * (c % 4));
  }

  lemma Clamp4(x: byte, a: byte, b: byte, c: byte)
    ensures (x + 0x100 * a + 0x1_0000 * b + 0x100_0000 * c) / 0x100 % 0x10_0000
         == a + 0x100 * b + 0x1_0000 * (c % 16)
  {
    var v := a + 0x100 * b + 0x1_0000 * c;
    QuotRem(x + 0x100 * a + 0x1_0000 * b + 0x100_0000 * c, 0x100, v, x);
    QuotRem(v, 0x10_0000, c / 16, a + 0x100 * b + 0x1_0000 * (c % 16));
  }

  // ---------------------------------------------------------------- the authenticator

  /** The limbs hold `x` modulo p, in the shape between blocks. */
  ghost predicate Holds(h: seq<int>, x: int) {
    Limbed(h) && Cong(Val(h, R26), x, PP)
  }

  lemma StepCong(c: int, v: int, y: int, k: int, m: int)
    requires m > 0 && Cong(c, v * k, m) && Cong(v, y, m)
    ensures Cong(c, MulMod(y, k, m), m)
  {
    CongRefl(k, m);
    CongMul(v, y, k, k, m);
    CongTrans(c, v * k, y * k, m);
    CongMod(y * k, m);
    CongSym(MulMod(y, k, m), y * k, m);
    CongTrans(c, y * k, MulMod(y, k, m), m);
  }

  lemma ShiftCong(v: int, x: int, b: int, m: int)
    requires Cong(v, x, m)
    ensures Cong(v + b, x + b, m)
  {
    CongRefl(b, m);
    CongAdd(v, x, b, b, m);
  }

  /** One block takes x to (x + block + marker) r, seen from the limbs. */
  lemma HoldsNext(v: int, k: int, x: int, m: seq<byte>, off: nat, mark: int, t: seq<int>)
    requires off % 16 == 0 && off + 16 <= |m| && Limbed(t)
    requires Cong(v, Fold(k, x, m[..off], mark), PP)
    requires Cong(Val(t, R26), (v + (Val(m[off..off + 16], 256) + mark)) * k, PP)
    ensures Holds(t, Fold(k, x, m[..off + 16], mark))
  {
    var y, b := Fold(k, x, m[..off], mark), Val(m[off..off + 16], 256) + mark;
    ShiftCong(v, y, b, PP);
    StepCong(Val(t, R26), v + b, y + b, k, PP);
    FoldLast(k, x, m, off, mark);
  }

  lemma FoldLast(r: int, x: int, m: seq<byte>, k: nat, mark: int)
    requires k % 16 == 0 && k + 16 <= |m|
    ensures Fold(r, x, m[..k + 16], mark)
         == MulMod(Fold(r, x, m[..k], mark) + (Val(m[k..k + 16], 256) + mark), r, PP)
  {
    assert m[..k + 16][..k] == m[..k] && m[..k + 16][k..] == m[k..k + 16];
  }

  method NextBlock(x0: u32, x1: u32, x2: u32, x3: u32, x4: u32,
    r0: u32, r1: u32, r2: u32, r3: u32, r4: u32, m: seq<byte>, off: nat, hibit: u32, ghost x: int, ghost mark: int)
    returns (h0: u32, h1: u32, h2: u32, h3: u32, h4: u32)
    requires KeyLimbs([r0, r1, r2, r3, r4]) && off % 16 == 0 && off + 16 <= |m|
    requires Holds([x0, x1, x2, x3, x4], Fold(Val([r0, r1, r2, r3, r4], R26), x, m[..off], mark))
    requires hibit <= 0x100_0000 && mark == Pow(R26, 4) * hibit
    ensures Holds([h0, h1, h2, h3, h4], Fold(Val([r0, r1, r2, r3, r4], R26), x, m[..off + 16], mark))
  {
    h0, h1, h2, h3, h4 := BlockStep(x0, x1, x2, x3, x4, r0, r1, r2, r3, r4, m[off..off + 16], hibit);
    HoldsNext(Val([x0, x1, x2, x3, x4], R26), Val([r0, r1, r2, r3, r4], R26), x, m, off, mark, [h0, h1, h2, h3, h4]);
  }

  /** The loop of `blocks`, on its local limbs. */
  method FoldBlocks(x0: u32, x1: u32, x2: u32, x3: u32, x4: u32,
    r0: u32, r1: u32, r2: u32, r3: u32, r4: u32, m: seq<byte>, hibit: u32, ghost x: int, ghost mark: int)
    returns (h0: u32, h1: u32, h2: u32, h3: u32, h4: u32)
    requires KeyLimbs([r0, r1, r2, r3, r4]) && Holds([x0, x1, x2, x3, x4], x)
    requires |m| % 16 == 0 && hibit <= 0x100_0000 && mark == Pow(R26, 4) * hibit
    ensures Holds([h0, h1, h2, h3, h4], Fold(Val([r0, r1, r2, r3, r4], R26), x, m, mark))
  {
    ghost var k := Val([r0, r1, r2, r3, r4], R26);
    h0, h1, h2, h3, h4 := x0, x1, x2, x3, x4;
    var off := 0;
    assert m[..0] == [] && Fold(k, x, m[..0], mark) == x;
    hide *;
    while off < |m|
      invariant 0 <= off <= |m| && off % 16 == 0
      invariant Holds([h0, h1, h2, h3, h4], Fold(k, x, m[..off], mark))
    {
      NextMultiple(off, |m|);
      h0, h1, h2, h3, h4 := NextBlock(h0, h1, h2, h3, h4, r0, r1, r2, r3, r4, m, off, hibit, x, mark);
      off := off + 16;
    }
    assert m[..off] == m;
  }

  lemma NextMultiple(n: nat, m: nat)
    requires n % 16 == 0 && m % 16 == 0 && n < m
    ensures n + 16 <= m && (n + 16) % 16 == 0
  {
  }

  class Authenticator {
    var r: seq<u32>
    var h: seq<u32>
    var pad: seq<u32>
    const buffer: array<byte>
    var leftover: nat
    var final_: bool
    ghost var key: seq<byte>
    ghost var msg: seq<byte>   // everything passed to Update so far

    /** The limbs read as the clamped key, the pad, and the fold of the first `n` message bytes. */
    ghost predicate Absorbed(n: nat)
      reads this`r, this`h, this`pad, this`key, this`msg, this`final_
    {
      && |key| == 32 && !final_ && n <= |msg| && n % 16 == 0 && KeyLimbs(r) && |pad| == 4
      && Val(r, R26) == Val(Clamp(key[..16]), 256)
      && Val(pad, W) == Val(key[16..], 256)
      && Holds(h, Fold(Val(r, R26), 0, msg[..n], TWO128))
    }

    ghost predicate Valid()
      reads this, buffer
    {
      && buffer.Length == 16 && leftover < 16 && leftover <= |msg|
      && Absorbed(|msg| - leftover)
      && buffer[..leftover] == msg[|msg| - leftover..]
    }

    /** `init`. */
    constructor (k: seq<byte>)
      requires |k| == 32
      ensures Valid() && key == k && msg == [] && fresh(buffer)
    {
      r := RLimbs(k[..16]);
      h := [0, 0, 0, 0, 0];
      pad := [Load32(k, 16), Load32(k, 20), Load32(k, 24), Load32(k, 28)];
      buffer := new byte[16](_ => 0);
      leftover, final_ := 0, false;
      key, msg := k, [];
      ClampedLimbs(k[..16]);
      PadValue(k, [Load32(k, 16), Load32(k, 20), Load32(k, 24), Load32(k, 28)]);
      StartHolds();
    }

    /** `blocks`: any number of whole blocks. */
    method Blocks(m: seq<byte>, ghost x: int)
      requires KeyLimbs(r) && |m| % 16 == 0 && Holds(h, x)
      modifies this`h
      ensures Holds(h, Fold(Val(r, R26), x, m, if final_ then 0 else TWO128))
    {
      assert r == [r[0], r[1], r[2], r[3], r[4]] && h == [h[0], h[1], h[2], h[3], h[4]];
      PowR26Quarter();
      var hibit := if final_ then 0 else 0x100_0000;
      var h0, h1, h2, h3, h4 := FoldBlocks(h[0], h[1], h[2], h[3], h[4],
        r[0], r[1], r[2], r[3], r[4], m, hibit, x, if final_ then 0 else TWO128);
      h := [h0, h1, h2, h3, h4];
    }

    /** Whole blocks following the absorbed ones. */
    method AbsorbBlocks(m: seq<byte>, ghost n: nat)
      requires Absorbed(n) && |m| % 16 == 0 && n + |m| <= |msg| && m == msg[n..n + |m|]
      modifies this`h
      ensures Absorbed(n + |m|)
    {
      hide Fold, Clamp, Holds, Val;
      Blocks(m, Fold(Val(r, R26), 0, msg[..n], TWO128));
      FoldExtend(Val(r, R26), msg, n, m);
    }

    /** Bytes into the buffer, from position `at`. */
    method Fill(m: seq<byte>, at: nat)
      requires buffer.Length == 16 && at + |m| <= 16
      modifies buffer
      ensures buffer[..at + |m|] == old(buffer[..at]) + m
    {
      ghost var b := buffer[..at];
      for i := 0 to |m|
        invariant buffer[..at + i] == b + m[..i]
      {
        buffer[at + i] := m[i];
        assert buffer[..at + i + 1] == buffer[..at + i] + [m[i]];
        assert m[..i + 1] == m[..i] + [m[i]];
      }
      assert m[..|m|] == m;
    }

    /** The message grows; what was absorbed is still its beginning. */
    ghost method Append(data: seq<byte>, n: nat)
      requires Absorbed(n)
      modifies this`msg
      ensures msg == old(msg) + data && Absorbed(n)
    {
      assert (msg + data)[..n] == msg[..n];
      msg := msg + data;
    }

    /** `n` bytes absorbed, the buffer next, and `m` still to come. */
    ghost predicate Pending(n: nat, m: seq<byte>)
      reads this, buffer
    {
      && buffer.Length == 16 && leftover < 16 && Absorbed(n)
      && n <= |msg| && msg[n..] == buffer[..leftover] + m
    }

    /** The part of `update` that completes a started block. */
    method TopUp(m: seq<byte>, ghost n: nat) returns (rest: seq<byte>, ghost k: nat)
      requires Pending(n, m) && leftover > 0
      modifies this`leftover, this`h, buffer
      ensures Pending(k, rest) && (leftover == 0 || rest == [])
    {
      hide Absorbed;
      var want := if 16 - leftover > |m| then |m| else 16 - leftover;
      Fill(m[..want], leftover);
      rest := m[want..];
      assert m == m[..want] + rest;
      leftover := leftover + want;
      k := n;
      if leftover == 16 {
        assert buffer[..16] == buffer[..] && msg[n..] == buffer[..] + rest;
        assert buffer[..] == msg[n..n + 16];
        AbsorbBlocks(buffer[..], n);
        k := n + 16;
        leftover := 0;
        assert msg[k..] == msg[n..][16..] == rest;
      }
    }

    /** The part of `update` that takes whole blocks from the input. */
    method Bulk(m: seq<byte>, ghost n: nat) returns (rest: seq<byte>, ghost k: nat)
      requires Pending(n, m) && leftover == 0
      modifies this`h
      ensures Pending(k, rest) && |rest| < 16
    {
      hide Absorbed;
      rest, k := m, n;
      assert msg[n..] == m;
      if |m| >= 16 {
        var want := |m| / 16 * 16;
        assert m[..want] == msg[n..n + want];
        AbsorbBlocks(m[..want], n);
        rest, k := m[want..], n + want;
        assert msg[k..] == msg[n..][want..];
      }
      assert buffer[..0] == [];
    }

    /** `update`: any number of bytes, buffered up to whole blocks. */
    method Update(data: seq<byte>)
      requires Valid()
      modifies this`leftover, this`msg, this`h, buffer
      ensures Valid() && msg == old(msg) + data
    {
      hide Absorbed;
      ghost var n := |msg| - leftover;
      Append(data, n);
      var m := data;
      assert msg[n..] == buffer[..leftover] + m;
      if leftover != 0 {
        m, n := TopUp(m, n);
        if leftover != 0 {
          assert buffer[..leftover] + [] == buffer[..leftover];
          return;
        }
      }
      m, n := Bulk(m, n);
      Fill(m, 0);
      leftover := |m|;
      assert buffer[..0 + |m|] == m;
    }

    /** The padding of a partial block: a one byte, then zeros. */
    method PadBuffer()
      requires buffer.Length == 16 && leftover < 16
      modifies buffer
      ensures Val(buffer[..], 256) == old(Val(buffer[..leftover], 256)) + Pow(256, leftover)
    {
      ghost var b := buffer[..leftover];
      var i := leftover;
      buffer[i] := 1;
      i := i + 1;
      while i < 16
        invariant leftover < i <= 16 && buffer[..leftover] == b && buffer[leftover] == 1
        invariant forall k :: leftover < k < i ==> buffer[k] == 0
      {
        buffer[i] := 0;
        i := i + 1;
      }
      PaddedValue(b, buffer[..]);
    }

    /** The first step of `finish`: a started block is padded and folded in without its marker bit. */
    method CloseBlock()
      requires Valid()
      modifies this`h, this`final_, buffer
      ensures Holds(h, Accumulator(Val(r, R26), msg))
    {
      hide Fold, Clamp, Val, Accumulator, Pow;
      ghost var k, n := Val(r, R26), |msg| - leftover;
      ghost var x := Fold(k, 0, msg[..n], TWO128);
      LastBlock(k, msg, leftover);
      assert KeyLimbs(r) && Holds(h, x) && n % 16 == 0;
      hide Holds, Limbed, KeyLimbs;
      if leftover != 0 {
        PadBuffer();
        final_ := true;
        SingleFold(k, x, buffer[..]);
        Blocks(buffer[..], x);
      }
    }

    /** `finish`: the tag of everything passed to `Update`, however it was split. */
    method Finish() returns (mac: seq<byte>)
      requires Valid()
      modifies this`h, this`final_, buffer
      ensures |mac| == 16 && Val(mac, 256) == Tag(key, msg)
    {
      ghost var k := key;
      assert Val(r, R26) == Val(Clamp(k[..16]), 256) && Val(pad, W) == Val(k[16..], 256);
      assert |pad| == 4 && |k| == 32;
      CloseBlock();
      hide Fold, Clamp, Val, Accumulator, Absorbed, Holds, Pow;
      ghost var x := Accumulator(Val(r, R26), msg);
      AccumulatorRange(Val(r, R26), msg);
      HoldsFive(h, x);
      assert h == [h[0], h[1], h[2], h[3], h[4]] && pad == [pad[0], pad[1], pad[2], pad[3]];
      mac := Emit(h[0], h[1], h[2], h[3], h[4], pad[0], pad[1], pad[2], pad[3], x);
    }
  }

  lemma HoldsFive(h: seq<int>, x: int)
    requires Holds(h, x)
    ensures |h| == 5
  {
  }

  lemma PaddedValue(b: seq<int>, s: seq<int>)
    requires |b| < |s| && s[..|b|] == b && s[|b|] == 1 && Within(s[|b| + 1..], 0, 0)
    ensures Val(s, 256) == Val(b, 256) + Pow(256, |b|)
  {
    var n := |b|;
    assert s == s[..n + 1] + s[n + 1..];
    ValConcat(s[..n + 1], s[n + 1..], 256);
    ValZeros(s[n + 1..], 256);
    ValPrefix(s, n, 256);
  }

  lemma SingleFold(r: int, x: int, m: seq<byte>)
    requires |m| == 16
    ensures Fold(r, x, m, 0) == MulMod(x + Val(m, 256), r, PP)
  {
    assert m[..0] == [] && m[0..] == m;
  }

  /** The accumulator splits where the buffer starts. */
  lemma LastBlock(r: int, msg: seq<byte>, k: nat)
    requires k < 16 && k <= |msg| && (|msg| - k) % 16 == 0
    ensures var x := Fold(r, 0, msg[..|msg| - k], TWO128);
      Accumulator(r, msg) == if k == 0 then x else MulMod(x + (Val(msg[|msg| - k..], 256) + Pow(256, k)), r, PP)
  {
    hide Fold, Val, Pow, MulMod;
    assert Whole(|msg|) == |msg| - k;
  }

  lemma {:induction false} FoldRange(r: int, m: seq<byte>)
    requires |m| % 16 == 0
    ensures 0 <= Fold(r, 0, m, TWO128) < PP
  {
  }

  lemma AccumulatorRange(r: int, msg: seq<byte>)
    ensures 0 <= Accumulator(r, msg) < PP
  {
    var n := Whole(|msg|);
    FoldRange(r, msg[..n]);
    MulModRange(Fold(r, 0, msg[..n], TWO128) + (Val(msg[n..], 256) + Pow(256, |msg| - n)), r, PP);
  }

  lemma MulModRange(x: int, y: int, m: int)
    requires m > 0
    ensures 0 <= MulMod(x, y, m) < m
  {
  }

  /** The end of `finish`: carries, reduction, packing and the pad. */
  method Emit(x0: u32, x1: u32, x2: u32, x3: u32, x4: u32, p0: u32, p1: u32, p2: u32, p3: u32, ghost x: int)
    returns (mac: seq<byte>)
    requires Holds([x0, x1, x2, x3, x4], x) && 0 <= x < PP
    ensures |mac| == 16 && Val(mac, 256) == (x + Val([p0, p1, p2, p3], W)) % TWO128
  {
    hide Val, Cong;
    var h0, h1, h2, h3, h4 := SettleLimbs(x0, x1, x2, x3, x4);
    SettleValue([x0, x1, x2, x3, x4]);
    ghost var s := [h0, h1, h2, h3, h4];
    CongTrans(Val(s, R26), Val([x0, x1, x2, x3, x4], R26), x, PP);
    OneSubtraction(Val(s, R26), s);
    ModIs(Val(s, R26), x, PP);
    h0, h1, h2, h3, h4 := SubtractP(h0, h1, h2, h3, h4);
    var w0, w1, w2, w3 := PackWords(h0, h1, h2, h3, h4);
    w0, w1, w2, w3 := AddPad(w0, w1, w2, w3, p0, p1, p2, p3);
    mac := Store32(w0) + Store32(w1) + Store32(w2) + Store32(w3);
    StoredWords(w0, w1, w2, w3);
    ModThenAdd(x, Val([p0, p1, p2, p3], W), TWO128);
  }

  lemma ModThenAdd(x: int, y: int, m: int)
    requires m > 0
    ensures (x % m + y) % m == (x + y) % m
  {
    CongMod(x, m);
    ShiftCong(x % m, x, y, m);
    CongIffMod(x % m + y, x + y, m);
  }

  lemma StartHolds()
    ensures Holds([0, 0, 0, 0, 0], 0)
  {
    ValZeros([0, 0, 0, 0, 0], R26);
    CongRefl(0, PP);
  }

  lemma PowR26Quarter()
    ensures Pow(R26, 4) * 0x100_0000 == TWO128
  {
    PowAdd(R26, 2, 2);
    assert Pow(R26, 2) == 0x10_0000_0000_0000;
  }

  lemma PadValue(k: seq<byte>, p: seq<int>)
    requires |k| == 32 && |p| == 4
    requires p == [Load32(k, 16), Load32(k, 20), Load32(k, 24), Load32(k, 28)]
    ensures Val(p, W) == Val(k[16..], 256)
  {
    FourWords(k[16..]);
    FourTerms(p[0], p[1], p[2], p[3]);
  }
}
