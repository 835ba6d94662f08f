/**
 * Reduction of a 64-byte integer modulo the group order L = 2^252 + 277423177773723535358
 * 51937790883648493 on signed radix-256 limbs (`kl_modL`, include/keylight/ed25519.hpp:387-421).
 */
module ScalarL {
  import opened Limbs
  import opened Modular

  const L: int := 0x10000000_00000000_00000000_00000000_14def9de_a2f79cd6_5812631a_5cf5d3ed

  function LByte(k: nat): (x: int)
    requires k < 32
    ensures 0 <= x < 256 && (16 <= k < 31 ==> x == 0)
  {
    if k < 16 then
      [0xed, 0xd3, 0xf5, 0x5c, 0x1a, 0x63, 0x12, 0x58,
       0xd6, 0x9c, 0xf7, 0xa2, 0xde, 0xf9, 0xde, 0x14][k]
    else if k == 31 then 0x10 else 0
  }

  ghost function LBytes(): (s: seq<int>)
    ensures |s| == 32
  {
    seq(32, k requires 0 <= k < 32 => LByte(k))
  }

  // ---------------------------------------------------------------- eliminating high limbs

  /**
   * Subtracting `f * l` at limb `at`: after `n` limbs the value has lost the lowest `n` limbs
   * of that multiple, with `carry` outstanding at the next limb.
   */
  ghost predicate Eliminating(x: seq<int>, s: seq<int>, l: seq<int>, at: nat, n: nat, f: int, carry: int, b: int) {
    && |x| == |s| && n <= |l|
    && Val(x, b) + carry * Pow(b, at + n) == Val(s, b) - f * (Pow(b, at) * Val(l[..n], b))
  }

  lemma EliminateStep(x: seq<int>, s: seq<int>, l: seq<int>, at: nat, n: nat, f: int, carry: int, c: int, b: int)
    requires at + n < |x| && n < |l| && Eliminating(x, s, l, at, n, f, carry, b)
    ensures Eliminating(x[at + n := x[at + n] + (carry - f * l[n]) - b * c], s, l, at, n + 1, f, c, b)
  {
    var v := x[at + n] + (carry - f * l[n]) - b * c;
    ValUpdate(x, at + n, v, b);
    ValPrefix(l, n, b);
    PowAdd(b, at, n);
    EliminateTerm(carry, f, l[n], c, b, Pow(b, at), Pow(b, n), Val(l[..n], b), x[at + n]);
    assert Pow(b, at + (n + 1)) == b * Pow(b, at + n);
  }

  lemma EliminateTerm(carry: int, f: int, y: int, c: int, b: int, p: int, q: int, v: int, w: int)
    ensures (w + (carry - f * y) - b * c - w) * (p * q) + c * (b * (p * q))
         == carry * (p * q) + f * (p * v) - f * (p * (v + q * y))
  {
    assert (carry - f * y - b * c) * (p * q) == carry * (p * q) - (f * y) * (p * q) - (b * c) * (p * q);
    assert (b * c) * (p * q) == c * (b * (p * q));
    assert p * (v + q * y) == p * v + p * (q * y);
    assert f * (p * v + p * (q * y)) == f * (p * v) + f * (p * (q * y));
    assert (f * y) * (p * q) == f * (p * (q * y));
  }

  /** Where each limb may stand when limb `i` is the next to go. */
  ghost predicate Settled(x: seq<int>, i: int) {
    && |x| == 64 && 31 <= i < 64
    && (forall k :: i < k < 64 ==> x[k] == 0)
    && (forall k :: 0 <= k <= i - 32 ==> 0 <= x[k] <= 255)
    && (forall k :: 0 <= k && i - 31 <= k <= i - 12 ==> (if i == 63 then 0 else -128) <= x[k] <= (if i == 63 then 255 else 127))
    && (forall k :: 0 <= k && i - 11 <= k <= i ==> -130 <= x[k] <= (if k <= 50 then 129 else 300))
  }

  /** A bound on the carry after `n` limbs: the zero bytes of L let it die out. */
  ghost function Cap(n: nat): int {
    if n == 0 then 0 else if n <= 16 then 4900 else if n == 17 then 21 else 2
  }

  /** The inner loop after `n` limbs: those are digits, the rest untouched. */
  ghost predicate Inner(x: seq<int>, s: seq<int>, i: int, n: nat, carry: int) {
    && |x| == |s| == 64 && 32 <= i < 64 && n <= 20
    && (forall k :: i - 32 <= k < i - 32 + n ==> -128 <= x[k] <= 127)
    && (forall k :: 0 <= k < 64 && !(i - 32 <= k < i - 32 + n) ==> x[k] == s[k])
    && -Cap(n) <= carry <= Cap(n)
  }

  lemma InnerStep(x: seq<int>, s: seq<int>, i: int, n: nat, carry: int)
    requires Settled(s, i) && n < 20 && Inner(x, s, i, n, carry)
    ensures var j := i - 32 + n;
      var v := x[j] + (carry - 16 * x[i] * LByte(n));
      var c := (v + 128) / 256;
      && -0x20_0000 <= 16 * x[i] * LByte(n) <= 0x20_0000
      && Inner(x[j := v - 256 * c], s, i, n + 1, c)
  {
    var j := i - 32 + n;
    assert -128 <= s[j] <= 255 && x[i] == s[i];
    ProductBound16(x[i], LByte(n));
  }

  lemma ProductBound16(x: int, y: int)
    requires -300 <= x <= 300 && 0 <= y < 256
    ensures -1_224_000 <= 16 * x * y <= 1_224_000
    ensures y == 0 ==> 16 * x * y == 0
  {
    Spread(x, y, 300);
  }

  lemma Spread(x: int, y: int, m: int)
    requires -m <= x <= m && 0 <= y
    ensures -(m * y) <= x * y <= m * y
  {
    assert (m - x) * y == m * y - x * y && (m + x) * y == m * y + x * y;
    assert (m - x) * y >= 0 && (m + x) * y >= 0;
  }

  const DELTA: int := 0x14def9de_a2f79cd6_5812631a_5cf5d3ed

  ghost function Low20(): (s: seq<int>)
    ensures |s| == 20
  {
    LBytes()[..20]
  }

  lemma Low20Words()
    ensures var s := Low20();
      && s[0] + 0x100 * s[1] + 0x1_0000 * s[2] + 0x100_0000 * s[3] == 0x5cf5d3ed
      && s[4] + 0x100 * s[5] + 0x1_0000 * s[6] + 0x100_0000 * s[7] == 0x5812631a
      && s[8] + 0x100 * s[9] + 0x1_0000 * s[10] + 0x100_0000 * s[11] == 0xa2f79cd6
      && s[12] + 0x100 * s[13] + 0x1_0000 * s[14] + 0x100_0000 * s[15] == 0x14def9de
      && Within(s[16..], 0, 0)
  {
  }

  lemma Low20Value()
    ensures Val(Low20(), 256) == DELTA
  {
    Low20Words();
    FourWords(Low20());
  }

  lemma Pow256()
    ensures Pow(256, 32) == 16 * (L - DELTA)
    ensures 16 * Pow(256, 31) == L - DELTA
  {
    PowAdd(256, 16, 16);
    PowAdd(256, 8, 8);
    PowAdd(256, 4, 4);
    PowAdd(256, 31, 1);
    assert Pow(256, 4) == 0x1_0000_0000 && Pow(256, 1) == 256;
  }

  /** The top of the elimination: the cleared limb is what 16 L has at 2^256. */
  lemma Cleared(s: seq<int>, x: seq<int>, l: seq<int>, i: nat, carry: int, b: int, d: int, m: int)
    requires |s| == |x| == 64 && |l| == 20 && 32 <= i < 64 && x[i] == s[i]
    requires Eliminating(x, s, l, i - 32, 20, 16 * s[i], carry, b)
    requires Val(l, b) == d && Pow(b, 32) == 16 * (m - d)
    ensures Val(x[i - 12 := x[i - 12] + carry][i := 0], b)
         == Val(s, b) - 16 * s[i] * (Pow(b, i - 32) * m)
  {
    var y := x[i - 12 := x[i - 12] + carry];
    ValUpdate(x, i - 12, x[i - 12] + carry, b);
    ValUpdate(y, i, 0, b);
    PowAdd(b, i - 32, 32);
    assert l[..20] == l && y[i] == s[i];
    var p, q, c := Pow(b, i - 32), Pow(b, i - 12), x[i - 12];
    assert (c + carry - c) * q == carry * q;
    assert (0 - s[i]) * Pow(b, i) == -(s[i] * (p * (16 * (m - d))));
    ClearedTerm(s[i], p, d, m);
  }

  lemma ClearedL(s: seq<int>, x: seq<int>, i: nat, carry: int)
    requires |s| == |x| == 64 && 32 <= i < 64 && x[i] == s[i]
    requires Eliminating(x, s, Low20(), i - 32, 20, 16 * s[i], carry, 256)
    ensures Val(x[i - 12 := x[i - 12] + carry][i := 0], 256)
         == Val(s, 256) - 16 * s[i] * (Pow(256, i - 32) * L)
  {
    Low20Value();
    Pow256();
    Cleared(s, x, Low20(), i, carry, 256, DELTA, L);
  }

  lemma EliminateStart(s: seq<int>, at: nat, f: int, l: seq<int>, b: int)
    ensures Eliminating(s, s, l, at, 0, f, 0, b)
  {
    assert l[..0] == [];
  }

  lemma ClearedTerm(xi: int, p: int, d: int, l: int)
    ensures 16 * xi * (p * d) + xi * (p * (16 * (l - d))) == 16 * xi * (p * l)
  {
    assert p * (16 * (l - d)) == 16 * (p * l) - 16 * (p * d);
    assert xi * (16 * (p * l) - 16 * (p * d)) == 16 * xi * (p * l) - 16 * xi * (p * d);
  }

  lemma Resettled(s: seq<int>, x: seq<int>, i: int, carry: int)
    requires Settled(s, i) && Inner(x, s, i, 20, carry)
    ensures Settled(x[i - 12 := x[i - 12] + carry][i := 0], i - 1)
  {
  }

  /** One round of the first loop of `kl_modL`: limb `i` is traded for a multiple of L. */
  method EliminateLimb(x: array<i64>, i: int)
    requires x.Length == 64 && 32 <= i && Settled(x[..], i)
    modifies x
    ensures Settled(x[..], i - 1)
    ensures Val(x[..], 256) == old(Val(x[..], 256)) - 16 * old(x[i]) * (Pow(256, i - 32) * L)
  {
    hide Val, Pow;
    ghost var s := x[..];
    var carry: i64 := 0;
    var j := i - 32;
    EliminateStart(s, i - 32, 16 * s[i], Low20(), 256);
    while j < i - 12
      invariant i - 32 <= j <= i - 12
      invariant Inner(x[..], s, i, j - (i - 32), carry)
      invariant Eliminating(x[..], s, Low20(), i - 32, j - (i - 32), 16 * s[i], carry, 256)
    {
      carry := InnerLimb(x, i, j, carry, s);
      j := j + 1;
    }
    Resettled(s, x[..], i, carry);
    ClearedL(s, x[..], i, carry);
    ghost var u := x[..];
    x[j] := x[j] + carry;
    x[i] := 0;
    assert x[..] == u[i - 12 := u[i - 12] + carry][i := 0];
  }

  /** The body of the inner loop. */
  method InnerLimb(x: array<i64>, i: int, j: int, carry: i64, ghost s: seq<int>) returns (c: i64)
    requires x.Length == 64 && 32 <= i && i - 32 <= j < i - 12 && Settled(s, i)
    requires Inner(x[..], s, i, j - (i - 32), carry)
    requires Eliminating(x[..], s, Low20(), i - 32, j - (i - 32), 16 * s[i], carry, 256)
    modifies x
    ensures Inner(x[..], s, i, j + 1 - (i - 32), c)
    ensures Eliminating(x[..], s, Low20(), i - 32, j + 1 - (i - 32), 16 * s[i], c, 256)
  {
    hide Val, Pow;
    ghost var n := j - (i - 32);
    ghost var u := x[..];
    InnerStep(u, s, i, n, carry);
    EliminateStep(u, s, Low20(), i - 32, n, 16 * s[i], carry, (u[j] + (carry - 16 * u[i] * LByte(n)) + 128) / 256, 256);
    x[j] := x[j] + (carry - 16 * x[i] * LByte(j - (i - 32)));
    c := (x[j] + 128) / 256;
    x[j] := x[j] - c * 256;
    assert x[..] == u[j := u[j] + (carry - 16 * u[i] * LByte(n)) - 256 * c];
  }

  // ---------------------------------------------------------------- the last quotient

  lemma HighL()
    ensures Val(LBytes()[20..], 256) == 16 * Pow(256, 11)
  {
    var s := LBytes()[20..];
    ValPrefix(s, 11, 256);
    assert s[..12] == s;
    ValZeros(s[..11], 256);
  }

  lemma LValue()
    ensures Val(LBytes(), 256) == L
  {
    assert LBytes() == Low20() + LBytes()[20..];
    ValConcat(Low20(), LBytes()[20..], 256);
    HighL();
    PowAdd(256, 20, 11);
    Low20Value();
    Pow256();
    TopByteOfL(Pow(256, 20), Pow(256, 11));
  }

  lemma TopByteOfL(p: int, q: int)
    ensures p * (16 * q) == 16 * (p * q)
  {
  }

  /** Limbs of at most `a` either way stay within a/(b-1) of the next power. */
  lemma {:induction false} SmallLimbs(s: seq<int>, a: int, b: int)
    requires b > 1 && a >= 0 && Within(s, -a, a)
    ensures -(a * (Pow(b, |s|) - 1)) <= (b - 1) * Val(s, b) <= a * (Pow(b, |s|) - 1)
  {
    if |s| > 0 {
      SmallLimbs(s[1..], a, b);
      SmallLimbStep(s[0], Val(s[1..], b), Pow(b, |s| - 1), a, b);
    }
  }

  lemma SmallLimbStep(x: int, v: int, p: int, a: int, b: int)
    requires b > 1 && -a <= x <= a && -(a * (p - 1)) <= (b - 1) * v <= a * (p - 1)
    ensures -(a * (b * p - 1)) <= (b - 1) * (x + b * v) <= a * (b * p - 1)
  {
    DistributeIn(x, v, b);
    LimbRange(x, (b - 1) * v, p, a, b);
  }

  lemma DistributeIn(x: int, v: int, b: int)
    ensures (b - 1) * (x + b * v) == (b - 1) * x + b * ((b - 1) * v)
  {
  }

  lemma LimbRange(x: int, u: int, p: int, a: int, b: int)
    requires b > 1 && -a <= x <= a && -(a * (p - 1)) <= u <= a * (p - 1)
    ensures -(a * (b * p - 1)) <= (b - 1) * x + b * u <= a * (b * p - 1)
  {
    Monotone(b - 1, x, a);
    Monotone(b - 1, -a, x);
    Monotone(b, u, a * (p - 1));
    Monotone(b, -(a * (p - 1)), u);
    Regroup(a, b, p);
  }

  lemma Monotone(b: int, u: int, w: int)
    requires b >= 0 && u <= w
    ensures b * u <= b * w
  {
  }

  lemma Regroup(a: int, b: int, p: int)
    ensures (b - 1) * a + b * (a * (p - 1)) == a * (b * p - 1)
    ensures (b - 1) * -a == -((b - 1) * a) && b * -(a * (p - 1)) == -(b * (a * (p - 1)))
  {
    assert b * (a * (p - 1)) == a * (b * p) - b * a;
    assert a * (b * p - 1) == a * (b * p) - a;
  }

  /** Once only 32 limbs are left, subtracting x[31]/16 times L lands within L of zero. */
  lemma LastQuotient(x: seq<int>)
    requires Settled(x, 31)
    ensures -L <= Val(x, 256) - (x[31] / 16) * L < L
  {
    assert x == x[..32] + x[32..];
    ValConcat(x[..32], x[32..], 256);
    ValZeros(x[32..], 256);
    ValPrefix(x, 31, 256);
    SmallLimbs(x[..31], 130, 256);
    Pow256();
    QuotientBound(x[31], Val(x[..31], 256), Pow(256, 31));
  }

  lemma QuotientBound(top: int, low: int, p: int)
    requires -130 <= top <= 129 && 16 * p == L - DELTA
    requires -(130 * (p - 1)) <= 255 * low <= 130 * (p - 1)
    ensures -L <= low + p * top - (top / 16) * L < L
  {
    var q := top / 16;
    assert p * top == p * (top % 16) + 16 * (p * q) by { assert top == top % 16 + 16 * q; }
    assert q * L == 16 * (p * q) + q * DELTA by { assert q * (16 * p + DELTA) == 16 * (p * q) + q * DELTA; }
    assert -9 <= q <= 8;
    assert 0 <= p * (top % 16) <= 15 * p;
  }

  /** The second loop after `n` limbs: those are bytes, the rest untouched. */
  ghost predicate Dividing(x: seq<int>, s: seq<int>, n: nat, carry: int) {
    && Settled(s, 31) && |x| == 64 && n <= 32
    && (forall k :: 0 <= k < n ==> 0 <= x[k] <= 255)
    && (forall k :: n <= k < 64 ==> x[k] == s[k])
    && -12 <= carry <= 12
    && Eliminating(x, s, LBytes(), 0, n, s[31] / 16, carry, 256)
  }

  lemma DividingStep(x: seq<int>, s: seq<int>, n: nat, carry: int)
    requires n < 32 && Dividing(x, s, n, carry)
    ensures var v := x[n] + (carry - (x[31] / 16) * LByte(n));
      -3000 <= v <= 3000 && Dividing(x[n := v % 256], s, n + 1, v / 256)
  {
    var q := s[31] / 16;
    var v := x[n] + (carry - q * LByte(n));
    Spread(q, LByte(n), 9);
    EliminateStep(x, s, LBytes(), 0, n, q, carry, v / 256, 256);
    assert v % 256 == v - 256 * (v / 256);
  }

  /** The second loop of `kl_modL`: x[31]/16 times L is subtracted, leaving bytes and a carry. */
  method SubtractQuotient(x: array<i64>) returns (carry: i64)
    requires x.Length == 64 && Settled(x[..], 31)
    modifies x
    ensures Dividing(x[..], old(x[..]), 32, carry)
  {
    ghost var s := x[..];
    carry := 0;
    EliminateStart(s, 0, s[31] / 16, LBytes(), 256);
    for j := 0 to 32
      invariant Dividing(x[..], s, j, carry)
    {
      ghost var u := x[..];
      DividingStep(u, s, j, carry);
      x[j] := x[j] + (carry - (x[31] / 16) * LByte(j));
      carry := x[j] / 256;
      x[j] := x[j] % 256;
      assert x[..] == u[j := x[j]];
    }
  }

  /** The third loop after `n` limbs: `carry` times L is going back in. */
  ghost predicate Restoring(x: seq<int>, s: seq<int>, n: nat, carry: int) {
    && |x| == |s| == 64 && n <= 32 && -12 <= carry <= 12
    && (forall k :: 0 <= k < 32 ==> 0 <= s[k] <= 255)
    && (forall k :: 32 <= k < 64 ==> x[k] == s[k] == 0)
    && (forall k :: n <= k < 32 ==> x[k] == s[k])
    && (forall k :: 0 <= k < n ==> -3060 <= x[k] <= 3315)
    && Eliminating(x, s, LBytes(), 0, n, carry, 0, 256)
  }

  lemma RestoringStep(x: seq<int>, s: seq<int>, n: nat, carry: int)
    requires n < 32 && Restoring(x, s, n, carry)
    ensures Restoring(x[n := x[n] - carry * LByte(n)], s, n + 1, carry)
  {
    Spread(carry, LByte(n), 12);
    EliminateStep(x, s, LBytes(), 0, n, carry, 0, 0, 256);
  }

  method RestoreCarry(x: array<i64>, carry: i64)
    requires x.Length == 64 && Restoring(x[..], x[..], 0, carry)
    modifies x
    ensures Restoring(x[..], old(x[..]), 32, carry)
  {
    ghost var s := x[..];
    for j := 0 to 32
      invariant Restoring(x[..], s, j, carry)
    {
      ghost var u := x[..];
      RestoringStep(u, s, j, carry);
      x[j] := x[j] - carry * LByte(j);
      assert x[..] == u[j := x[j]];
    }
  }

  /** The last loop after `n` bytes: what is written plus what is left is what was there. */
  ghost predicate Emitting(x: seq<int>, r: seq<int>, s: seq<int>, n: nat) {
    && |x| == |s| == 64 && |r| == 32 && n <= 32
    && (forall k :: 0 <= k < n ==> 0 <= r[k] <= 255)
    && (forall k :: n <= k < 64 ==> -4000 <= x[k] <= 4000)
    && (forall k :: n < k < 64 ==> -3400 <= x[k] <= 3400)
    && Val(r[..n], 256) + Pow(256, n) * Val(x[n..], 256) == Val(s, 256)
  }

  lemma EmittingStep(x: seq<int>, r: seq<int>, s: seq<int>, n: nat)
    requires n < 32 && Emitting(x, r, s, n)
    ensures Emitting(x[n + 1 := x[n + 1] + x[n] / 256], r[n := x[n] % 256], s, n + 1)
  {
    var y := x[n + 1 := x[n + 1] + x[n] / 256];
    var q := r[n := x[n] % 256];
    ValPrefix(q, n, 256);
    assert q[..n] == r[..n];
    assert x[n..][1..] == x[n + 1..];
    assert y[n + 1..] == x[n + 1..][0 := x[n + 1] + x[n] / 256];
    ValUpdate(x[n + 1..], 0, x[n + 1] + x[n] / 256, 256);
    EmitTerm(x[n], Val(x[n + 1..], 256), Pow(256, n));
  }

  lemma EmitTerm(x: int, v: int, p: int)
    ensures p * (x + 256 * v) == p * (x % 256) + (256 * p) * (v + x / 256)
  {
    var q, m := x / 256, x % 256;
    assert x == m + 256 * q;
    assert p * (m + 256 * q + 256 * v) == p * m + (256 * p) * (v + q);
  }

  method EmitBytes(x: array<i64>) returns (r: array<byte>)
    requires x.Length == 64 && Within(x[..], -3400, 3400)
    modifies x
    ensures fresh(r) && r.Length == 32
    ensures Emitting(x[..], r[..], old(x[..]), 32)
  {
    ghost var s := x[..];
    r := new byte[32](_ => 0);
    assert s[0..] == s && r[..0] == [];
    for i := 0 to 32
      invariant Emitting(x[..], r[..], s, i)
    {
      ghost var u, v := x[..], r[..];
      EmittingStep(u, v, s, i);
      x[i + 1] := x[i + 1] + x[i] / 256;
      r[i] := x[i] % 256;
      assert x[..] == u[i + 1 := x[i + 1]] && r[..] == v[i := r[i]];
    }
  }

  // ---------------------------------------------------------------- the whole reduction

  /** Byte limbs below 2^256 and nothing above. */
  lemma BytesOnly(x: seq<int>)
    requires |x| == 64 && Within(x[..32], 0, 255) && Within(x[32..], 0, 0)
    ensures 0 <= Val(x, 256) < Pow(256, 32)
  {
    assert x == x[..32] + x[32..];
    ValConcat(x[..32], x[32..], 256);
    ValZeros(x[32..], 256);
    ValBound(x[..32], 256);
  }

  /** The carry of the second loop is 0 or -1. */
  lemma LastCarry(w: int, low: int, carry: int, p: int, m: int)
    requires 0 < m < p && -m <= w < m && 0 <= low < p && low + carry * p == w
    ensures carry == if w >= 0 then 0 else -1
  {
    MultipleSize(carry, p);
    MultipleSize(carry + 1, p);
    assert (carry + 1) * p == carry * p + p;
  }

  /** Putting the carry back leaves the remainder. */
  lemma FinalRemainder(v: int, w: int, low: int, carry: int, out: int, rest: int, p: int, m: int)
    requires 0 < m < p && -m <= w < m && Cong(w, v, m)
    requires 0 <= low < p && low + carry * p == w
    requires 0 <= out < p && out + p * rest == low - carry * m
    ensures out == v % m
  {
    LastCarry(w, low, carry, p, m);
    CongSym(w, v, m);
    if w >= 0 {
      HeadDigit(out, rest, w, 0, p);
      ModIs(v, w, m);
    } else {
      HeadDigit(out, rest, w + m, 1, p);
      CongBy(w, w + m, -1, m);
      CongTrans(v, w, w + m, m);
      ModIs(v, w + m, m);
    }
  }

  /** `kl_modL`. */
  method KlModL(x: array<i64>) returns (r: array<byte>)
    requires x.Length == 64 && Within(x[..], 0, 255)
    modifies x
    ensures fresh(r) && r.Length == 32
    ensures Val(r[..], 256) == old(Val(x[..], 256)) % L
  {
    ghost var v := Val(x[..], 256);
    CongRefl(v, L);
    var i := 63;
    while i >= 32
      invariant 31 <= i <= 63 && Settled(x[..], i) && Cong(Val(x[..], 256), v, L)
    {
      ghost var s := x[..];
      EliminateLimb(x, i);
      EliminatedCong(Val(x[..], 256), Val(s, 256), s[i], Pow(256, i - 32), L);
      CongTrans(Val(x[..], 256), Val(s, 256), v, L);
      i := i - 1;
    }
    ghost var s := x[..];
    var carry := SubtractQuotient(x);
    ghost var x1 := x[..];
    EliminateStart(x1, 0, carry, LBytes(), 256);
    RestoreCarry(x, carry);
    ghost var x2 := x[..];
    r := EmitBytes(x);
    Conclude(v, s, x1, x2, x[..], r[..], carry);
  }

  lemma EliminatedCong(v: int, u: int, xi: int, p: int, m: int)
    requires v == u - 16 * xi * (p * m)
    ensures Cong(v, u, m)
  {
    assert 16 * xi * (p * m) == (16 * xi * p) * m;
    CongBy(v, u, -(16 * xi * p), m);
  }

  lemma DividedValue(x: seq<int>, s: seq<int>, carry: int)
    requires Dividing(x, s, 32, carry)
    ensures 0 <= Val(x, 256) < Pow(256, 32)
    ensures Val(x, 256) + carry * Pow(256, 32) == Val(s, 256) - (s[31] / 16) * L
  {
    BytesOnly(x);
    LValue();
    assert LBytes()[..32] == LBytes();
  }

  lemma RestoredValue(x: seq<int>, s: seq<int>, carry: int)
    requires Restoring(x, s, 32, carry)
    ensures Val(x, 256) == Val(s, 256) - carry * L
  {
    LValue();
    assert LBytes()[..32] == LBytes();
  }

  lemma EmittedValue(x: seq<int>, r: seq<int>, s: seq<int>)
    requires Emitting(x, r, s, 32)
    ensures 0 <= Val(r, 256) < Pow(256, 32)
    ensures Val(r, 256) + Pow(256, 32) * Val(x[32..], 256) == Val(s, 256)
  {
    ValBound(r, 256);
    assert r[..32] == r;
  }

  lemma Conclude(v: int, s: seq<int>, x1: seq<int>, x2: seq<int>, x3: seq<int>, r: seq<int>, carry: int)
    requires Settled(s, 31) && Cong(Val(s, 256), v, L)
    requires Dividing(x1, s, 32, carry) && Restoring(x2, x1, 32, carry) && Emitting(x3, r, x2, 32)
    ensures Val(r, 256) == v % L
  {
    LastQuotient(s);
    DividedValue(x1, s, carry);
    RestoredValue(x2, x1, carry);
    EmittedValue(x3, r, x2);
    assert Pow(256, 32) > L by { Pow256(); }
    QuotientCong(v, Val(s, 256), s[31] / 16, L);
    FinalRemainder(v, Val(s, 256) - (s[31] / 16) * L, Val(x1, 256), carry,
      Val(r, 256), Val(x3[32..], 256), Pow(256, 32), L);
  }

  lemma QuotientCong(v: int, u: int, q: int, m: int)
    requires Cong(u, v, m)
    ensures Cong(u - q * m, v, m)
  {
    assert (-q) * m == -(q * m);
    CongBy(u - q * m, u, -q, m);
    CongTrans(u - q * m, u, v, m);
  }

  /** `kl_reduce`: a 64-byte digest modulo the group order. */
  method KlReduce(bytes: seq<byte>) returns (r: array<byte>)
    requires |bytes| == 64
    ensures fresh(r) && r.Length == 32
    ensures Val(r[..], 256) == Val(bytes, 256) % L
  {
    var x := new i64[64](i requires 0 <= i < 64 => bytes[i]);
    assert x[..] == bytes;
    r := KlModL(x);
  }
}
