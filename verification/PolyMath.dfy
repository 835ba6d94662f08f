/**
 * The arithmetic of Poly1305 in radix 2^26 (RFC 8439, section 2.5): five limbs, multiplied
 * by r with the overflow above 2^130 folded back five-fold.
 */
module PolyMath {
  import opened Limbs
  import opened Modular

  const R26: int := 0x400_0000
  const PP: int := 0x3_ffffffff_ffffffff_ffffffff_fffffffb

  // ---------------------------------------------------------------- multiplication

  ghost function Scaled(k: int, s: seq<int>): (t: seq<int>)
    ensures |t| == |s| && forall i :: 0 <= i < |s| ==> t[i] == k * s[i]
  {
    seq(|s|, i requires 0 <= i < |s| => k * s[i])
  }

  lemma {:induction false} ScaledValue(k: int, s: seq<int>, b: int)
    ensures Val(Scaled(k, s), b) == k * Val(s, b)
  {
    if |s| > 0 {
      assert Scaled(k, s)[1..] == Scaled(k, s[1..]);
      ScaledValue(k, s[1..], b);
      ScaleStep(k, s[0], b, Val(s[1..], b));
    }
  }

  lemma ScaleStep(k: int, x: int, b: int, v: int)
    ensures k * (x + b * v) == k * x + b * (k * v)
  {
  }

  /** `r` moved up one limb; what leaves the top comes back with weight 5. */
  ghost function Turn(r: seq<int>): (t: seq<int>)
    requires |r| == 5
    ensures |t| == 5
  {
    [5 * r[4], r[0], r[1], r[2], r[3]]
  }

  lemma TurnValue(r: seq<int>, b: int, m: int)
    requires |r| == 5 && Pow(b, 5) == m + 5
    ensures Cong(b * Val(r, b), Val(Turn(r), b), m)
  {
    var low := r[..4];
    assert r == low + [r[4]];
    ValAppend(low, r[4], b);
    assert Turn(r)[1..] == low;
    assert Pow(b, 5) == b * Pow(b, 4);
    TurnTerm(Val(low, b), r[4], Pow(b, 4), b, m);
    CongBy(b * Val(r, b), Val(Turn(r), b), r[4], m);
  }

  lemma TurnTerm(v: int, x: int, p: int, b: int, m: int)
    requires b * p == m + 5
    ensures b * (v + p * x) - (5 * x + b * v) == x * m
  {
    assert b * (p * x) == (m + 5) * x;
    assert (m + 5) * x == x * m + 5 * x;
  }

  /** The columns d0..d4 of `blocks`, with s[i] = 5 r[i]. */
  ghost function Columns(h: seq<int>, r: seq<int>): (d: seq<int>)
    requires |h| == |r| == 5
    ensures |d| == 5
  {
    var s1, s2, s3, s4 := 5 * r[1], 5 * r[2], 5 * r[3], 5 * r[4];
    [h[0] * r[0] + h[1] * s4 + h[2] * s3 + h[3] * s2 + h[4] * s1,
     h[0] * r[1] + h[1] * r[0] + h[2] * s4 + h[3] * s3 + h[4] * s2,
     h[0] * r[2] + h[1] * r[1] + h[2] * r[0] + h[3] * s4 + h[4] * s3,
     h[0] * r[3] + h[1] * r[2] + h[2] * r[1] + h[3] * r[0] + h[4] * s4,
     h[0] * r[4] + h[1] * r[3] + h[2] * r[2] + h[3] * r[1] + h[4] * r[0]]
  }

  ghost function Dot(h: seq<int>, v: seq<int>): int
    requires |h| == |v|
  {
    if |h| == 0 then 0 else h[0] * v[0] + Dot(h[1..], v[1..])
  }

  /** If each weight is b times the one before, a dot product is a product. */
  lemma {:induction false} DotValue(h: seq<int>, v: seq<int>, b: int, m: int)
    requires |h| == |v| > 0
    requires forall i :: 0 <= i < |v| - 1 ==> Cong(b * v[i], v[i + 1], m)
    ensures Cong(Dot(h, v), Val(h, b) * v[0], m)
  {
    if |h| == 1 {
      assert Val(h[1..], b) == 0 && b * 0 == 0;
      assert Val(h, b) == h[0];
      assert Dot(h, v) == h[0] * v[0];
      CongRefl(h[0] * v[0], m);
    } else {
      forall i | 0 <= i < |v[1..]| - 1
        ensures Cong(b * v[1..][i], v[1..][i + 1], m)
      {
        assert Cong(b * v[i + 1], v[i + 1 + 1], m);
      }
      DotValue(h[1..], v[1..], b, m);
      assert Cong(b * v[0], v[0 + 1], m);
      ColumnStep(h[0], Val(h[1..], b), v[0], v[1], Dot(h[1..], v[1..]), b, m);
    }
  }

  lemma Dot5(h: seq<int>, v: seq<int>)
    requires |h| == |v| == 5
    ensures Dot(h, v) == h[0] * v[0] + h[1] * v[1] + h[2] * v[2] + h[3] * v[3] + h[4] * v[4]
  {
    assert h[1..][1..] == h[2..] && h[2..][1..] == h[3..] && h[3..][1..] == h[4..];
    assert v[1..][1..] == v[2..] && v[2..][1..] == v[3..] && v[3..][1..] == v[4..];
    assert h[4..][1..] == [] && v[4..][1..] == [];
    assert Dot(h[4..], v[4..]) == h[4] * v[4] + Dot(h[4..][1..], v[4..][1..]);
    assert Dot(h[3..], v[3..]) == h[3] * v[3] + Dot(h[4..], v[4..]);
    assert Dot(h[2..], v[2..]) == h[2] * v[2] + Dot(h[3..], v[3..]);
    assert Dot(h[1..], v[1..]) == h[1] * v[1] + Dot(h[2..], v[2..]);
  }

  lemma ColumnStep(x: int, v: int, r: int, t: int, c: int, b: int, m: int)
    requires Cong(c, v * t, m) && Cong(b * r, t, m)
    ensures Cong(x * r + c, (x + b * v) * r, m)
  {
    CongRefl(v, m);
    CongSym(b * r, t, m);
    CongMul(v, v, t, b * r, m);
    CongTrans(c, v * t, v * (b * r), m);
    CongRefl(x * r, m);
    CongAdd(x * r, x * r, c, v * (b * r), m);
    assert x * r + v * (b * r) == (x + b * v) * r;
  }

  ghost function Plus(s: seq<int>, k: int, t: seq<int>): (u: seq<int>)
    requires |s| == |t| == 5
    ensures |u| == 5
  {
    [s[0] + k * t[0], s[1] + k * t[1], s[2] + k * t[2], s[3] + k * t[3], s[4] + k * t[4]]
  }

  lemma PlusValue(s: seq<int>, k: int, t: seq<int>, b: int)
    requires |s| == |t| == 5
    ensures Val(Plus(s, k, t), b) == Val(s, b) + k * Val(t, b)
  {
    assert Plus(s, k, t) == AddLimbs(s, Scaled(k, t));
    AddLimbsValue(s, Scaled(k, t), b);
    ScaledValue(k, t, b);
  }

  lemma ColumnsArePlus(h: seq<int>, r: seq<int>, r1: seq<int>, r2: seq<int>, r3: seq<int>, r4: seq<int>)
    requires |h| == |r| == 5
    requires r1 == Turn(r) && r2 == Turn(r1) && r3 == Turn(r2) && r4 == Turn(r3)
    ensures Columns(h, r) == Plus(Plus(Plus(Plus(Scaled(h[0], r), h[1], r1), h[2], r2), h[3], r3), h[4], r4)
  {
  }

  /** The columns denote the product modulo 2^130 - 5. */
  lemma ColumnsValue(h: seq<int>, r: seq<int>, b: int, m: int)
    requires |h| == |r| == 5 && Pow(b, 5) == m + 5
    ensures Cong(Val(Columns(h, r), b), Val(h, b) * Val(r, b), m)
  {
    var r1 := Turn(r);
    var r2 := Turn(r1);
    var r3 := Turn(r2);
    var r4 := Turn(r3);
    var c1 := Plus(Scaled(h[0], r), h[1], r1);
    var c2 := Plus(c1, h[2], r2);
    var c3 := Plus(c2, h[3], r3);
    ColumnsArePlus(h, r, r1, r2, r3, r4);
    ScaledValue(h[0], r, b);
    PlusValue(Scaled(h[0], r), h[1], r1, b);
    PlusValue(c1, h[2], r2, b);
    PlusValue(c2, h[3], r3, b);
    PlusValue(c3, h[4], r4, b);
    TurnValue(r, b, m);
    TurnValue(r1, b, m);
    TurnValue(r2, b, m);
    TurnValue(r3, b, m);
    var v := [Val(r, b), Val(r1, b), Val(r2, b), Val(r3, b), Val(r4, b)];
    Dot5(h, v);
    DotValue(h, v, b, m);
  }

  // ---------------------------------------------------------------- carries

  /** The six carries that end an iteration of `blocks`. */
  ghost function Carried(d: seq<int>): (t: seq<int>)
    requires |d| == 5
    ensures |t| == 5
  {
    var t1 := Shed(d, 0);
    var t2 := Shed(t1, 1);
    var t3 := Shed(t2, 2);
    var t4 := Shed(t3, 3);
    var t5 := Shed(t4, 4);
    Shed(t5, 0)
  }

  /** Limb `i` keeps 26 bits; what it sheds moves up, five-fold off the top. */
  ghost function Shed(t: seq<int>, i: nat): (u: seq<int>)
    requires |t| == 5 && i < 5
    ensures |u| == 5
  {
    Move(t, i, t[i] / R26, R26, 5)
  }

  lemma PowR26()
    ensures Pow(R26, 5) == PP + 5
  {
    PowAdd(R26, 4, 1);
    PowAdd(R26, 2, 2);
    assert Pow(R26, 2) == 0x10_0000_0000_0000 && Pow(R26, 1) == R26;
  }

  lemma ShedValue(t: seq<int>, i: nat)
    requires |t| == 5 && i < 5
    ensures Cong(Val(Shed(t, i), R26), Val(t, R26), PP)
  {
    var k := t[i] / R26;
    PowR26();
    MoveCong(t, i, k, R26, PP);
  }

  lemma MoveCong(t: seq<int>, i: nat, k: int, b: int, m: int)
    requires |t| == 5 && i < 5 && Pow(b, 5) == m + 5
    ensures Cong(Val(Move(t, i, k, b, 5), b), Val(t, b), m)
  {
    if i < 4 {
      MoveInner(t, i, k, b, 5);
      CongRefl(Val(t, b), m);
    } else {
      MoveTop(t, k, b, 5);
      assert (5 - (m + 5)) * k == (-k) * m;
      CongBy(Val(Move(t, i, k, b, 5), b), Val(t, b), -k, m);
    }
  }

  lemma CarriedValue(d: seq<int>)
    requires |d| == 5
    ensures Cong(Val(Carried(d), R26), Val(d, R26), PP)
  {
    var t1 := Shed(d, 0);
    var t2 := Shed(t1, 1);
    var t3 := Shed(t2, 2);
    var t4 := Shed(t3, 3);
    var t5 := Shed(t4, 4);
    ShedValue(d, 0);
    ShedValue(t1, 1);
    ShedValue(t2, 2);
    ShedValue(t3, 3);
    ShedValue(t4, 4);
    ShedValue(t5, 0);
    CongTrans(Val(t2, R26), Val(t1, R26), Val(d, R26), PP);
    CongTrans(Val(t3, R26), Val(t2, R26), Val(d, R26), PP);
    CongTrans(Val(t4, R26), Val(t3, R26), Val(d, R26), PP);
    CongTrans(Val(t5, R26), Val(t4, R26), Val(d, R26), PP);
    CongTrans(Val(Carried(d), R26), Val(t5, R26), Val(d, R26), PP);
  }

  // ---------------------------------------------------------------- bytes and limbs

  /** `cc_load32_le`. */
  function Load32(m: seq<byte>, at: nat): (w: u32)
    requires at + 4 <= |m|
  {
    m[at] + 0x100 * (m[at + 1] as int) + 0x1_0000 * (m[at + 2] as int) + 0x100_0000 * (m[at + 3] as int)
  }

  /** The five 26-bit pieces of a 16-byte block, as `blocks` cuts them. */
  function BlockLimbs(m: seq<byte>): (l: seq<u32>)
    requires |m| == 16
    ensures |l| == 5 && (forall i :: 0 <= i < 4 ==> l[i] < R26) && l[4] < 0x100_0000
  {
    [Load32(m, 0) % R26, Load32(m, 3) / 4 % R26, Load32(m, 6) / 16 % R26, Load32(m, 9) / 64 % R26,
     Load32(m, 12) / 0x100]
  }

  lemma Cut0(x: byte, a: byte, b: byte, c: byte)
    ensures (x + 0x100 * a + 0x1_0000 * b + 0x100_0000 * c) % R26 == x + 0x100 * a + 0x1_0000 * b + 0x100_0000 * (c % 4)
  {
    QuotRem(x + 0x100 * a + 0x1_0000 * b + 0x100_0000 * c, R26, c / 4, x + 0x100 * a + 0x1_0000 * b + 0x100_0000 * (c % 4));
  }

  lemma Cut1(x: byte, a: byte, b: byte, c: byte)
    ensures (x + 0x100 * a + 0x1_0000 * b + 0x100_0000 * c) / 4 % R26 == x / 4 + 0x40 * a + 0x4000 * b + 0x40_0000 * (c % 16)
  {
    var v := x / 4 + 0x40 * a + 0x4000 * b + 0x40_0000 * c;
    QuotRem(x + 0x100 * a + 0x1_0000 * b + 0x100_0000 * c, 4, v, x % 4);
    QuotRem(v, R26, c / 16, x / 4 + 0x40 * a + 0x4000 * b + 0x40_0000 * (c % 16));
  }

  lemma Cut2(x: byte, a: byte, b: byte, c: byte)
    ensures (x + 0x100 * a + 0x1_0000 * b + 0x100_0000 * c) / 16 % R26 == x / 16 + 0x10 * a + 0x1000 * b + 0x10_0000 * (c % 64)
  {
    var v := x / 16 + 0x10 * a + 0x1000 * b + 0x10_0000 * c;
    QuotRem(x + 0x100 * a + 0x1_0000 * b + 0x100_0000 * c, 16, v, x % 16);
    QuotRem(v, R26, c / 64, x / 16 + 0x10 * a + 0x1000 * b + 0x10_0000 * (c % 64));
  }

  lemma Cut3(x: byte, a: byte, b: byte, c: byte)
    ensures (x + 0x100 * a + 0x1_0000 * b + 0x100_0000 * c) / 64 % R26 == x / 64 + 4 * a + 0x400 * b + 0x4_0000 * c
  {
    var v := x / 64 + 4 * a + 0x400 * b + 0x4_0000 * c;
    QuotRem(x + 0x100 * a + 0x1_0000 * b + 0x100_0000 * c, 64, v, x % 64);
    QuotRem(v, R26, 0, x / 64 + 4 * a + 0x400 * b + 0x4_0000 * c);
  }

  lemma Cut4(x: byte, a: byte, b: byte, c: byte)
    ensures (x + 0x100 * a + 0x1_0000 * b + 0x100_0000 * c) / 0x100 == a + 0x100 * b + 0x1_0000 * c
  {
    QuotRem(x + 0x100 * a + 0x1_0000 * b + 0x100_0000 * c, 0x100, a + 0x100 * b + 0x1_0000 * c, x);
  }

  /** The pieces written byte by byte. */
  ghost function Pieces(m: seq<int>): (l: seq<int>)
    requires |m| == 16
    ensures |l| == 5
  {
    [m[0] + 0x100 * m[1] + 0x1_0000 * m[2] + 0x100_0000 * (m[3] % 4),
     m[3] / 4 + 0x40 * m[4] + 0x4000 * m[5] + 0x40_0000 * (m[6] % 16),
     m[6] / 16 + 0x10 * m[7] + 0x1000 * m[8] + 0x10_0000 * (m[9] % 64),
     m[9] / 64 + 4 * m[10] + 0x400 * m[11] + 0x4_0000 * m[12],
     m[13] + 0x100 * m[14] + 0x1_0000 * m[15]]
  }

  lemma BlockPieces(m: seq<byte>)
    requires |m| == 16
    ensures BlockLimbs(m) == Pieces(m)
  {
    Cut0(m[0], m[1], m[2], m[3]);
    Cut1(m[3], m[4], m[5], m[6]);
    Cut2(m[6], m[7], m[8], m[9]);
    Cut3(m[9], m[10], m[11], m[12]);
    Cut4(m[12], m[13], m[14], m[15]);
  }

  /** Cutting a block into limbs keeps its value. */
  lemma BlockValue(m: seq<byte>)
    requires |m| == 16
    ensures Val(BlockLimbs(m), R26) == Val(m, 256)
  {
    hide BlockLimbs, Load32;
    BlockPieces(m);
    FourWords(m);
    var l := Pieces(m);
    Horner4(l, R26);
    assert l[4..] == [l[4]];
    assert Val(l[4..], R26) == l[4];
  }

  // ---------------------------------------------------------------- one block

  /** The limbs between blocks: 26 bits each, but limb 1 may hold one late carry. */
  ghost predicate Limbed(h: seq<int>) {
    && |h| == 5 && 0 <= h[0] < R26 && 0 <= h[1] < R26 + 64
    && 0 <= h[2] < R26 && 0 <= h[3] < R26 && 0 <= h[4] < R26
  }

  ghost predicate KeyLimbs(r: seq<int>) {
    && |r| == 5 && 0 <= r[0] < R26 && 0 <= r[1] < R26 && 0 <= r[2] < R26 && 0 <= r[3] < R26 && 0 <= r[4] < R26
  }

  /** The accumulator with a block and its marker bit added in. */
  ghost function Absorb(h: seq<int>, m: seq<byte>, hibit: int): (a: seq<int>)
    requires |h| == 5 && |m| == 16
    ensures |a| == 5
  {
    var l := BlockLimbs(m);
    [h[0] + l[0], h[1] + l[1], h[2] + l[2], h[3] + l[3], h[4] + (l[4] + hibit)]
  }

  lemma TermBound(x: int, y: int, a: int, b: int)
    requires 0 <= x <= a && 0 <= y <= b
    ensures 0 <= x * y <= a * b
  {
    assert x * y <= a * y by { assert (a - x) * y >= 0; }
    assert a * y <= a * b by { assert a * (b - y) >= 0; }
  }

  // Limbs after a block is added, key limbs, and five products of the two.
  const AMAX: int := 0x800_003f
  const RMAX: int := 0x3ff_ffff
  const CMAX: int := 0xa0_0004_c3ff_fec5

  lemma RowBound(a0: int, a1: int, a2: int, a3: int, a4: int, x0: int, x1: int, x2: int, x3: int, x4: int, k: nat)
    requires 0 <= a0 <= AMAX && 0 <= a1 <= AMAX && 0 <= a2 <= AMAX && 0 <= a3 <= AMAX && 0 <= a4 <= AMAX
    requires 0 <= x0 <= k && 0 <= x1 <= k && 0 <= x2 <= k && 0 <= x3 <= k && 0 <= x4 <= k
    ensures 0 <= a0 * x0 + a1 * x1 + a2 * x2 + a3 * x3 + a4 * x4 <= 5 * (AMAX * k)
  {
    TermBound(a0, x0, AMAX, k);
    TermBound(a1, x1, AMAX, k);
    TermBound(a2, x2, AMAX, k);
    TermBound(a3, x3, AMAX, k);
    TermBound(a4, x4, AMAX, k);
  }

  /** No column leaves 58 bits, and the top one stays below 56. */
  lemma ColumnBounds(a0: int, a1: int, a2: int, a3: int, a4: int, r0: int, r1: int, r2: int, r3: int, r4: int)
    requires 0 <= a0 <= AMAX && 0 <= a1 <= AMAX && 0 <= a2 <= AMAX && 0 <= a3 <= AMAX && 0 <= a4 <= AMAX
    requires 0 <= r0 <= RMAX && 0 <= r1 <= RMAX && 0 <= r2 <= RMAX && 0 <= r3 <= RMAX && 0 <= r4 <= RMAX
    ensures var d := Columns([a0, a1, a2, a3, a4], [r0, r1, r2, r3, r4]);
      && 0 <= d[0] <= 5 * CMAX && 0 <= d[1] <= 5 * CMAX && 0 <= d[2] <= 5 * CMAX
      && 0 <= d[3] <= 5 * CMAX && 0 <= d[4] <= CMAX
  {
    var s1, s2, s3, s4 := 5 * r1, 5 * r2, 5 * r3, 5 * r4;
    RowBound(a0, a1, a2, a3, a4, r0, s4, s3, s2, s1, 5 * RMAX);
    RowBound(a0, a1, a2, a3, a4, r1, r0, s4, s3, s2, 5 * RMAX);
    RowBound(a0, a1, a2, a3, a4, r2, r1, r0, s4, s3, 5 * RMAX);
    RowBound(a0, a1, a2, a3, a4, r3, r2, r1, r0, s4, 5 * RMAX);
    RowBound(a0, a1, a2, a3, a4, r4, r3, r2, r1, r0, RMAX);
  }

  lemma AbsorbValue(h: seq<int>, m: seq<byte>, hibit: int)
    requires |h| == 5 && |m| == 16
    ensures Val(Absorb(h, m, hibit), R26) == Val(h, R26) + (Val(m, 256) + Pow(R26, 4) * hibit)
  {
    hide Val, Load32;
    var l := BlockLimbs(m);
    var u := AddLimbs(h, l);
    assert Absorb(h, m, hibit) == u[4 := u[4] + hibit];
    ValUpdate(u, 4, u[4] + hibit, R26);
    AddLimbsValue(h, l, R26);
    BlockValue(m);
  }

  /** The value of one step: (h + block + marker) r, modulo 2^130 - 5. */
  lemma StepValue(a: seq<int>, r: seq<int>)
    requires |a| == |r| == 5
    ensures Cong(Val(Carried(Columns(a, r)), R26), Val(a, R26) * Val(r, R26), PP)
  {
    PowR26();
    ColumnsValue(a, r, R26, PP);
    CarriedValue(Columns(a, r));
    CongTrans(Val(Carried(Columns(a, r)), R26), Val(Columns(a, r), R26), Val(a, R26) * Val(r, R26), PP);
  }

  /** The loop body of `blocks`: no 32-bit or 64-bit operation wraps. */
  method BlockStep(h0: u32, h1: u32, h2: u32, h3: u32, h4: u32,
    r0: u32, r1: u32, r2: u32, r3: u32, r4: u32, m: seq<byte>, hibit: u32)
    returns (g0: u32, g1: u32, g2: u32, g3: u32, g4: u32)
    requires Limbed([h0, h1, h2, h3, h4]) && KeyLimbs([r0, r1, r2, r3, r4])
    requires |m| == 16 && hibit <= 0x100_0000
    ensures Limbed([g0, g1, g2, g3, g4])
    ensures Cong(Val([g0, g1, g2, g3, g4], R26),
      (Val([h0, h1, h2, h3, h4], R26) + (Val(m, 256) + Pow(R26, 4) * hibit)) * Val([r0, r1, r2, r3, r4], R26), PP)
  {
    ghost var h := [h0, h1, h2, h3, h4];
    assert h0 == h[0] && h1 == h[1] && h2 == h[2] && h3 == h[3] && h4 == h[4];
    ghost var r := [r0, r1, r2, r3, r4];
    assert r0 == r[0] && r1 == r[1] && r2 == r[2] && r3 == r[3] && r4 == r[4];
    var s1: u32, s2: u32, s3: u32, s4: u32 := r1 * 5, r2 * 5, r3 * 5, r4 * 5;
    g0 := h0 + Load32(m, 0) % R26;
    g1 := h1 + Load32(m, 3) / 4 % R26;
    g2 := h2 + Load32(m, 6) / 16 % R26;
    g3 := h3 + Load32(m, 9) / 64 % R26;
    g4 := h4 + (Load32(m, 12) / 0x100 + hibit);
    assert [g0, g1, g2, g3, g4] == Absorb(h, m, hibit);
    ColumnBounds(g0, g1, g2, g3, g4, r0, r1, r2, r3, r4);
    ghost var d := Columns([g0, g1, g2, g3, g4], r);
    var d0: u64 := g0 * r0 + g1 * s4 + g2 * s3 + g3 * s2 + g4 * s1;
    var d1: u64 := g0 * r1 + g1 * r0 + g2 * s4 + g3 * s3 + g4 * s2;
    var d2: u64 := g0 * r2 + g1 * r1 + g2 * r0 + g3 * s4 + g4 * s3;
    var d3: u64 := g0 * r3 + g1 * r2 + g2 * r1 + g3 * r0 + g4 * s4;
    var d4: u64 := g0 * r4 + g1 * r3 + g2 * r2 + g3 * r1 + g4 * r0;
    assert d == [d0, d1, d2, d3, d4];
    g0, g1, g2, g3, g4 := CarryColumns(d0, d1, d2, d3, d4);
    BlockCong(h, r, m, hibit, [g0, g1, g2, g3, g4]);
  }

  lemma BlockCong(h: seq<int>, r: seq<int>, m: seq<byte>, hibit: int, t: seq<int>)
    requires |h| == |r| == 5 && |m| == 16 && t == Carried(Columns(Absorb(h, m, hibit), r))
    ensures Cong(Val(t, R26), (Val(h, R26) + (Val(m, 256) + Pow(R26, 4) * hibit)) * Val(r, R26), PP)
  {
    AbsorbValue(h, m, hibit);
    StepValueAs(Absorb(h, m, hibit), r, Val(h, R26) + (Val(m, 256) + Pow(R26, 4) * hibit), t);
  }

  lemma StepValueAs(a: seq<int>, r: seq<int>, v: int, t: seq<int>)
    requires |a| == |r| == 5 && v == Val(a, R26) && t == Carried(Columns(a, r))
    ensures Cong(Val(t, R26), v * Val(r, R26), PP)
  {
    StepValue(a, r);
  }

  method CarryColumns(d0: u64, d1: u64, d2: u64, d3: u64, d4: u64)
    returns (h0: u32, h1: u32, h2: u32, h3: u32, h4: u32)
    requires d0 <= 5 * CMAX && d1 <= 5 * CMAX && d2 <= 5 * CMAX && d3 <= 5 * CMAX && d4 <= CMAX
    ensures Limbed([h0, h1, h2, h3, h4])
    ensures [h0, h1, h2, h3, h4] == Carried([d0, d1, d2, d3, d4])
  {
    var e1: u64, e2: u64, e3: u64, e4: u64;
    var c: u32;
    c := d0 / R26;
    h0 := d0 % R26;
    e1 := d1 + c;
    c := e1 / R26;
    h1 := e1 % R26;
    e2 := d2 + c;
    c := e2 / R26;
    h2 := e2 % R26;
    e3 := d3 + c;
    c := e3 / R26;
    h3 := e3 % R26;
    e4 := d4 + c;
    c := e4 / R26;
    h4 := e4 % R26;
    ghost var top := c;
    h0 := h0 + c * 5;
    c := h0 / R26;
    ghost var late := h0;
    h0 := h0 % R26;
    h1 := h1 + c;
    CarriedChain([d0, d1, d2, d3, d4], [h0, h1, h2, h3, h4], e1, e2, e3, e4, late);
  }

  lemma CarriedChain(d: seq<int>, h: seq<int>, e1: int, e2: int, e3: int, e4: int, late: int)
    requires |d| == |h| == 5
    requires e1 == d[1] + d[0] / R26 && e2 == d[2] + e1 / R26 && e3 == d[3] + e2 / R26 && e4 == d[4] + e3 / R26
    requires late == d[0] % R26 + 5 * (e4 / R26)
    requires h == [late % R26, e1 % R26 + late / R26, e2 % R26, e3 % R26, e4 % R26]
    ensures h == Carried(d)
  {
    var t1 := Shed(d, 0);
    var t2 := Shed(t1, 1);
    var t3 := Shed(t2, 2);
    var t4 := Shed(t3, 3);
    var t5 := Shed(t4, 4);
    assert t1 == [d[0] % R26, e1, d[2], d[3], d[4]];
    assert t2 == [d[0] % R26, e1 % R26, e2, d[3], d[4]];
    assert t3 == [d[0] % R26, e1 % R26, e2 % R26, e3, d[4]];
    assert t4 == [d[0] % R26, e1 % R26, e2 % R26, e3 % R26, e4];
    assert t5 == [late, e1 % R26, e2 % R26, e3 % R26, e4 % R26];
  }

  // ---------------------------------------------------------------- the final reduction

  ghost predicate Digits26(h: seq<int>) {
    |h| == 5 && Within(h, 0, R26 - 1)
  }

  /** The carries of `finish`, starting and ending at limb 1. */
  ghost function Settle(h: seq<int>): (t: seq<int>)
    requires |h| == 5
    ensures |t| == 5
  {
    var t1 := Shed(h, 1);
    var t2 := Shed(t1, 2);
    var t3 := Shed(t2, 3);
    var t4 := Shed(t3, 4);
    Shed(t4, 0)
  }

  lemma SettleValue(h: seq<int>)
    requires |h| == 5
    ensures Cong(Val(Settle(h), R26), Val(h, R26), PP)
  {
    var t1 := Shed(h, 1);
    var t2 := Shed(t1, 2);
    var t3 := Shed(t2, 3);
    var t4 := Shed(t3, 4);
    ShedValue(h, 1);
    ShedValue(t1, 2);
    ShedValue(t2, 3);
    ShedValue(t3, 4);
    ShedValue(t4, 0);
    CongTrans(Val(t2, R26), Val(t1, R26), Val(h, R26), PP);
    CongTrans(Val(t3, R26), Val(t2, R26), Val(h, R26), PP);
    CongTrans(Val(t4, R26), Val(t3, R26), Val(h, R26), PP);
    CongTrans(Val(Settle(h), R26), Val(t4, R26), Val(h, R26), PP);
  }

  /**
   * One pass is enough: limb 0 only receives a carry when limb 1 overflowed, and then limb 1
   * has room for the last one.
   */
  method SettleLimbs(x0: u32, x1: u32, x2: u32, x3: u32, x4: u32)
    returns (h0: u32, h1: u32, h2: u32, h3: u32, h4: u32)
    requires Limbed([x0, x1, x2, x3, x4])
    ensures h0 < R26 && h1 < R26 && h2 < R26 && h3 < R26 && h4 < R26
    ensures [h0, h1, h2, h3, h4] == Settle([x0, x1, x2, x3, x4])
  {
    ghost var x := [x0, x1, x2, x3, x4];
    assert x0 == x[0] && x1 == x[1] && x2 == x[2] && x3 == x[3] && x4 == x[4];
    h0, h1, h2, h3, h4 := x0, x1, x2, x3, x4;
    hide Val;
    var c: u32;
    c := h1 / R26;
    h1 := h1 % R26;
    ghost var t1 := [x0, h1, x2 + c, x3, x4];
    h2 := h2 + c;
    c := h2 / R26;
    h2 := h2 % R26;
    ghost var t2 := [x0, h1, h2, x3 + c, x4];
    h3 := h3 + c;
    c := h3 / R26;
    h3 := h3 % R26;
    ghost var t3 := [x0, h1, h2, h3, x4 + c];
    h4 := h4 + c;
    c := h4 / R26;
    h4 := h4 % R26;
    h0 := h0 + c * 5;
    ghost var t4 := [h0, h1, h2, h3, h4];
    c := h0 / R26;
    h0 := h0 % R26;
    h1 := h1 + c;
    assert t1 == Shed(x, 1);
    assert t2 == Shed(t1, 2);
    assert t3 == Shed(t2, 3);
    assert t4 == Shed(t3, 4);
    assert [h0, h1, h2, h3, h4] == Shed(t4, 0);
  }

  /** Adding 5 overflows 2^130 exactly when the value is p or more. */
  method SubtractP(h0: u32, h1: u32, h2: u32, h3: u32, h4: u32)
    returns (g0: u32, g1: u32, g2: u32, g3: u32, g4: u32)
    requires h0 < R26 && h1 < R26 && h2 < R26 && h3 < R26 && h4 < R26
    ensures g0 < R26 && g1 < R26 && g2 < R26 && g3 < R26 && g4 < R26
    ensures var v := Val([h0, h1, h2, h3, h4], R26);
      Val([g0, g1, g2, g3, g4], R26) == if v >= PP then v - PP else v
  {
    hide Val;
    var c: u32;
    g0 := h0 + 5;
    c := g0 / R26;
    g0 := g0 % R26;
    g1 := h1 + c;
    c := g1 / R26;
    g1 := g1 % R26;
    g2 := h2 + c;
    c := g2 / R26;
    g2 := g2 % R26;
    g3 := h3 + c;
    c := g3 / R26;
    g3 := g3 % R26;
    g4 := (h4 + c - R26) % 0x1_0000_0000;
    ghost var t := [g0, g1, g2, g3, h4 + c];
    FivePlus([h0, h1, h2, h3, h4], t);
    assert h4 + c >= R26 ==> g4 == h4 + c - R26 && t[4 := t[4] - R26] == [g0, g1, g2, g3, g4];
    if g4 / 0x8000_0000 == 1 {
      g0, g1, g2, g3, g4 := h0, h1, h2, h3, h4;
    }
  }

  lemma FivePlus(h: seq<int>, t: seq<int>)
    requires Digits26(h) && |t| == 5
    requires t == [(h[0] + 5) % R26, (h[1] + (h[0] + 5) / R26) % R26,
      (h[2] + (h[1] + (h[0] + 5) / R26) / R26) % R26,
      (h[3] + (h[2] + (h[1] + (h[0] + 5) / R26) / R26) / R26) % R26,
      h[4] + (h[3] + (h[2] + (h[1] + (h[0] + 5) / R26) / R26) / R26) / R26]
    ensures Val(t[4 := t[4] - R26], R26) == Val(h, R26) - PP
    ensures t[4] >= R26 <==> Val(h, R26) >= PP
  {
    FiveTerms(h);
    FiveTerms(t);
    FiveTerms(t[4 := t[4] - R26]);
  }

  lemma FiveTerms(h: seq<int>)
    requires |h| == 5
    ensures Val(h, R26) == h[0] + R26 * h[1] + 0x10_0000_0000_0000 * h[2]
      + 0x40_0000_0000_0000_0000_00 * h[3] + 0x1_0000_0000_0000_0000_0000_0000_00 * h[4]
  {
    Horner4(h, R26);
    assert h[4..] == [h[4]];
    assert Val(h[4..], R26) == h[4];
  }

  /** Five full limbs stay below 2^130, so one subtraction of p reduces them. */
  lemma OneSubtraction(v: int, h: seq<int>)
    requires Digits26(h) && v == Val(h, R26)
    ensures v % PP == if v >= PP then v - PP else v
  {
    ValBound(h, R26);
    PowR26();
    ReduceOnce(v, PP);
  }

  lemma ReduceOnce(v: int, m: int)
    requires m > 1 && 0 <= v < 2 * m
    ensures v % m == if v >= m then v - m else v
  {
    QuotRem(v, m, if v >= m then 1 else 0, if v >= m then v - m else v);
  }

  // ---------------------------------------------------------------- words and the pad

  const W: int := 0x1_0000_0000
  const W4: int := 0x1_00000000_00000000_00000000_00000000

  /** Five limbs packed into four words; what would pass 2^128 falls off. */
  method PackWords(h0: u32, h1: u32, h2: u32, h3: u32, h4: u32) returns (w0: u32, w1: u32, w2: u32, w3: u32)
    requires h0 < R26 && h1 < R26 && h2 < R26 && h3 < R26 && h4 < R26
    ensures Val([w0, w1, w2, w3], W) == Val([h0, h1, h2, h3, h4], R26) % W4
  {
    w0 := h0 + h1 % 0x40 * R26;
    w1 := h1 / 0x40 + h2 % 0x1000 * 0x10_0000;
    w2 := h2 / 0x1000 + h3 % 0x4_0000 * 0x4000;
    w3 := h3 / 0x4_0000 + h4 % 0x100_0000 * 0x100;
    FiveTerms([h0, h1, h2, h3, h4]);
    FourTerms(w0, w1, w2, w3);
    QuotRem(Val([h0, h1, h2, h3, h4], R26), W4, h4 / 0x100_0000, Val([w0, w1, w2, w3], W));
  }

  lemma FourTerms(a: u32, b: u32, c: u32, d: u32)
    ensures Val([a, b, c, d], W) == a + W * b + 0x1_00000000_00000000 * c + 0x1_00000000_00000000_00000000 * d
    ensures 0 <= Val([a, b, c, d], W) < W4
  {
    var s: seq<int> := [a, b, c, d];
    Horner4(s, W);
    assert s[4..] == [];
  }

  /** The 64-bit additions of the pad: the sum modulo 2^128. */
  method AddPad(h0: u32, h1: u32, h2: u32, h3: u32, p0: u32, p1: u32, p2: u32, p3: u32)
    returns (w0: u32, w1: u32, w2: u32, w3: u32)
    ensures Val([w0, w1, w2, w3], W) == (Val([h0, h1, h2, h3], W) + Val([p0, p1, p2, p3], W)) % W4
  {
    var f: u64 := h0 + p0;
    w0 := f % W;
    ghost var f0 := f;
    f := h1 + p1 + f / W;
    w1 := f % W;
    ghost var f1 := f;
    f := h2 + p2 + f / W;
    w2 := f % W;
    ghost var f2 := f;
    f := h3 + p3 + f / W;
    w3 := f % W;
    FourTerms(h0, h1, h2, h3);
    FourTerms(p0, p1, p2, p3);
    FourTerms(w0, w1, w2, w3);
    assert f0 == w0 + W * (f0 / W) && f1 == w1 + W * (f1 / W);
    assert f2 == w2 + W * (f2 / W) && f == w3 + W * (f / W);
    QuotRem(Val([h0, h1, h2, h3], W) + Val([p0, p1, p2, p3], W), W4, f / W, Val([w0, w1, w2, w3], W));
  }

  /** `cc_store32_le`. */
  function Store32(v: u32): (s: seq<byte>)
    ensures |s| == 4 && Val(s, 256) == v
  {
    var s := [v % 0x100, v / 0x100 % 0x100, v / 0x1_0000 % 0x100, v / 0x100_0000 % 0x100];
    Store32Value(v, s);
    s
  }

  lemma Store32Value(v: u32, s: seq<int>)
    requires s == [v % 0x100, v / 0x100 % 0x100, v / 0x1_0000 % 0x100, v / 0x100_0000 % 0x100]
    ensures Val(s, 256) == v
  {
    Horner4(s, 256);
    assert s[4..] == [];
  }

  /** Four stored words are sixteen bytes of the same value. */
  lemma StoredWords(a: u32, b: u32, c: u32, d: u32)
    ensures Val(Store32(a) + Store32(b) + Store32(c) + Store32(d), 256) == Val([a, b, c, d], W)
  {
    var u := Store32(a) + Store32(b);
    ValConcat(Store32(a), Store32(b), 256);
    ValConcat(u, Store32(c), 256);
    ValConcat(u + Store32(c), Store32(d), 256);
    FourTerms(a, b, c, d);
    PowAdd(256, 4, 4);
    PowAdd(256, 8, 4);
    assert Pow(256, 4) == W;
  }
}
