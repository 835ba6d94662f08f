/**
 * Extended-coordinate point arithmetic on limb arrays (include/keylight/ed25519.hpp):
 * addition, the scalar ladder, decompression and compression.
 */
module Edwards {
  import opened Limbs
  import opened Modular
  import opened Field25519
  import opened Curve
  import opened Fields
  import opened Scalars

  // ---------------------------------------------------------------- constants

  const ED: int := 0x52036cee_2b6ffe73_8cc74079_7779e898_00700a4d_4141d8ab_75eb4dca_135978a3
  const ED2: int := 0x2406d9dc_56dffce7_198e80f2_eef3d130_00e0149a_8283b156_ebd69b94_26b2f159
  const SQRTM1: int := 0x2b832480_4fc1df0b_2b4d0099_3dfbd7a7_2f431806_ad2fe478_c4ee1b27_4a0ea0b0

  function KD(): (s: seq<i64>)
    ensures Normal(s)
  {
    [0x78a3, 0x1359, 0x4dca, 0x75eb, 0xd8ab, 0x4141, 0x0a4d, 0x0070,
     0xe898, 0x7779, 0x4079, 0x8cc7, 0xfe73, 0x2b6f, 0x6cee, 0x5203]
  }

  function KD2(): (s: seq<i64>)
    ensures Normal(s)
  {
    [0xf159, 0x26b2, 0x9b94, 0xebd6, 0xb156, 0x8283, 0x149a, 0x00e0,
     0xd130, 0xeef3, 0x80f2, 0x198e, 0xfce7, 0x56df, 0xd9dc, 0x2406]
  }

  function KI(): (s: seq<i64>)
    ensures Normal(s)
  {
    [0xa0b0, 0x4a0e, 0x1b27, 0xc4ee, 0xe478, 0xad2f, 0x1806, 0x2f43,
     0xd7a7, 0x3dfb, 0x0099, 0x2b4d, 0xdf0b, 0x4fc1, 0x2480, 0x2b83]
  }

  /** Sixteen limbs denote `v`, checked four at a time against its 64-bit words. */
  lemma SixteenLimbs(s: seq<int>, v: int)
    requires |s| == 16
    requires v == Word(s, 0) + 0x1_00000000_00000000 * (Word(s, 4)
      + 0x1_00000000_00000000 * (Word(s, 8) + 0x1_00000000_00000000 * Word(s, 12)))
    ensures Val(s, B) == v
  {
    Horner4(s, B);
    Horner4(s[4..], B);
    Horner4(s[8..], B);
    Horner4(s[12..], B);
    assert s[4..][4..] == s[8..] && s[8..][4..] == s[12..] && s[12..][4..] == [];
  }

  ghost function Word(s: seq<int>, i: nat): int
    requires i + 4 <= |s|
  {
    s[i] + 0x1_0000 * s[i + 1] + 0x1_0000_0000 * s[i + 2] + 0x1_0000_0000_0000 * s[i + 3]
  }

  /** A table of sixteen 16-bit limbs is an element the field operations accept. */
  lemma LimbConstant(s: seq<int>, v: int)
    requires Normal(s) && 0 <= v < P
    requires v == Word(s, 0) + 0x1_00000000_00000000 * (Word(s, 4)
      + 0x1_00000000_00000000 * (Word(s, 8) + 0x1_00000000_00000000 * Word(s, 12)))
    ensures Loose(s) && Elem(s) == v
  {
    SixteenLimbs(s, v);
  }

  lemma KDElem()
    ensures Loose(KD()) && Elem(KD()) == ED
  {
    LimbConstant(KD(), ED);
  }

  lemma KD2Elem()
    ensures Loose(KD2()) && Elem(KD2()) == ED2
  {
    LimbConstant(KD2(), ED2);
  }

  lemma KIElem()
    ensures Loose(KI()) && Elem(KI()) == SQRTM1
  {
    LimbConstant(KI(), SQRTM1);
  }

  /** `kD` is -121665/121666, `kD2` is twice it and `kI` a square root of -1, modulo p. */
  lemma Constants()
    ensures (121666 * ED + 121665) % P == 0
    ensures 2 * ED % P == ED2
    ensures (SQRTM1 * SQRTM1 + 1) % P == 0
  {
  }

  // ---------------------------------------------------------------- addition

  // The largest limb a point coordinate may hold between operations.
  const SMALL: int := 0x2_0000

  class Point {
    const x: array<i64>
    const y: array<i64>
    const z: array<i64>
    const t: array<i64>

    constructor (x: array<i64>, y: array<i64>, z: array<i64>, t: array<i64>)
      ensures this.x == x && this.y == y && this.z == z && this.t == t
    {
      this.x, this.y, this.z, this.t := x, y, z, t;
    }

    ghost predicate Shape() {
      && x.Length == 16 && y.Length == 16 && z.Length == 16 && t.Length == 16
      && x != y && x != z && x != t && y != z && y != t && z != t
    }

    ghost predicate Valid()
      reads x, y, z, t
    {
      && Shape()
      && Within(x[..], -SMALL, SMALL) && Within(y[..], -SMALL, SMALL)
      && Within(z[..], -SMALL, SMALL) && Within(t[..], -SMALL, SMALL)
    }

    ghost function Value(): Ext
      reads x, y, z, t
    {
      Ext(Elem(x[..]), Elem(y[..]), Elem(z[..]), Elem(t[..]))
    }
  }

  /** The points are one object, or share no coordinate array. */
  ghost predicate Apart(p: Point, q: Point) {
    p == q || {p.x, p.y, p.z, p.t} !! {q.x, q.y, q.z, q.t}
  }

  /** An array holding a constant element. */
  method NewGf(s: seq<i64>, ghost v: int) returns (a: array<i64>)
    requires Loose(s) && Elem(s) == v
    ensures fresh(a) && a.Length == 16 && a[..] == s && Loose(a[..]) && Elem(a[..]) == v
  {
    a := new i64[16](i requires 0 <= i < 16 => s[i]);
    assert a[..] == s;
  }

  method NewD2() returns (a: array<i64>)
    ensures fresh(a) && a.Length == 16 && Loose(a[..]) && Elem(a[..]) == ED2
  {
    KD2Elem();
    a := NewGf(KD2(), ED2);
  }

  // The products of `pt_add`, before any coordinate is overwritten.

  method ProductA(p: Point, q: Point) returns (a: array<i64>)
    requires p.Valid() && q.Valid()
    ensures fresh(a) && a.Length == 16 && Tight(a[..])
    ensures Elem(a[..]) == TermA(p.Value(), q.Value(), P)
  {
    a := new i64[16](_ => 0);
    var t := new i64[16](_ => 0);
    GfSub(a, p.y, p.x);
    GfSub(t, q.y, q.x);
    GfMul(a, a, t);
  }

  method ProductB(p: Point, q: Point) returns (b: array<i64>)
    requires p.Valid() && q.Valid()
    ensures fresh(b) && b.Length == 16 && Tight(b[..])
    ensures Elem(b[..]) == TermB(p.Value(), q.Value(), P)
  {
    b := new i64[16](_ => 0);
    var t := new i64[16](_ => 0);
    GfAdd(b, p.x, p.y);
    GfAdd(t, q.x, q.y);
    GfMul(b, b, t);
  }

  method ProductC(p: Point, q: Point) returns (c: array<i64>)
    requires p.Valid() && q.Valid()
    ensures fresh(c) && c.Length == 16 && Tight(c[..])
    ensures Elem(c[..]) == TermC(p.Value(), q.Value(), ED2, P)
  {
    c := new i64[16](_ => 0);
    var kd2 := NewD2();
    GfMul(c, p.t, q.t);
    GfMul(c, c, kd2);
  }

  method ProductD(p: Point, q: Point) returns (d: array<i64>)
    requires p.Valid() && q.Valid()
    ensures fresh(d) && d.Length == 16 && Within(d[..], -2 * SMALL, 2 * SMALL)
    ensures Elem(d[..]) == TermD(p.Value(), q.Value(), P)
  {
    d := new i64[16](_ => 0);
    GfMul(d, p.z, q.z);
    GfAdd(d, d, d);
  }

  /** A difference and a sum of `pt_add`. */
  method DiffAndSum(u: array<i64>, v: array<i64>) returns (e: array<i64>, h: array<i64>)
    requires u.Length == 16 && v.Length == 16 && Bounded(u[..]) && Bounded(v[..])
    ensures fresh(e) && fresh(h) && e.Length == 16 && h.Length == 16
    ensures Loose(e[..]) && Loose(h[..])
    ensures Elem(e[..]) == FSub(Elem(u[..]), Elem(v[..]))
    ensures Elem(h[..]) == FAdd(Elem(u[..]), Elem(v[..]))
  {
    e := new i64[16](_ => 0);
    GfSub(e, u, v);
    h := new i64[16](_ => 0);
    GfAdd(h, u, v);
  }

  ghost predicate Bounded(s: seq<int>) {
    |s| == 16 && Within(s, -2 * SMALL, 2 * SMALL)
  }

  /** The four closing products of `pt_add`. */
  method Assign(p: Point, e: array<i64>, f: array<i64>, g: array<i64>, h: array<i64>)
    requires p.Shape() && {p.x, p.y, p.z, p.t} !! {e, f, g, h}
    requires e.Length == 16 && f.Length == 16 && g.Length == 16 && h.Length == 16
    requires Loose(e[..]) && Loose(f[..]) && Loose(g[..]) && Loose(h[..])
    modifies p.x, p.y, p.z, p.t
    ensures p.Valid()
    ensures p.Value() == Ext(FMul(Elem(e[..]), Elem(f[..])), FMul(Elem(h[..]), Elem(g[..])),
                             FMul(Elem(g[..]), Elem(f[..])), FMul(Elem(e[..]), Elem(h[..])))
  {
    GfMul(p.x, e, f);
    GfMul(p.y, h, g);
    GfMul(p.z, g, f);
    GfMul(p.t, e, h);
  }

  /** `pt_add`: p becomes p + q, also when `p` and `q` are the same point object. */
  method PtAdd(p: Point, q: Point)
    requires p.Valid() && q.Valid() && Apart(p, q)
    modifies p.x, p.y, p.z, p.t
    ensures p.Valid()
    ensures p.Value() == AddExt(old(p.Value()), old(q.Value()), ED2, P)
  {
    var a := ProductA(p, q);
    var b := ProductB(p, q);
    var c := ProductC(p, q);
    var d := ProductD(p, q);
    var e, h := DiffAndSum(b, a);
    var f, g := DiffAndSum(d, c);
    Assign(p, e, f, g, h);
  }

  // ---------------------------------------------------------------- scalar multiplication

  method PtCSwap(p: Point, q: Point, b: int)
    requires p.Valid() && q.Valid() && p != q && Apart(p, q) && 0 <= b <= 1
    modifies p.x, p.y, p.z, p.t, q.x, q.y, q.z, q.t
    ensures p.Valid() && q.Valid()
    ensures p.Value() == old(if b == 1 then q.Value() else p.Value())
    ensures q.Value() == old(if b == 1 then p.Value() else q.Value())
  {
    GfCSwap(p.x, q.x, b);
    GfCSwap(p.y, q.y, b);
    GfCSwap(p.z, q.z, b);
    GfCSwap(p.t, q.t, b);
  }

  method SetNeutral(p: Point)
    requires p.Shape()
    modifies p.x, p.y, p.z, p.t
    ensures p.Valid() && p.Value() == NEUTRAL
  {
    for j := 0 to 16
      invariant forall k :: 0 <= k < j ==> p.x[k] == 0 && p.t[k] == 0
      invariant forall k :: 0 <= k < j ==> p.y[k] == (if k == 0 then 1 else 0) && p.z[k] == p.y[k]
    {
      p.x[j] := 0;
      p.y[j] := if j == 0 then 1 else 0;
      p.z[j] := if j == 0 then 1 else 0;
      p.t[j] := 0;
    }
    SmallElem(p.x[..], 0);
    SmallElem(p.t[..], 0);
    SmallElem(p.y[..], 1);
    assert p.z[..] == p.y[..];
  }

  lemma SmallElem(s: seq<int>, v: int)
    requires |s| == 16 && s[0] == v && 0 <= v < 2 && Within(s[1..], 0, 0)
    ensures Elem(s) == v
  {
    ValZeros(s[1..], B);
    assert Val(s, B) == s[0] + B * Val(s[1..], B);
  }

  /** `pt_scalarmult`: p becomes the first point of the full ladder on q. */
  method PtScalarMult(p: Point, q: Point, s: seq<byte>)
    requires p.Shape() && q.Valid() && p != q && Apart(p, q) && |s| == 32
    modifies p.x, p.y, p.z, p.t, q.x, q.y, q.z, q.t
    ensures p.Valid() && q.Valid()
    ensures p.Value() == Ladder(Adder(ED2, P), NEUTRAL, old(q.Value()), s, 0).0
  {
    ghost var q0 := q.Value();
    SetNeutral(p);
    for i := 256 downto 0
      invariant p.Valid() && q.Valid()
      invariant (p.Value(), q.Value()) == Ladder(Adder(ED2, P), NEUTRAL, q0, s, i)
    {
      var b := Bit(s, i);
      PtCSwap(p, q, b);
      PtAdd(q, p);
      PtAdd(p, p);
      PtCSwap(p, q, b);
    }
  }

  // ---------------------------------------------------------------- decompression

  method NewD() returns (a: array<i64>)
    ensures fresh(a) && a.Length == 16 && Loose(a[..]) && Elem(a[..]) == ED
  {
    KDElem();
    a := NewGf(KD(), ED);
  }

  method Fraction(y: array<i64>, one: array<i64>) returns (num: array<i64>, den: array<i64>)
    requires y.Length == 16 && one.Length == 16 && Loose(y[..]) && Normal(one[..]) && Elem(one[..]) == 1
    ensures fresh(num) && fresh(den) && num.Length == 16 && den.Length == 16
    ensures Bounded(num[..]) && Bounded(den[..])
    ensures Elem(num[..]) == Num(Elem(y[..]), P) && Elem(den[..]) == Den(Elem(y[..]), ED, P)
  {
    var kd := NewD();
    num, den := new i64[16](_ => 0), new i64[16](_ => 0);
    GfSq(num, y);
    GfMul(den, num, kd);
    GfSub(num, num, one);
    GfAdd(den, one, den);
  }

  /** The power chain of `pt_unpackneg`. */
  method Root(num: array<i64>, den: array<i64>) returns (x: array<i64>)
    requires num.Length == 16 && den.Length == 16 && Loose(num[..]) && Loose(den[..])
    ensures fresh(x) && x.Length == 16 && Tight(x[..])
    ensures Elem(x[..]) == Candidate(Elem(num[..]), Elem(den[..]), (P - 5) / 8, P)
  {
    ghost var u, v := Elem(num[..]), Elem(den[..]);
    var t := Seventh(num, den);
    GfPow2523(t, t);
    ghost var w := Elem(t[..]);
    GfMul(t, t, num);
    GfMul(t, t, den);
    GfMul(t, t, den);
    GfMul(t, t, den);
    x := t;
    RootProduct(w, u, v, P);
  }

  /** u v^7 by repeated squaring. */
  method Seventh(num: array<i64>, den: array<i64>) returns (t: array<i64>)
    requires num.Length == 16 && den.Length == 16 && Loose(num[..]) && Loose(den[..])
    ensures fresh(t) && t.Length == 16 && Tight(t[..])
    ensures var u, v := Elem(num[..]), Elem(den[..]);
      Elem(t[..]) == FMul(u, FPow(v, 7))
  {
    ghost var u, v := Elem(num[..]), Elem(den[..]);
    var den2, den4 := new i64[16](_ => 0), new i64[16](_ => 0);
    t := new i64[16](_ => 0);
    GfSq(den2, den);
    GfSq(den4, den2);
    GfMul(t, den4, den2);
    GfMul(t, t, num);
    GfMul(t, t, den);
    SeventhProduct(u, v, P);
  }

  lemma SeventhProduct(u: int, v: int, m: int)
    requires m > 1 && 0 <= v < m
    ensures
      var v2 := MulMod(v, v, m);
      var v6 := MulMod(MulMod(v2, v2, m), v2, m);
      MulMod(MulMod(v6, u, m), v, m) == MulMod(u, PowMod(v, 7, m), m)
  {
    var v2 := MulMod(v, v, m);
    var v6 := MulMod(MulMod(v2, v2, m), v2, m);
    PowModOne(v, m);
    PowModAdd(v, 1, 1, m);
    PowModAdd(v, 2, 2, m);
    PowModAdd(v, 4, 2, m);
    PowModAdd(v, 6, 1, m);
    MulModComm(v6, u, m);
    MulModAssoc(u, v6, v, m);
  }

  lemma RootProduct(w: int, u: int, v: int, m: int)
    requires m > 1 && 0 <= v < m
    ensures MulMod(MulMod(MulMod(MulMod(w, u, m), v, m), v, m), v, m)
         == MulMod(MulMod(u, PowMod(v, 3, m), m), w, m)
  {
    var a := MulMod(w, u, m);
    PowModOne(v, m);
    PowModAdd(v, 1, 1, m);
    PowModAdd(v, 2, 1, m);
    MulModAssoc(a, v, v, m);
    MulModAssoc(a, PowMod(v, 2, m), v, m);
    MulModAssoc(w, u, PowMod(v, 3, m), m);
    MulModComm(w, MulMod(u, PowMod(v, 3, m), m), m);
  }

  /** Whether `x` squared times `den` is `num`. */
  method CheckRoot(x: array<i64>, num: array<i64>, den: array<i64>) returns (ok: bool)
    requires x.Length == 16 && num.Length == 16 && den.Length == 16
    requires Loose(x[..]) && Loose(num[..]) && Loose(den[..])
    ensures ok <==> IsRoot(Elem(x[..]), Elem(num[..]), Elem(den[..]), P)
  {
    var chk := new i64[16](_ => 0);
    GfSq(chk, x);
    GfMul(chk, chk, den);
    var r := GfNeq(chk, num);
    ok := r == 0;
  }

  /** The y coordinate a compressed point carries, and its sign bit. */
  ghost function EncodedY(p: seq<byte>): int {
    Val(p, 256) % (P + 19) % P
  }

  ghost function FirstRoot(y: int): int {
    Candidate(Num(y, P), Den(y, ED, P), (P - 5) / 8, P)
  }

  ghost predicate Root25519(x: int, y: int) {
    IsRoot(x, Num(y, P), Den(y, ED, P), P)
  }

  /** The candidate root, or that times the square root of -1. */
  method FindRoot(num: array<i64>, den: array<i64>) returns (x: array<i64>, ok: bool)
    requires num.Length == 16 && den.Length == 16 && Loose(num[..]) && Loose(den[..])
    ensures fresh(x) && x.Length == 16 && Tight(x[..])
    ensures
      var u, v := Elem(num[..]), Elem(den[..]);
      var c := Candidate(u, v, (P - 5) / 8, P);
      && Elem(x[..]) == (if IsRoot(c, u, v, P) then c else FMul(c, SQRTM1))
      && (ok <==> IsRoot(Elem(x[..]), u, v, P))
  {
    x := Root(num, den);
    ok := CheckRoot(x, num, den);
    if !ok {
      var ki := NewI();
      GfMul(x, x, ki);
    }
    ok := CheckRoot(x, num, den);
  }

  method NewI() returns (a: array<i64>)
    ensures fresh(a) && a.Length == 16 && Loose(a[..]) && Elem(a[..]) == SQRTM1
  {
    KIElem();
    a := NewGf(KI(), SQRTM1);
  }

  /** Negation to the sign opposite to the encoded one. */
  method FlipSign(x: array<i64>, sign: int)
    requires x.Length == 16 && Tight(x[..]) && 0 <= sign <= 1
    modifies x
    ensures Within(x[..], -SMALL, SMALL)
    ensures FMul(Elem(x[..]), Elem(x[..])) == old(FMul(Elem(x[..]), Elem(x[..])))
    ensures Elem(x[..]) == var v := old(Elem(x[..])); if v % 2 == sign then FSub(0, v) else v
    ensures Elem(x[..]) % 2 == sign ==> Elem(x[..]) == 0
  {
    var par := GfPar(x);
    if par == sign {
      var zero := new i64[16](_ => 0);
      SmallElem(zero[..], 0);
      NegatedRoot(Elem(x[..]), P);
      GfSub(x, zero, x);
    }
  }

  /** A root the code finds for y, if one of its candidates is a root. */
  ghost function FoundRoot(y: int): int {
    var c := FirstRoot(y);
    if Root25519(c, y) then c else FMul(c, SQRTM1)
  }

  lemma RootOfMinusOne()
    ensures FMul(SQRTM1, SQRTM1) == P - 1 && Cong(SQRTM1 * SQRTM1, -1, P)
  {
    Constants();
    MinusOne(SQRTM1 * SQRTM1, P);
  }

  lemma MinusOne(x: int, m: int)
    requires m > 1 && (x + 1) % m == 0
    ensures x % m == m - 1 && Cong(x, -1, m)
  {
    CongIffMod(x + 1, 0, m);
    CongRefl(1, m);
    CongSub(x + 1, 0, 1, 1, m);
    CongBy(-1, m - 1, -1, m);
    CongTrans(x, -1, m - 1, m);
    ModIs(x, m - 1, m);
  }

  /** Over a prime modulus the code finds a root for y exactly if there is one. */
  lemma RootIsFound(y: int)
    requires Domain(P) && Fermat(P)
    ensures Root25519(FoundRoot(y), y) <==> exists x :: 0 <= x < P && Root25519(x, y)
  {
    hide Num, Den, Domain, Fermat, IsRoot;
    var u, v := Num(y, P), Den(y, ED, P);
    NumDenRange(y);
    RootOfMinusOne();
    if x :| 0 <= x < P && Root25519(x, y) {
      CandidateWorks(x, u, v, (P - 5) / 8, SQRTM1, P);
    }
    hide Candidate;
    FoundRange(y);
    assert Root25519(FoundRoot(y), y) ==> 0 <= FoundRoot(y) < P && Root25519(FoundRoot(y), y);
  }

  lemma NumDenRange(y: int)
    ensures 0 <= Num(y, P) < P && 0 <= Den(y, ED, P) < P
  {
  }

  lemma FoundRange(y: int)
    ensures 0 <= FoundRoot(y) < P
  {
  }

  /** The point of a compressed key with its x negated. */
  ghost function Unpacked(p: seq<byte>): (e: Ext)
    requires |p| == 32
    ensures e.Y == EncodedY(p) && e.Z == 1
  {
    var y := EncodedY(p);
    var r := FoundRoot(y);
    var x := if r % 2 == p[31] / 128 then FSub(0, r) else r;
    Ext(x, y, 1, FMul(x, y))
  }

  /**
   * `pt_unpackneg`. It succeeds exactly when one of its two candidates is a root, and then
   * the result is the curve point with the encoded y and the x whose parity is not the
   * encoded sign (unless x is zero, which is its own negative).
   */
  method PtUnpackNeg(p: seq<byte>) returns (r: Point, ok: bool)
    requires |p| == 32
    ensures ok <==> Root25519(FoundRoot(EncodedY(p)), EncodedY(p))
    ensures ok ==> fresh(r.x) && fresh(r.y) && fresh(r.z) && fresh(r.t) && r.Valid()
    ensures ok ==> r.Value() == Unpacked(p)
    ensures ok ==> OnCurve(r.Value(), ED, P)
    ensures ok ==> (r.Value().X % 2 == p[31] / 128 ==> r.Value().X == 0)
  {
    var one := new i64[16](k => if k == 0 then 1 else 0);
    SmallElem(one[..], 1);
    var y := GfUnpack(p);
    var num, den := Fraction(y, one);
    var x;
    x, ok := FindRoot(num, den);
    var t := new i64[16](_ => 0);
    r := new Point(x, y, one, t);
    if ok {
      FlipSign(x, p[31] / 128);
      GfMul(t, x, y);
      RootOnCurve(Elem(x[..]), Elem(y[..]), ED, P);
    }
  }

  // ---------------------------------------------------------------- compression

  /** The 255-bit y with the parity of x above it. */
  ghost function Encoded(p: Ext): int {
    var zi := FPow(p.Z, P - 2);
    FMul(p.Y, zi) + (P + 19) * (FMul(p.X, zi) % 2)
  }

  /** Over a prime modulus the power is the inverse of Z, so what is encoded is X/Z and Y/Z. */
  lemma EncodesAffine(p: Ext)
    requires Fermat(P) && !Cong(p.Z, 0, P)
    ensures FMul(p.Z, FPow(p.Z, P - 2)) == 1
  {
    assert FermatAt(p.Z, P);
  }

  method Affine(p: Point) returns (tx: array<i64>, ty: array<i64>)
    requires p.Valid()
    ensures fresh(tx) && fresh(ty) && tx.Length == 16 && ty.Length == 16
    ensures Tight(tx[..]) && Tight(ty[..])
    ensures Elem(tx[..]) == FMul(p.Value().X, FPow(p.Value().Z, P - 2))
    ensures Elem(ty[..]) == FMul(p.Value().Y, FPow(p.Value().Z, P - 2))
  {
    var zi := new i64[16](_ => 0);
    tx, ty := new i64[16](_ => 0), new i64[16](_ => 0);
    GfInv(zi, p.z);
    GfMul(tx, p.x, zi);
    GfMul(ty, p.y, zi);
  }

  /** Exclusive or of a parity into the free top bit. */
  method SetTopBit(r: array<byte>, par: byte)
    requires r.Length == 32 && Val(r[..], 256) < P && par <= 1
    modifies r
    ensures Val(r[..], 256) == old(Val(r[..], 256)) + (P + 19) * par
  {
    ghost var s := r[..];
    TopBitFree(s);
    r[31] := (r[31] + 128 * par) % 256;
    assert r[..] == s[31 := s[31] + 128 * par];
    ValUpdate(s, 31, s[31] + 128 * par, 256);
    TopBitValue(par, Pow(256, 31));
  }

  /** `pt_pack`. */
  method PtPack(p: Point) returns (r: array<byte>)
    requires p.Valid()
    ensures fresh(r) && r.Length == 32
    ensures Val(r[..], 256) == Encoded(p.Value())
  {
    var tx, ty := Affine(p);
    r := GfPack(ty);
    var par := GfPar(tx);
    SetTopBit(r, par);
  }

  lemma TopBitValue(par: int, p: int)
    requires p == Pow(256, 31)
    ensures (128 * par) * p == (P + 19) * par
  {
    HighByte();
    assert (128 * par) * p == (128 * p) * par;
  }

  lemma HighByte()
    ensures 128 * Pow(256, 31) == P + 19
  {
    PowAdd(256, 16, 16);
    PowAdd(256, 8, 8);
    PowAdd(256, 4, 4);
    PowAdd(256, 31, 1);
    assert Pow(256, 4) == 0x1_0000_0000 && Pow(256, 1) == 256;
  }

  lemma TopBitFree(s: seq<byte>)
    requires |s| == 32 && Val(s, 256) < P
    ensures s[31] < 128
  {
    ValPrefix(s, 31, 256);
    assert s[..32] == s;
    ValBound(s[..31], 256);
    HighByte();
    TopDigit(s[31], Pow(256, 31));
  }

  lemma TopDigit(x: int, p: int)
    requires p > 0 && p * x < 128 * p
    ensures x < 128
  {
    assert p * (x - 128) == p * x - 128 * p;
    assert x >= 128 ==> p * (x - 128) >= 0;
  }
}
