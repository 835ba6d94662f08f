/** Points up to the common factor of their coordinates, their negatives, and what compression keeps of them. */
module Affine {
  import opened Curve
  import opened Fields
  import opened Modular

  /** The two triples name the same affine point. */
  ghost predicate SamePoint(p: Ext, q: Ext, m: int) {
    Cong(p.X * q.Z, q.X * p.Z, m) && Cong(p.Y * q.Z, q.Y * p.Z, m)
  }

  ghost function Negated(p: Ext): (n: Ext) {
    Ext(-p.X, p.Y, p.Z, -p.T)
  }

  lemma NegatedIsProper(p: Ext, d: int, m: int)
    requires Proper(p, d, m)
    ensures Proper(Negated(p), d, m)
  {
    CongRefl(-1, m);
    CongMul(-1, -1, p.X * p.Y, p.T * p.Z, m);
    SignOut(p.X, p.Y);
    SignOut(p.T, p.Z);
    hide Cong;
  }

  lemma SignOut(a: int, b: int)
    ensures -1 * (a * b) == (-a) * b && (-a) * (-a) == a * a
  {
  }

  lemma Cancel(a: int, b: int, f: int, m: int)
    requires Domain(m) && !Cong(f, 0, m) && Cong(a * f, b * f, m)
    ensures Cong(a, b, m)
  {
    CongRefl(b * f, m);
    CongSub(a * f, b * f, b * f, b * f, m);
    assert (a - b) * f == a * f - b * f;
    assert ZeroProduct(a - b, f, m);
    CongRefl(b, m);
    CongAdd(a - b, 0, b, b, m);
  }

  /** A point and its negative add up to the neutral element. */
  lemma NegationCancels(p: Ext, i: int, d: int, k: int, m: int)
    requires Completes(i, d, m) && Cong(k, 2 * d, m) && Proper(p, d, m)
    ensures SamePoint(AddExt(p, Negated(p), k, m), NEUTRAL, m)
  {
    assert m > 0;
    hide AddExt, NonSquare, Domain, OnCurve, SamePoint, Cong, DenX, DenY, Negated;
    NegatedDenominators(p, i, d, m);
    NegationSums(p, d, k, m);
    var r := AddExt(p, Negated(p), k, m);
    SumX(p, r, d, m);
    SumY(p, r, d, m);
    IsNeutral(r, m);
  }

  lemma NegationSums(p: Ext, d: int, k: int, m: int)
    requires m > 0 && Cong(k, 2 * d, m)
    ensures var r := AddExt(p, Negated(p), k, m);
      && Cong(r.X * DenX(p, d), r.Z * (p.X * Negated(p).Y + Negated(p).X * p.Y), m)
      && Cong(r.Y * DenY(p, d), r.Z * (p.Y * Negated(p).Y + p.X * Negated(p).X), m)
  {
    AddIsAffineLaw(p, Negated(p), d, k, m);
    hide AddExt, Cong, Negated;
  }

  lemma IsNeutral(r: Ext, m: int)
    requires Cong(r.X, 0, m) && Cong(r.Y, r.Z, m)
    ensures SamePoint(r, NEUTRAL, m)
  {
    assert r.X * 1 == r.X && 0 * r.Z == 0 && r.Y * 1 == r.Y && 1 * r.Z == r.Z;
    hide Cong;
  }

  ghost function DenX(p: Ext, d: int): int {
    p.Z * Negated(p).Z + d * (p.T * Negated(p).T)
  }

  ghost function DenY(p: Ext, d: int): int {
    p.Z * Negated(p).Z - d * (p.T * Negated(p).T)
  }

  lemma NegatedDenominators(p: Ext, i: int, d: int, m: int)
    requires Completes(i, d, m) && Proper(p, d, m)
    ensures !Cong(DenX(p, d), 0, m) && !Cong(DenY(p, d), 0, m)
  {
    var n := Negated(p);
    NegatedIsProper(p, d, m);
    hide Domain, NonSquare, OnCurve;
    NoPole(p, n, i, 1, d, m);
    NoPole(p, n, i, -1, d, m);
    NotDifference(p.Z * n.Z, d * (p.T * n.T), m);
    NotDifference(p.Z * n.Z, -1 * (d * (p.T * n.T)), m);
  }

  lemma SumX(p: Ext, r: Ext, d: int, m: int)
    requires Domain(m) && !Cong(DenX(p, d), 0, m)
    requires Cong(r.X * DenX(p, d), r.Z * (p.X * Negated(p).Y + Negated(p).X * p.Y), m)
    ensures Cong(r.X, 0, m)
  {
    assert (-p.X) * p.Y == -(p.X * p.Y);
    assert p.X * Negated(p).Y + Negated(p).X * p.Y == 0;
    var g := DenX(p, d);
    hide DenX;
    assert r.Z * 0 == 0;
    assert ZeroProduct(r.X, g, m);
  }

  lemma SumY(p: Ext, r: Ext, d: int, m: int)
    requires Domain(m) && OnCurve(p, d, m) && !Cong(DenY(p, d), 0, m)
    requires Cong(r.Y * DenY(p, d), r.Z * (p.Y * Negated(p).Y + p.X * Negated(p).X), m)
    ensures Cong(r.Y, r.Z, m)
  {
    var f, u := Side(p.Z, p.T, d), Side(p.Y, p.X, -1);
    NegatedSides(p, d);
    assert Cong(u, f, m);
    hide Side, DenY, OnCurve, Cong, Domain, Negated;
    CongRefl(r.Z, m);
    CongMul(r.Z, r.Z, u, f, m);
    CongTrans(r.Y * f, r.Z * u, r.Z * f, m);
    Cancel(r.Y, r.Z, f, m);
  }

  lemma NegatedSides(p: Ext, d: int)
    ensures DenY(p, d) == Side(p.Z, p.T, d)
    ensures p.Y * Negated(p).Y + p.X * Negated(p).X == Side(p.Y, p.X, -1)
  {
    assert p.T * (-p.T) == -(p.T * p.T) && d * (-(p.T * p.T)) == -(d * (p.T * p.T));
    assert p.X * (-p.X) == -(p.X * p.X);
  }

  // ---------------------------------------------------------------- affine coordinates

  /** (X zi, Y zi) satisfies the curve equation solved for x^2. */
  lemma AffineEquation(p: Ext, zi: int, d: int, m: int)
    requires OnCurve(p, d, m) && Cong(p.Z * zi, 1, m)
    ensures var x, y := p.X * zi, p.Y * zi;
      Cong((x * x) * (1 + (y * y) * d), y * y - 1, m)
  {
    var x, y, t := p.X * zi, p.Y * zi, p.T * zi;
    AffineProduct(p, zi, d, m);
    AffineSides(p, zi, d, m);
    CongMul(x * y, t, x * y, t, m);
    CongRefl(d, m);
    CongMul(d, d, (x * y) * (x * y), t * t, m);
    RootSides(x, y, d);
    var w, xx, yy := d * ((x * y) * (x * y)), x * x, y * y;
    hide OnCurve;
    Solved(xx, yy, w, d * (t * t), m);
  }

  lemma Solved(xx: int, yy: int, w: int, dtt: int, m: int)
    requires Cong(yy - xx, 1 + dtt, m) && Cong(w, dtt, m)
    ensures Cong(w + xx, yy - 1, m)
  {
    CongRefl(xx - 1, m);
    CongAdd(yy - xx, 1 + dtt, xx - 1, xx - 1, m);
    CongRefl(xx, m);
    CongAdd(w, dtt, xx, xx, m);
    CongSym(yy - 1, dtt + xx, m);
    CongTrans(w + xx, dtt + xx, yy - 1, m);
  }

  lemma AffineProduct(p: Ext, zi: int, d: int, m: int)
    requires OnCurve(p, d, m) && Cong(p.Z * zi, 1, m)
    ensures Cong((p.X * zi) * (p.Y * zi), p.T * zi, m)
  {
    CongRefl(zi * zi, m);
    CongMul(p.X * p.Y, p.T * p.Z, zi * zi, zi * zi, m);
    Pair(p.X, zi, p.Y, zi);
    Pair(p.T, zi, p.Z, zi);
    CongRefl(p.T * zi, m);
    CongMul(p.T * zi, p.T * zi, p.Z * zi, 1, m);
    CongTrans((p.X * zi) * (p.Y * zi), (p.T * zi) * (p.Z * zi), p.T * zi, m);
  }

  lemma AffineSides(p: Ext, zi: int, d: int, m: int)
    requires OnCurve(p, d, m) && Cong(p.Z * zi, 1, m)
    ensures var x, y, t := p.X * zi, p.Y * zi, p.T * zi; Cong(y * y - x * x, 1 + d * (t * t), m)
  {
    var q := zi * zi;
    CongRefl(q, m);
    CongMul(Side(p.Y, p.X, -1), Side(p.Z, p.T, d), q, q, m);
    Pair(p.X, zi, p.X, zi);
    Pair(p.Y, zi, p.Y, zi);
    Pair(p.Z, zi, p.Z, zi);
    Pair(p.T, zi, p.T, zi);
    var xx, yy, zz, tt := p.X * p.X, p.Y * p.Y, p.Z * p.Z, p.T * p.T;
    assert (yy + -1 * xx) * q == yy * q - xx * q;
    Scale(d, tt, q);
    assert (zz + d * tt) * q == zz * q + d * (tt * q);
    CongMul(p.Z * zi, 1, p.Z * zi, 1, m);
    CongRefl(d * (tt * q), m);
    CongAdd(zz * q, 1, d * (tt * q), d * (tt * q), m);
    CongTrans(yy * q - xx * q, zz * q + d * (tt * q), 1 + d * (tt * q), m);
  }

  /** That makes x a root for y. */
  lemma RootFromEquation(x: int, y: int, d: int, m: int)
    requires m > 1 && Cong((x * x) * (1 + (y * y) * d), y * y - 1, m)
    ensures IsRoot(x, Num(y, m), Den(y, d, m), m)
  {
    NumDenCong(y, d, m);
    CongRefl(x, m);
    MulModCong(x, x, x, x, m);
    MulModCong(MulMod(x, x, m), x * x, Den(y, d, m), 1 + (y * y) * d, m);
    CongTrans(MulMod(MulMod(x, x, m), Den(y, d, m), m), (x * x) * (1 + (y * y) * d), y * y - 1, m);
    CongSym(Num(y, m), y * y - 1, m);
    CongTrans(MulMod(MulMod(x, x, m), Den(y, d, m), m), y * y - 1, Num(y, m), m);
    Reduced(x, y, d, m);
    CongUnique(MulMod(MulMod(x, x, m), Den(y, d, m), m), Num(y, m), m);
  }

  lemma Reduced(x: int, y: int, d: int, m: int)
    requires m > 1
    ensures 0 <= MulMod(MulMod(x, x, m), Den(y, d, m), m) < m && 0 <= Num(y, m) < m
  {
  }

  /** The denominator 1 + d y^2 vanishes for no y, as d is no square and -1 is one. */
  lemma DenNotZero(y: int, i: int, d: int, m: int)
    requires Completes(i, d, m)
    ensures !Cong(Den(y, d, m), 0, m)
  {
    NumDenCong(y, d, m);
    hide Domain;
    if Cong(Den(y, d, m), 0, m) {
      CongSym(Den(y, d, m), 1 + (y * y) * d, m);
      CongTrans(1 + (y * y) * d, Den(y, d, m), 0, m);
      NonZeroDen(y, i, d, m);
    }
  }

  lemma NonZeroDen(y: int, i: int, d: int, m: int)
    requires Completes(i, d, m)
    ensures !Cong(1 + (y * y) * d, 0, m)
  {
    if Cong(1 + (y * y) * d, 0, m) {
      CongRefl(1, m);
      CongSub(1 + (y * y) * d, 0, 1, 1, m);
      CongSym(i * i, -1, m);
      CongTrans(d * (y * y), -1, i * i, m);
      assert SquareTimes(d, y, i, m);
      ZeroTimes(y, y, m);
      ZeroTimes(d, y * y, m);
      CongSub(1 + (y * y) * d, 0, (y * y) * d, 0, m);
      OneIsNotZero(m);
    }
  }

  /** Two roots for the same y are equal or opposite. */
  lemma RootsOpposite(x: int, r: int, y: int, i: int, d: int, m: int)
    requires Completes(i, d, m) && 0 <= x < m && 0 <= r < m
    requires IsRoot(x, Num(y, m), Den(y, d, m), m) && IsRoot(r, Num(y, m), Den(y, d, m), m)
    ensures r == x || r == SubMod(0, x, m)
  {
    var v := Den(y, d, m);
    DenNotZero(y, i, d, m);
    hide Num, Den;
    CongIffMod(MulMod(r, r, m) * v, MulMod(x, x, m) * v, m);
    Cancel(MulMod(r, r, m), MulMod(x, x, m), v, m);
    SquaresMeet(r, x, m);
  }

  lemma SquaresMeet(r: int, x: int, m: int)
    requires Domain(m) && 0 <= x < m && 0 <= r < m && Cong(MulMod(r, r, m), MulMod(x, x, m), m)
    ensures r == x || r == SubMod(0, x, m)
  {
    CongMod(r * r, m);
    CongMod(x * x, m);
    CongSym(MulMod(r, r, m), r * r, m);
    CongTrans(r * r, MulMod(r, r, m), MulMod(x, x, m), m);
    CongTrans(r * r, MulMod(x, x, m), x * x, m);
    CongRefl(x * x, m);
    CongSub(r * r, x * x, x * x, x * x, m);
    assert (r - x) * (r + x) == r * r - x * x;
    assert ZeroProduct(r - x, r + x, m);
    if Cong(r - x, 0, m) {
      CongRefl(x, m);
      CongAdd(r - x, 0, x, x, m);
      CongUnique(r, x, m);
    } else {
      CongRefl(x, m);
      CongSub(r + x, 0, x, x, m);
      CongSym(r, -x, m);
      ModIs(-x, r, m);
    }
  }

  /** Dividing by Z gives the same for every name of a point. */
  lemma SameQuotients(p: Ext, q: Ext, pz: int, qz: int, m: int)
    requires m > 1 && SamePoint(p, q, m) && MulMod(p.Z, pz, m) == 1 && MulMod(q.Z, qz, m) == 1
    ensures MulMod(p.X, pz, m) == MulMod(q.X, qz, m) && MulMod(p.Y, pz, m) == MulMod(q.Y, qz, m)
  {
    UnitCong(p.Z, pz, m);
    UnitCong(q.Z, qz, m);
    SameQuotient(p.X, p.Z, pz, q.X, q.Z, qz, m);
    SameQuotient(p.Y, p.Z, pz, q.Y, q.Z, qz, m);
  }

  lemma UnitCong(z: int, zi: int, m: int)
    requires m > 1 && MulMod(z, zi, m) == 1
    ensures Cong(z * zi, 1, m)
  {
    CongMod(z * zi, m);
    CongSym(MulMod(z, zi, m), z * zi, m);
  }

  lemma SameQuotient(a: int, z: int, zi: int, b: int, w: int, wi: int, m: int)
    requires m > 1 && Cong(a * w, b * z, m) && Cong(z * zi, 1, m) && Cong(w * wi, 1, m)
    ensures MulMod(a, zi, m) == MulMod(b, wi, m)
  {
    CongRefl(zi * wi, m);
    CongMul(a * w, b * z, zi * wi, zi * wi, m);
    Pair(a, w, zi, wi);
    Pair(b, z, zi, wi);
    CongRefl(a * zi, m);
    CongMul(a * zi, a * zi, w * wi, 1, m);
    CongRefl(b * wi, m);
    CongMul(b * wi, b * wi, z * zi, 1, m);
    CongSym((a * zi) * (w * wi), a * zi, m);
    CongTrans(a * zi, (a * zi) * (w * wi), (b * wi) * (z * zi), m);
    CongTrans(a * zi, (b * wi) * (z * zi), b * wi, m);
    CongIffMod(a * zi, b * wi, m);
  }
}
