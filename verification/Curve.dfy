/**
 * The twisted Edwards curve -x^2 + y^2 = 1 + d x^2 y^2 in extended coordinates
 * (RFC 8032, section 5.1.4), as integers modulo p, and what the addition formulas keep.
 */
module Curve {
  import opened Fields
  import opened Limbs
  import opened Modular
  import opened Scalars

  /** (X, Y, Z, T) with x = X/Z, y = Y/Z and T = XY/Z. */
  datatype Ext = Ext(X: int, Y: int, Z: int, T: int)

  /** The point satisfies XY = ZT and -X^2 + Y^2 = Z^2 + dT^2 modulo `m`. */
  ghost predicate OnCurve(p: Ext, d: int, m: int) {
    && Cong(p.X * p.Y, p.T * p.Z, m)
    && Cong(Side(p.Y, p.X, -1), Side(p.Z, p.T, d), m)
  }

  ghost function Side(a: int, b: int, d: int): int {
    a * a + d * (b * b)
  }

  ghost function TermA(p: Ext, q: Ext, m: int): int
    requires m > 0
  {
    MulMod(SubMod(p.Y, p.X, m), SubMod(q.Y, q.X, m), m)
  }

  ghost function TermB(p: Ext, q: Ext, m: int): int
    requires m > 0
  {
    MulMod(AddMod(p.X, p.Y, m), AddMod(q.X, q.Y, m), m)
  }

  ghost function TermC(p: Ext, q: Ext, k: int, m: int): int
    requires m > 0
  {
    MulMod(MulMod(p.T, q.T, m), k, m)
  }

  ghost function TermD(p: Ext, q: Ext, m: int): int
    requires m > 0
  {
    AddMod(MulMod(p.Z, q.Z, m), MulMod(p.Z, q.Z, m), m)
  }

  /** Addition as RFC 8032 section 5.1.4 writes it, with `k` for its 2d. */
  ghost function AddExt(p: Ext, q: Ext, k: int, m: int): Ext
    requires m > 0
  {
    var E := SubMod(TermB(p, q, m), TermA(p, q, m), m);
    var F := SubMod(TermD(p, q, m), TermC(p, q, k, m), m);
    var G := AddMod(TermD(p, q, m), TermC(p, q, k, m), m);
    var H := AddMod(TermB(p, q, m), TermA(p, q, m), m);
    Ext(MulMod(E, F, m), MulMod(H, G, m), MulMod(G, F, m), MulMod(E, H, m))
  }

  // With e, f, g, h the halves of the RFC's E, F, G, H, the new point is
  // (4ef, 4gh, 4fg, 4eh); the factor 4 is irrelevant to the equations.

  /** e (Y1 Y2 - X1 X2) = g (Z1 T2 + Z2 T1): the two addition laws agree on x. */
  lemma DualLaw(p: Ext, q: Ext, d: int, m: int)
    requires OnCurve(p, d, m) && OnCurve(q, d, m)
    ensures Cong((p.X * q.Y + q.X * p.Y) * (p.Y * q.Y - p.X * q.X),
                 (p.Z * q.Z + d * (p.T * q.T)) * (p.Z * q.T + q.Z * p.T), m)
  {
    DualLeft(p.X, p.Y, q.X, q.Y);
    CongMul(p.X * p.Y, p.T * p.Z, Side(q.Y, q.X, -1), Side(q.Z, q.T, d), m);
    CongMul(q.X * q.Y, q.T * q.Z, Side(p.Y, p.X, -1), Side(p.Z, p.T, d), m);
    CongAdd((p.X * p.Y) * Side(q.Y, q.X, -1), (p.T * p.Z) * Side(q.Z, q.T, d),
            (q.X * q.Y) * Side(p.Y, p.X, -1), (q.T * q.Z) * Side(p.Z, p.T, d), m);
    DualRight(p.Z, p.T, q.Z, q.T, d);
  }

  /** h^2 - e^2 = (Z1^2 + d T1^2)(Z2^2 + d T2^2). */
  lemma NormLaw(p: Ext, q: Ext, d: int, m: int)
    requires OnCurve(p, d, m) && OnCurve(q, d, m)
    ensures var e, h := p.X * q.Y + q.X * p.Y, p.Y * q.Y + p.X * q.X;
      Cong(h * h, e * e + Side(p.Z, p.T, d) * Side(q.Z, q.T, d), m)
  {
    var e, h := p.X * q.Y + q.X * p.Y, p.Y * q.Y + p.X * q.X;
    Norm(p.X, p.Y, q.X, q.Y);
    CongMul(Side(p.Y, p.X, -1), Side(p.Z, p.T, d), Side(q.Y, q.X, -1), Side(q.Z, q.T, d), m);
    CongRefl(e * e, m);
    CongAdd(e * e, e * e, Side(p.Y, p.X, -1) * Side(q.Y, q.X, -1), Side(p.Z, p.T, d) * Side(q.Z, q.T, d), m);
  }

  /** h^2 - (Y1 Y2 - X1 X2)^2 = 4 Z1 Z2 T1 T2. */
  lemma CrossLaw(p: Ext, q: Ext, d: int, m: int)
    requires OnCurve(p, d, m) && OnCurve(q, d, m)
    ensures var h, k := p.Y * q.Y + p.X * q.X, p.Y * q.Y - p.X * q.X;
      Cong(k * k, h * h - 4 * ((p.Z * q.Z) * (p.T * q.T)), m)
  {
    var h, k := p.Y * q.Y + p.X * q.X, p.Y * q.Y - p.X * q.X;
    Expand(p.Y * q.Y, p.X * q.X, p.Y * q.Y, p.X * q.X);
    Expand(p.Y * q.Y, -(p.X * q.X), p.Y * q.Y, -(p.X * q.X));
    Pair(p.Y, q.Y, p.X, q.X);
    assert k * k == h * h - 4 * ((p.X * p.Y) * (q.X * q.Y));
    CongMul(p.X * p.Y, p.T * p.Z, q.X * q.Y, q.T * q.Z, m);
    Pair(p.T, p.Z, q.T, q.Z);
    CongRefl(4, m);
    CongMul(4, 4, (p.X * p.Y) * (q.X * q.Y), (p.T * p.Z) * (q.T * q.Z), m);
    CongRefl(h * h, m);
    CongSub(h * h, h * h, 4 * ((p.X * p.Y) * (q.X * q.Y)), 4 * ((p.T * p.Z) * (q.T * q.Z)), m);
  }

  /** The curve equation of the sum, before the common factor. */
  lemma SumEquation(p: Ext, q: Ext, d: int, m: int)
    requires OnCurve(p, d, m) && OnCurve(q, d, m)
    ensures
      var e, h := p.X * q.Y + q.X * p.Y, p.Y * q.Y + p.X * q.X;
      var f, g := p.Z * q.Z - d * (p.T * q.T), p.Z * q.Z + d * (p.T * q.T);
      Cong(Side(g * h, e * f, -1), Side(f * g, e * h, d), m)
  {
    var e, h := p.X * q.Y + q.X * p.Y, p.Y * q.Y + p.X * q.X;
    var f, g := p.Z * q.Z - d * (p.T * q.T), p.Z * q.Z + d * (p.T * q.T);
    var w := p.Z * q.T + q.Z * p.T;
    var zt := (p.Z * q.Z) * (p.T * q.T);
    var W := Side(p.Z, p.T, d) * Side(q.Z, q.T, d);
    NormLaw(p, q, d, m);
    var a: int :| h * h - (e * e + W) == Multiple(a, m);
    DualSquared(p, q, d, m);
    var b: int :| (e * e) * (h * h - 4 * zt) - (g * g) * (w * w) == Multiple(b, m);
    SquareDifference(p.Z * q.Z, p.T * q.T, d);
    NormExcess(p.Z, p.T, q.Z, q.T, d);
    Combine(e * e, h * h, g * g, f * f, d, zt, W, w * w, a, b, m);
    Pair(g, h, g, h);
    Pair(e, f, e, f);
    Pair(f, g, f, g);
    Pair(e, h, e, h);
    CongBy(Side(g * h, e * f, -1), Side(f * g, e * h, d), a * (g * g) - d * b, m);
  }

  lemma DualSquared(p: Ext, q: Ext, d: int, m: int)
    requires OnCurve(p, d, m) && OnCurve(q, d, m)
    ensures
      var e, h := p.X * q.Y + q.X * p.Y, p.Y * q.Y + p.X * q.X;
      var g, w := p.Z * q.Z + d * (p.T * q.T), p.Z * q.T + q.Z * p.T;
      Cong((e * e) * (h * h - 4 * ((p.Z * q.Z) * (p.T * q.T))), (g * g) * (w * w), m)
  {
    var e, h := p.X * q.Y + q.X * p.Y, p.Y * q.Y + p.X * q.X;
    var g, w := p.Z * q.Z + d * (p.T * q.T), p.Z * q.T + q.Z * p.T;
    var k, r := p.Y * q.Y - p.X * q.X, h * h - 4 * ((p.Z * q.Z) * (p.T * q.T));
    DualLaw(p, q, d, m);
    CongMul(e * k, g * w, e * k, g * w, m);
    Pair(e, k, e, k);
    Pair(g, w, g, w);
    CrossLaw(p, q, d, m);
    CongSym(k * k, r, m);
    CongRefl(e * e, m);
    CongMul(e * e, e * e, r, k * k, m);
    CongTrans((e * e) * r, (e * e) * (k * k), (g * g) * (w * w), m);
  }

  lemma SquareDifference(a: int, c: int, d: int)
    ensures (a + d * c) * (a + d * c) - (a - d * c) * (a - d * c) == 4 * (d * (a * c))
    ensures (a - d * c) * (a - d * c) == a * a - 2 * (d * (a * c)) + (d * c) * (d * c)
  {
    Expand(a, d * c, a, d * c);
    Expand(a, -(d * c), a, -(d * c));
    Scale(d, a, c);
  }

  /** The norm exceeds f^2 by d (Z1 T2 + Z2 T1)^2. */
  lemma NormExcess(z: int, t: int, w: int, s: int, d: int)
    ensures
      var f, v := z * w - d * (t * s), z * s + w * t;
      Side(z, t, d) * Side(w, s, d) - f * f == d * (v * v)
  {
    var a, c := z * w, t * s;
    NormProduct(z, t, w, s, d);
    SquareDifference(a, c, d);
    CrossSquare(z, t, w, s, d);
    Excess(Side(z, t, d) * Side(w, s, d), a * a, d * ((z * z) * (s * s)), d * ((w * w) * (t * t)), (d * c) * (d * c), d * (a * c),
      (a - d * c) * (a - d * c), d * ((z * s + w * t) * (z * s + w * t)));
  }

  lemma Excess(n: int, a: int, b: int, c: int, e: int, x: int, f: int, v: int)
    requires n == a + b + c + e && f == a - 2 * x + e && v == b + 2 * x + c
    ensures n - f == v
  {
  }

  lemma NormProduct(z: int, t: int, w: int, s: int, d: int)
    ensures Side(z, t, d) * Side(w, s, d) ==
      (z * w) * (z * w) + d * ((z * z) * (s * s)) + d * ((w * w) * (t * t)) + (d * (t * s)) * (d * (t * s))
  {
    Expand(z * z, d * (t * t), w * w, d * (s * s));
    Pair(z, z, w, w);
    Scale(d, z * z, s * s);
    Scale(d, w * w, t * t);
    SameSquare(d, t, s);
  }

  lemma CrossSquare(z: int, t: int, w: int, s: int, d: int)
    ensures d * ((z * s + w * t) * (z * s + w * t)) ==
      d * ((z * z) * (s * s)) + 2 * (d * ((z * w) * (t * s))) + d * ((w * w) * (t * t))
  {
    Expand(z * s, w * t, z * s, w * t);
    Pair(z, s, w, t);
    Pair(z, s, z, s);
    Pair(w, t, w, t);
    Thrice(d, (z * z) * (s * s), (z * w) * (t * s), (w * w) * (t * t));
  }

  lemma Thrice(d: int, a: int, b: int, c: int)
    ensures d * (a + b + b + c) == d * a + 2 * (d * b) + d * c
  {
  }

  lemma SameSquare(d: int, t: int, s: int)
    ensures (d * (t * t)) * (d * (s * s)) == (d * (t * s)) * (d * (t * s))
  {
    Pair(d, t * t, d, s * s);
    Pair(d, t * s, d, t * s);
    Pair(t, t, s, s);
  }

  lemma Combine(E: int, H: int, G: int, F: int, d: int, zt: int, W: int, V: int, a: int, b: int, m: int)
    requires H - (E + W) == a * m && E * (H - 4 * zt) - G * V == b * m
    requires G - F == 4 * (d * zt) && W - F == d * V
    ensures G * H + -1 * (E * F) - (F * G + d * (E * H)) == (a * G - d * b) * m
  {
    CombineLeft(G, H, F, E, d, V, a, m);
    CombineMiddle(E, G, F, d, zt);
    CombineRight(d, E, H, zt, G, V, b, m);
    assert (a * G - d * b) * m == (a * G) * m - (d * b) * m;
  }

  lemma CombineLeft(G: int, H: int, F: int, E: int, d: int, V: int, a: int, m: int)
    requires H - F == E + d * V + a * m
    ensures G * H - F * G == G * E + d * (G * V) + (a * G) * m
  {
    assert G * (H - F) == G * H - F * G;
    assert G * (E + d * V + a * m) == G * E + d * (G * V) + (a * G) * m;
  }

  lemma CombineMiddle(E: int, G: int, F: int, d: int, zt: int)
    requires G - F == 4 * (d * zt)
    ensures G * E - E * F == 4 * (d * (E * zt))
  {
    assert E * (G - F) == G * E - E * F;
  }

  lemma CombineRight(d: int, E: int, H: int, zt: int, G: int, V: int, b: int, m: int)
    requires E * (H - 4 * zt) - G * V == b * m
    ensures d * (E * H) - 4 * (d * (E * zt)) == d * (G * V) + (d * b) * m
  {
    assert E * (H - 4 * zt) == E * H - 4 * (E * zt);
    assert d * (G * V + b * m) == d * (G * V) + (d * b) * m;
  }

  lemma Norm(x: int, y: int, u: int, v: int)
    ensures (y * v + x * u) * (y * v + x * u)
         == (x * v + u * y) * (x * v + u * y) + Side(y, x, -1) * Side(v, u, -1)
  {
    Expand(y * v, x * u, y * v, x * u);
    Expand(x * v, u * y, x * v, u * y);
    Expand(y * y, -(x * x), v * v, -(u * u));
    Pair(y, v, y, v);
    Pair(x, u, x, u);
    Pair(x, v, x, v);
    Pair(u, y, u, y);
    Pair(x, u, y, v);
    Pair(x, v, u, y);
  }

  lemma DualLeft(x: int, y: int, u: int, v: int)
    ensures (x * v + u * y) * (y * v - x * u) == (x * y) * Side(v, u, -1) + (u * v) * Side(y, x, -1)
  {
    Expand(x * v, u * y, y * v, -(x * u));
    Pair(x, v, y, v);
    Pair(x, v, x, u);
    Pair(u, y, y, v);
    Pair(u, y, x, u);
    Expand(x * y, 0, v * v, -(u * u));
    Expand(u * v, 0, y * y, -(x * x));
  }

  lemma DualRight(z: int, t: int, w: int, s: int, d: int)
    ensures (t * z) * Side(w, s, d) + (s * w) * Side(z, t, d)
         == (z * w + d * (t * s)) * (z * s + w * t)
  {
    DualTerm(z, t, w, s, d);
    DualTerm(w, s, z, t, d);
    Expand(z * w, d * (t * s), z * s, w * t);
  }

  lemma DualTerm(z: int, t: int, w: int, s: int, d: int)
    ensures (t * z) * Side(w, s, d) == (z * w) * (w * t) + (d * (t * s)) * (z * s)
  {
    Expand(t * z, 0, w * w, d * (s * s));
    Pair(t, z, w, w);
    Pair(t, z, s, s);
    Scale(d, t * z, s * s);
    Scale(d, t * s, z * s);
  }

  lemma Expand(a: int, b: int, c: int, e: int)
    ensures (a + b) * (c + e) == a * c + a * e + b * c + b * e
  {
  }

  lemma Pair(a: int, b: int, c: int, e: int)
    ensures (a * b) * (c * e) == (a * c) * (b * e) == (a * e) * (b * c)
    ensures (a * b) * (c * e) == (c * a) * (b * e) == (e * a) * (b * c)
  {
  }

  lemma Scale(d: int, a: int, b: int)
    ensures a * (d * b) == d * (a * b) == (d * a) * b == (d * b) * a
  {
  }

  /** Coordinates of the form (EF, GH, FG, EH) satisfy the equations if the halves do. */
  lemma ProductForm(e: int, f: int, g: int, h: int, d: int, m: int)
    requires Cong(Side(g * h, e * f, -1), Side(f * g, e * h, d), m)
    ensures OnCurve(Ext((2 * e) * (2 * f), (2 * h) * (2 * g), (2 * g) * (2 * f), (2 * e) * (2 * h)), d, m)
  {
    var X, Y, Z, T := (2 * e) * (2 * f), (2 * h) * (2 * g), (2 * g) * (2 * f), (2 * e) * (2 * h);
    assert X == 4 * (e * f) && Y == 4 * (g * h) && Z == 4 * (f * g) && T == 4 * (e * h);
    Pair(e, f, g, h);
    Pair(e, h, f, g);
    assert X * Y == T * Z by {
      assert X * Y == 16 * ((e * f) * (g * h));
      assert T * Z == 16 * ((e * h) * (f * g));
    }
    CongRefl(X * Y, m);
    SideScale(g * h, e * f, -1);
    SideScale(f * g, e * h, d);
    CongRefl(16, m);
    CongMul(16, 16, Side(g * h, e * f, -1), Side(f * g, e * h, d), m);
  }

  lemma SideScale(a: int, b: int, d: int)
    ensures Side(4 * a, 4 * b, d) == 16 * Side(a, b, d)
  {
    Scale(d, 16, b * b);
  }

  /** The equations only see the coordinates modulo `m`. */
  lemma OnCurveCong(p: Ext, q: Ext, d: int, m: int)
    requires OnCurve(q, d, m)
    requires Cong(p.X, q.X, m) && Cong(p.Y, q.Y, m) && Cong(p.Z, q.Z, m) && Cong(p.T, q.T, m)
    ensures OnCurve(p, d, m)
  {
    CongMul(p.X, q.X, p.Y, q.Y, m);
    CongMul(p.T, q.T, p.Z, q.Z, m);
    CongSym(p.T * p.Z, q.T * q.Z, m);
    CongTrans(p.X * p.Y, q.X * q.Y, q.T * q.Z, m);
    CongTrans(p.X * p.Y, q.T * q.Z, p.T * p.Z, m);
    SideCong(p.Y, q.Y, p.X, q.X, -1, m);
    SideCong(p.Z, q.Z, p.T, q.T, d, m);
    CongSym(Side(p.Z, p.T, d), Side(q.Z, q.T, d), m);
    CongTrans(Side(p.Y, p.X, -1), Side(q.Y, q.X, -1), Side(q.Z, q.T, d), m);
    CongTrans(Side(p.Y, p.X, -1), Side(q.Z, q.T, d), Side(p.Z, p.T, d), m);
  }

  lemma SideCong(a: int, a': int, b: int, b': int, d: int, m: int)
    requires Cong(a, a', m) && Cong(b, b', m)
    ensures Cong(Side(a, b, d), Side(a', b', d), m)
  {
    CongMul(a, a', a, a', m);
    CongMul(b, b', b, b', m);
    CongRefl(d, m);
    CongMul(d, d, b * b, b' * b', m);
    CongAdd(a * a, a' * a', d * (b * b), d * (b' * b'), m);
  }

  // ---------------------------------------------------------------- what addition keeps

  /** E and H are twice X1 Y2 + X2 Y1 and Y1 Y2 + X1 X2. */
  lemma HalvesEH(p: Ext, q: Ext, m: int)
    requires m > 0
    ensures Cong(SubMod(TermB(p, q, m), TermA(p, q, m), m), 2 * (p.X * q.Y + q.X * p.Y), m)
    ensures Cong(AddMod(TermB(p, q, m), TermA(p, q, m), m), 2 * (p.Y * q.Y + p.X * q.X), m)
  {
    CongMod(p.Y - p.X, m);
    CongMod(q.Y - q.X, m);
    CongMod(p.X + p.Y, m);
    CongMod(q.X + q.Y, m);
    MulModCong(SubMod(p.Y, p.X, m), p.Y - p.X, SubMod(q.Y, q.X, m), q.Y - q.X, m);
    MulModCong(AddMod(p.X, p.Y, m), p.X + p.Y, AddMod(q.X, q.Y, m), q.X + q.Y, m);
    AddModCong(TermB(p, q, m), (p.X + p.Y) * (q.X + q.Y), TermA(p, q, m), (p.Y - p.X) * (q.Y - q.X), m);
    HalfIdentity(p.X, p.Y, q.X, q.Y);
  }

  lemma HalfIdentity(x: int, y: int, u: int, v: int)
    ensures (x + y) * (u + v) - (y - x) * (v - u) == 2 * (x * v + u * y)
    ensures (x + y) * (u + v) + (y - x) * (v - u) == 2 * (y * v + x * u)
  {
    Expand(x, y, u, v);
    Expand(y, -x, v, -u);
  }

  /** F and G are twice Z1 Z2 -+ d T1 T2. */
  lemma HalvesFG(p: Ext, q: Ext, d: int, k: int, m: int)
    requires m > 0 && Cong(k, 2 * d, m)
    ensures Cong(SubMod(TermD(p, q, m), TermC(p, q, k, m), m), 2 * (p.Z * q.Z - d * (p.T * q.T)), m)
    ensures Cong(AddMod(TermD(p, q, m), TermC(p, q, k, m), m), 2 * (p.Z * q.Z + d * (p.T * q.T)), m)
  {
    CongMod(p.Z * q.Z, m);
    AddModCong(MulMod(p.Z, q.Z, m), p.Z * q.Z, MulMod(p.Z, q.Z, m), p.Z * q.Z, m);
    CongMod(p.T * q.T, m);
    MulModCong(MulMod(p.T, q.T, m), p.T * q.T, k, 2 * d, m);
    AddModCong(TermD(p, q, m), 2 * (p.Z * q.Z), TermC(p, q, k, m), (p.T * q.T) * (2 * d), m);
    TwiceOf(p.Z * q.Z, p.T * q.T, d);
  }

  lemma TwiceOf(z: int, t: int, d: int)
    ensures 2 * z - t * (2 * d) == 2 * (z - d * t) && 2 * z + t * (2 * d) == 2 * (z + d * t)
  {
    assert t * (2 * d) == 2 * (d * t);
  }

  /** Addition never leaves the curve. */
  lemma AddKeepsCurve(p: Ext, q: Ext, d: int, k: int, m: int)
    requires m > 0 && Cong(k, 2 * d, m)
    requires OnCurve(p, d, m) && OnCurve(q, d, m)
    ensures OnCurve(AddExt(p, q, k, m), d, m)
  {
    var e, h := p.X * q.Y + q.X * p.Y, p.Y * q.Y + p.X * q.X;
    var f, g := p.Z * q.Z - d * (p.T * q.T), p.Z * q.Z + d * (p.T * q.T);
    SumEquation(p, q, d, m);
    ProductForm(e, f, g, h, d, m);
    HalvesEH(p, q, m);
    HalvesFG(p, q, d, k, m);
    var E, H := SubMod(TermB(p, q, m), TermA(p, q, m), m), AddMod(TermB(p, q, m), TermA(p, q, m), m);
    var F, G := SubMod(TermD(p, q, m), TermC(p, q, k, m), m), AddMod(TermD(p, q, m), TermC(p, q, k, m), m);
    MulModCong(E, 2 * e, F, 2 * f, m);
    MulModCong(H, 2 * h, G, 2 * g, m);
    MulModCong(G, 2 * g, F, 2 * f, m);
    MulModCong(E, 2 * e, H, 2 * h, m);
    OnCurveCong(AddExt(p, q, k, m),
      Ext((2 * e) * (2 * f), (2 * h) * (2 * g), (2 * g) * (2 * f), (2 * e) * (2 * h)), d, m);
  }

  // ---------------------------------------------------------------- decompressed points

  /** The numerator and denominator of x^2 for a given y. */
  ghost function Num(y: int, m: int): int
    requires m > 0
  {
    SubMod(MulMod(y, y, m), 1, m)
  }

  ghost function Den(y: int, d: int, m: int): int
    requires m > 0
  {
    AddMod(1, MulMod(MulMod(y, y, m), d, m), m)
  }

  lemma NumDenCong(y: int, d: int, m: int)
    requires m > 0
    ensures Cong(Num(y, m), y * y - 1, m) && Cong(Den(y, d, m), 1 + (y * y) * d, m)
  {
    CongRefl(1, m);
    CongRefl(y, m);
    CongRefl(d, m);
    MulModCong(y, y, y, y, m);
    AddModCong(MulMod(y, y, m), y * y, 1, 1, m);
    MulModCong(MulMod(y, y, m), y * y, d, d, m);
    AddModCong(1, 1, MulMod(MulMod(y, y, m), d, m), (y * y) * d, m);
  }

  /** A root of x^2 (d y^2 + 1) = y^2 - 1 gives a point of the curve. */
  lemma RootOnCurve(x: int, y: int, d: int, m: int)
    requires m > 0 && IsRoot(x, Num(y, m), Den(y, d, m), m)
    ensures OnCurve(Ext(x, y, 1, MulMod(x, y, m)), d, m)
  {
    var u, v, t := Num(y, m), Den(y, d, m), MulMod(x, y, m);
    NumDenCong(y, d, m);
    CongRefl(x, m);
    MulModCong(x, x, x, x, m);
    MulModCong(MulMod(x, x, m), x * x, v, 1 + (y * y) * d, m);
    CongSym(u, (x * x) * (1 + (y * y) * d), m);
    CongTrans((x * x) * (1 + (y * y) * d), u, y * y - 1, m);
    CongRefl(x * x, m);
    CongSub((x * x) * (1 + (y * y) * d), y * y - 1, x * x, x * x, m);
    CongMod(x * y, m);
    CongSym(t, x * y, m);
    CongMul(t, x * y, t, x * y, m);
    CongRefl(d, m);
    CongMul(d, d, t * t, (x * y) * (x * y), m);
    RootSides(x, y, d);
    RootEquation(x * x, y * y, d * ((x * y) * (x * y)), d * (t * t), m);
  }

  lemma RootSides(x: int, y: int, d: int)
    ensures (x * x) * (1 + (y * y) * d) - x * x == d * ((x * y) * (x * y))
  {
    Pair(x, y, x, y);
    Scale(d, x * x, y * y);
    Expand(0, x * x, 1, (y * y) * d);
  }

  /** From d x^2 y^2 = y^2 - 1 - x^2 to the equation with Z = 1. */
  lemma RootEquation(xx: int, yy: int, w: int, dtt: int, m: int)
    requires Cong(w, yy - 1 - xx, m) && Cong(dtt, w, m)
    ensures Cong(yy + -1 * xx, 1 * 1 + dtt, m)
  {
    CongTrans(dtt, w, yy - 1 - xx, m);
    CongRefl(1, m);
    CongAdd(1, 1, dtt, yy - 1 - xx, m);
    CongSym(1 + dtt, 1 + (yy - 1 - xx), m);
  }

  lemma NegatedValue(x: int, m: int)
    requires m > 1 && 0 <= x < m
    ensures SubMod(0, x, m) == if x == 0 then 0 else m - x
  {
    if x != 0 {
      CongBy(-x, m - x, -1, m);
      ModIs(-x, m - x, m);
    }
  }

  lemma NegatedSquare(x: int, n: int, m: int)
    requires m > 1 && n == SubMod(0, x, m)
    ensures MulMod(n, n, m) == MulMod(x, x, m)
  {
    CongMod(-x, m);
    CongMul(n, -x, n, -x, m);
    assert (-x) * (-x) == x * x;
    CongIffMod(n * n, x * x, m);
  }

  /** The other root, and the parity an odd modulus gives it. */
  lemma NegatedRoot(x: int, m: int)
    requires m > 1 && m % 2 == 1 && 0 <= x < m
    ensures var n := SubMod(0, x, m);
      && MulMod(n, n, m) == MulMod(x, x, m)
      && (x == 0 ==> n == 0)
      && (x != 0 ==> n % 2 != x % 2)
  {
    NegatedValue(x, m);
    NegatedSquare(x, SubMod(0, x, m), m);
  }

  /** Either sign of a root gives a point of the curve. */
  lemma EitherRootOnCurve(r: int, x: int, y: int, d: int, m: int)
    requires m > 1 && m % 2 == 1 && 0 <= r < m && IsRoot(r, Num(y, m), Den(y, d, m), m)
    requires x == r || x == SubMod(0, r, m)
    ensures OnCurve(Ext(x, y, 1, MulMod(x, y, m)), d, m)
  {
    NegatedRoot(r, m);
    RootOnCurve(x, y, d, m);
  }

  // ---------------------------------------------------------------- the law is complete

  /** A point with an affine reading. */
  ghost predicate Proper(p: Ext, d: int, m: int) {
    OnCurve(p, d, m) && !Cong(p.Z, 0, m)
  }

  lemma LeaningNorm(p: Ext, i: int, d: int, m: int)
    requires OnCurve(p, d, m) && Cong(i * i, -1, m)
    ensures Cong((i * i) * (p.X * p.X) + p.Y * p.Y, Side(p.Z, p.T, d), m)
  {
    CongRefl(p.X * p.X, m);
    CongMul(i * i, -1, p.X * p.X, p.X * p.X, m);
    CongRefl(p.Y * p.Y, m);
    CongAdd((i * i) * (p.X * p.X), -1 * (p.X * p.X), p.Y * p.Y, p.Y * p.Y, m);
    CongTrans((i * i) * (p.X * p.X) + p.Y * p.Y, Side(p.Y, p.X, -1), Side(p.Z, p.T, d), m);
  }

  lemma LeaningCross(p: Ext, i: int, e: int, d: int, m: int)
    requires OnCurve(p, d, m)
    ensures Cong((2 * (e * i)) * (p.X * p.Y), 2 * (e * (i * (p.T * p.Z))), m)
  {
    CongRefl(2 * (e * i), m);
    CongMul(2 * (e * i), 2 * (e * i), p.X * p.Y, p.T * p.Z, m);
    Regroup(e, i, p.T * p.Z);
    assert (2 * (e * i)) * (p.T * p.Z) == 2 * ((e * i) * (p.T * p.Z));
  }

  /** The square of iX + eY, for a root i of -1 and e = 1 or -1. */
  lemma LeaningSquare(p: Ext, i: int, e: int, d: int, m: int)
    requires OnCurve(p, d, m) && Cong(i * i, -1, m) && (e == 1 || e == -1)
    ensures Cong((i * p.X + e * p.Y) * (i * p.X + e * p.Y), Side(p.Z, p.T, d) + 2 * (e * (i * (p.T * p.Z))), m)
  {
    hide OnCurve, Side;
    LeaningNorm(p, i, d, m);
    LeaningCross(p, i, e, d, m);
    LeanIdentity(p.X, p.Y, i, e);
    CongAdd((i * i) * (p.X * p.X) + p.Y * p.Y, Side(p.Z, p.T, d),
            (2 * (e * i)) * (p.X * p.Y), 2 * (e * (i * (p.T * p.Z))), m);
  }

  lemma LeanIdentity(x: int, y: int, i: int, e: int)
    requires e == 1 || e == -1
    ensures (i * x + e * y) * (i * x + e * y) == (i * i) * (x * x) + y * y + (2 * (e * i)) * (x * y)
  {
    Expand(i * x, e * y, i * x, e * y);
    Pair(i, x, i, x);
    Pair(i, x, e, y);
    Pair(e, y, i, x);
  }

  /** If a denominator of the sum vanishes, d times a square is a square. */
  lemma VanishingSquares(p: Ext, q: Ext, i: int, e: int, d: int, m: int)
    requires OnCurve(p, d, m) && OnCurve(q, d, m) && Cong(i * i, -1, m) && (e == 1 || e == -1)
    requires Cong(p.Z * q.Z, e * (d * (p.T * q.T)), m)
    ensures var a, b := p.T * (i * q.X + q.Y), (i * p.X + e * p.Y) * q.Z;
      Cong(d * (a * a), b * b, m)
  {
    var s, l := i * q.X + 1 * q.Y, i * p.X + e * p.Y;
    var tt, zz := p.T * p.T, q.Z * q.Z;
    LeaningSquare(q, i, 1, d, m);
    LeaningSquare(p, i, e, d, m);
    var right := Side(q.Z, q.T, d) + 2 * (1 * (i * (q.T * q.Z)));
    var left := Side(p.Z, p.T, d) + 2 * (e * (i * (p.T * p.Z)));
    CongRefl(d * tt, m);
    CongMul(d * tt, d * tt, s * s, right, m);
    CongRefl(zz, m);
    CongMul(l * l, left, zz, zz, m);
    Pair(p.T, s, p.T, s);
    Pair(l, q.Z, l, q.Z);
    Scale(d, tt, s * s);
    var w, v := p.Z * q.Z, d * (p.T * q.T);
    BothSides(p.Z, p.T, q.Z, q.T, i, e, d);
    CongMul(w, e * v, w, e * v, m);
    SignSquared(e, v);
    CongSym(w * w, v * v, m);
    CongRefl(2 * (i * (p.T * q.Z)), m);
    CongRefl(e, m);
    CongMul(e, e, w, e * v, m);
    CongSym(e * w, v, m);
    CongMul(2 * (i * (p.T * q.Z)), 2 * (i * (p.T * q.Z)), v, e * w, m);
    var k := 2 * (i * (p.T * q.Z));
    CongAdd(v * v, w * w, k * v, k * (e * w), m);
    CongRefl((d * tt) * zz, m);
    CongAdd(v * v + k * v, w * w + k * (e * w), (d * tt) * zz, (d * tt) * zz, m);
    CongTrans((d * tt) * (s * s), (d * tt) * right, left * zz, m);
    CongSym((l * l) * zz, left * zz, m);
    CongTrans((d * tt) * (s * s), left * zz, (l * l) * zz, m);
  }

  lemma SignSquared(e: int, v: int)
    requires e == 1 || e == -1
    ensures (e * v) * (e * v) == v * v && e * (e * v) == v
  {
  }

  /** The two squares share all but the terms in v = d T1 T2 and w = Z1 Z2. */
  lemma BothSides(z: int, t: int, y: int, r: int, i: int, e: int, d: int)
    ensures var w, v, k := z * y, d * (t * r), 2 * (i * (t * y));
      && (d * (t * t)) * (Side(y, r, d) + 2 * (1 * (i * (r * y)))) == v * v + k * v + (d * (t * t)) * (y * y)
      && (Side(z, t, d) + 2 * (e * (i * (t * z)))) * (y * y) == w * w + k * (e * w) + (d * (t * t)) * (y * y)
  {
    var w, v, k := z * y, d * (t * r), 2 * (i * (t * y));
    var dt := d * (t * t);
    assert dt * (Side(y, r, d) + 2 * (i * (r * y))) == dt * (y * y) + dt * (d * (r * r)) + dt * (2 * (i * (r * y)));
    SameSquare(d, t, r);
    assert dt * (d * (r * r)) == v * v;
    CrossTerm(d, t, i, r, y);
    var zz, yy := z * z, y * y;
    var x := 2 * (e * (i * (t * z)));
    assert (zz + dt + x) * yy == zz * yy + dt * yy + x * yy;
    Pair(z, z, y, y);
    OtherCross(e, i, t, z, y);
  }

  lemma CrossTerm(d: int, t: int, i: int, r: int, y: int)
    ensures (d * (t * t)) * (2 * (i * (r * y))) == (2 * (i * (t * y))) * (d * (t * r))
  {
    Pair(d, t * t, i, r * y);
    Pair(t, t, r, y);
    Pair(t, y, t, r);
    Pair(i, t * y, d, t * r);
    assert (t * t) * (r * y) == (t * y) * (t * r);
    assert (d * (t * t)) * (i * (r * y)) == (i * (t * y)) * (d * (t * r));
  }

  lemma OtherCross(e: int, i: int, t: int, z: int, y: int)
    ensures (2 * (e * (i * (t * z)))) * (y * y) == (2 * (i * (t * y))) * (e * (z * y))
  {
    Pair(t, z, y, y);
    assert (t * z) * (y * y) == (t * y) * (z * y);
    Pair(e, i * (t * z), 1, y * y);
    Pair(i, t * z, 1, y * y);
    Pair(i, t * y, e, z * y);
    assert (i * (t * z)) * (y * y) == i * ((t * y) * (z * y));
    assert (i * (t * y)) * (e * (z * y)) == e * (i * ((t * y) * (z * y)));
  }

  /** What the law needs of the modulus and d, for a root i of -1. */
  ghost predicate Completes(i: int, d: int, m: int) {
    Domain(m) && NonSquare(d, m) && Cong(i * i, -1, m)
  }

  /** With a vanishing denominator, one of the two lines through the second point passes through it. */
  lemma OnLine(p: Ext, q: Ext, i: int, e: int, d: int, m: int)
    requires Completes(i, d, m) && OnCurve(p, d, m) && OnCurve(q, d, m) && (e == 1 || e == -1)
    requires Cong(p.Z * q.Z, e * (d * (p.T * q.T)), m) && !Cong(p.T, 0, m)
    ensures Cong(i * q.X + q.Y, 0, m)
  {
    VanishingSquares(p, q, i, e, d, m);
    assert SquareTimes(d, p.T * (i * q.X + q.Y), (i * p.X + e * p.Y) * q.Z, m);
    assert ZeroProduct(p.T, i * q.X + q.Y, m);
  }

  lemma ZeroTimes(a: int, b: int, m: int)
    requires Cong(b, 0, m)
    ensures Cong(a * b, 0, m) && Cong(b * a, 0, m)
  {
    CongRefl(a, m);
    CongMul(a, a, b, 0, m);
  }

  lemma MinusRoot(i: int, d: int, m: int)
    requires Completes(i, d, m)
    ensures Completes(-i, d, m)
  {
    assert (-i) * (-i) == i * i;
  }

  /** No denominator of a sum of proper points vanishes. */
  lemma NoPole(p: Ext, q: Ext, i: int, e: int, d: int, m: int)
    requires Completes(i, d, m) && Proper(p, d, m) && Proper(q, d, m) && (e == 1 || e == -1)
    ensures !Cong(p.Z * q.Z, e * (d * (p.T * q.T)), m)
  {
    hide Domain, NonSquare, OnCurve;
    NonZeroProduct(p.Z, q.Z, m);
    if Cong(p.Z * q.Z, e * (d * (p.T * q.T)), m) {
      if Cong(p.T, 0, m) || Cong(q.T, 0, m) {
        VanishingTerm(p.T, q.T, e, d, m);
        CongTrans(p.Z * q.Z, e * (d * (p.T * q.T)), 0, m);
      } else {
        OnLine(p, q, i, e, d, m);
        MinusRoot(i, d, m);
        OnLine(p, q, -i, e, d, m);
        BothLines(q, i, d, m);
      }
      assert false;
    }
  }

  lemma VanishingTerm(t: int, r: int, e: int, d: int, m: int)
    requires Cong(t, 0, m) || Cong(r, 0, m)
    ensures Cong(e * (d * (t * r)), 0, m)
  {
    if Cong(t, 0, m) {
      ZeroTimes(r, t, m);
    } else {
      ZeroTimes(t, r, m);
    }
    ZeroTimes(d, t * r, m);
    ZeroTimes(e, d * (t * r), m);
  }

  /** A point on both lines has y = 0, hence t = 0. */
  lemma BothLines(q: Ext, i: int, d: int, m: int)
    requires Completes(i, d, m) && Proper(q, d, m)
    requires Cong(i * q.X + q.Y, 0, m) && Cong(-i * q.X + q.Y, 0, m)
    ensures Cong(q.T, 0, m)
  {
    CongAdd(i * q.X + q.Y, 0, -i * q.X + q.Y, 0, m);
    assert -i * q.X == -(i * q.X);
    assert i * q.X + q.Y + (-i * q.X + q.Y) == 2 * q.Y;
    TwoIsNotZero(m);
    assert ZeroProduct(2, q.Y, m);
    ZeroTimes(q.X, q.Y, m);
    CongSym(q.X * q.Y, q.T * q.Z, m);
    CongTrans(q.T * q.Z, q.X * q.Y, 0, m);
    assert ZeroProduct(q.T, q.Z, m);
  }

  /** The sum of proper points is proper. */
  lemma AddKeepsProper(p: Ext, q: Ext, i: int, d: int, k: int, m: int)
    requires Completes(i, d, m) && Cong(k, 2 * d, m) && Proper(p, d, m) && Proper(q, d, m)
    ensures Proper(AddExt(p, q, k, m), d, m)
  {
    var f, g := p.Z * q.Z - d * (p.T * q.T), p.Z * q.Z + d * (p.T * q.T);
    AddKeepsCurve(p, q, d, k, m);
    NoPole(p, q, i, 1, d, m);
    NoPole(p, q, i, -1, d, m);
    NotDifference(p.Z * q.Z, d * (p.T * q.T), m);
    NotDifference(p.Z * q.Z, -1 * (d * (p.T * q.T)), m);
    TwoIsNotZero(m);
    NonZeroProduct(2, f, m);
    NonZeroProduct(2, g, m);
    NonZeroProduct(2 * g, 2 * f, m);
    HalvesFG(p, q, d, k, m);
    var F, G := SubMod(TermD(p, q, m), TermC(p, q, k, m), m), AddMod(TermD(p, q, m), TermC(p, q, k, m), m);
    MulModCong(G, 2 * g, F, 2 * f, m);
    var r := AddExt(p, q, k, m);
    hide OnCurve, AddExt;
    if Cong(r.Z, 0, m) {
      CongSym(r.Z, (2 * g) * (2 * f), m);
      CongTrans((2 * g) * (2 * f), r.Z, 0, m);
    }
  }

  lemma NotDifference(a: int, b: int, m: int)
    requires !Cong(a, b, m)
    ensures !Cong(a - b, 0, m)
  {
    if Cong(a - b, 0, m) {
      CongRefl(b, m);
      CongAdd(a - b, 0, b, b, m);
    }
  }

  /**
   * The sum is the affine law cross-multiplied: x = (x1 y2 + x2 y1) / (1 + d x1 x2 y1 y2) and
   * y = (y1 y2 + x1 x2) / (1 - d x1 x2 y1 y2), each side taken times Z1 Z2.
   */
  lemma AddIsAffineLaw(p: Ext, q: Ext, d: int, k: int, m: int)
    requires m > 0 && Cong(k, 2 * d, m)
    ensures var r := AddExt(p, q, k, m);
      && Cong(r.X * (p.Z * q.Z + d * (p.T * q.T)), r.Z * (p.X * q.Y + q.X * p.Y), m)
      && Cong(r.Y * (p.Z * q.Z - d * (p.T * q.T)), r.Z * (p.Y * q.Y + p.X * q.X), m)
  {
    var e, h := p.X * q.Y + q.X * p.Y, p.Y * q.Y + p.X * q.X;
    var f, g := p.Z * q.Z - d * (p.T * q.T), p.Z * q.Z + d * (p.T * q.T);
    HalvesEH(p, q, m);
    HalvesFG(p, q, d, k, m);
    var E, H := SubMod(TermB(p, q, m), TermA(p, q, m), m), AddMod(TermB(p, q, m), TermA(p, q, m), m);
    var F, G := SubMod(TermD(p, q, m), TermC(p, q, k, m), m), AddMod(TermD(p, q, m), TermC(p, q, k, m), m);
    MulModCong(E, 2 * e, F, 2 * f, m);
    MulModCong(H, 2 * h, G, 2 * g, m);
    MulModCong(G, 2 * g, F, 2 * f, m);
    var r := AddExt(p, q, k, m);
    assert r.X == MulMod(E, F, m) && r.Y == MulMod(H, G, m) && r.Z == MulMod(G, F, m);
    hide AddExt, TermA, TermB, TermC, TermD;
    CrossRatio(r.X, r.Z, e, g, f, m);
    assert (2 * g) * (2 * f) == (2 * f) * (2 * g);
    CrossRatio(r.Y, r.Z, h, f, g, m);
  }

  lemma CrossRatio(x: int, z: int, e: int, g: int, f: int, m: int)
    requires Cong(x, (2 * e) * (2 * f), m) && Cong(z, (2 * g) * (2 * f), m)
    ensures Cong(x * g, z * e, m)
  {
    CongRefl(g, m);
    CongRefl(e, m);
    CongMul(x, (2 * e) * (2 * f), g, g, m);
    CongMul(z, (2 * g) * (2 * f), e, e, m);
    Pair(2 * e, 2 * f, g, 1);
    assert ((2 * e) * (2 * f)) * g == ((2 * g) * (2 * f)) * e;
    CongSym(z * e, ((2 * g) * (2 * f)) * e, m);
    CongTrans(x * g, ((2 * e) * (2 * f)) * g, z * e, m);
  }

  // ---------------------------------------------------------------- scalar multiples

  const NEUTRAL: Ext := Ext(0, 1, 1, 0)

  ghost function Adder(k: int, m: int): (Ext, Ext) -> Ext
    requires m > 0
  {
    (p, q) => AddExt(p, q, k, m)
  }

  ghost function On(d: int, m: int): Ext -> bool {
    p => Proper(p, d, m)
  }

  lemma NeutralIsProper(d: int, m: int)
    requires m > 1
    ensures On(d, m)(NEUTRAL)
  {
    CongRefl(0, m);
    CongRefl(1, m);
    OneIsNotZero(m);
  }

  /** The proper points are closed, so reading sums on them is all a ladder needs. */
  lemma CurveReading<G(!new)>(i: int, d: int, k: int, m: int, rep: Ext -> G, op: (G, G) -> G, id: G)
    requires Completes(i, d, m) && Cong(k, 2 * d, m) && Monoid(op, id) && rep(NEUTRAL) == id
    requires forall p, q :: HomAt(Adder(k, m), On(d, m), rep, op, p, q)
    ensures Reading(Adder(k, m), NEUTRAL, On(d, m), rep, op, id)
  {
    Odd(i, d, m);
    hide Completes, Proper;
    forall p, q
      ensures ReadsSum(Adder(k, m), On(d, m), rep, op, p, q)
    {
      if On(d, m)(p) && On(d, m)(q) {
        AddKeepsProper(p, q, i, d, k, m);
      }
      assert HomAt(Adder(k, m), On(d, m), rep, op, p, q);
    }
    NeutralIsProper(d, m);
  }

  lemma Odd(i: int, d: int, m: int)
    requires Completes(i, d, m)
    ensures m > 2
  {
  }

  /**
   * The ladder on a proper point of the curve ends on one, at [s]Q in every associative reading
   * of the proper points' addition.
   */
  lemma ScalarMultiple<G(!new)>(i: int, d: int, k: int, m: int, q: Ext, s: seq<byte>,
    rep: Ext -> G, op: (G, G) -> G, id: G)
    requires Completes(i, d, m) && Cong(k, 2 * d, m) && Monoid(op, id) && rep(NEUTRAL) == id
    requires |s| == 32 && Proper(q, d, m)
    requires forall p, q :: HomAt(Adder(k, m), On(d, m), rep, op, p, q)
    ensures var r := Ladder(Adder(k, m), NEUTRAL, q, s, 0).0;
      Proper(r, d, m) && Val(s, 256) >= 0 && rep(r) == Times(op, id, Val(s, 256), rep(q))
  {
    CurveReading(i, d, k, m, rep, op, id);
    LadderMultiplies(Adder(k, m), NEUTRAL, On(d, m), rep, op, id, q, s);
  }
}
