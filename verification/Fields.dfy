/**
 * What a prime modulus gives the curve, as hypotheses, and the square root that RFC 8032,
 * section 5.1.3, takes by a power.
 */
module Fields {
  import opened Modular

  // ---------------------------------------------------------------- hypotheses

  ghost predicate ZeroProduct(a: int, b: int, m: int) {
    Cong(a * b, 0, m) ==> Cong(a, 0, m) || Cong(b, 0, m)
  }

  /** An odd modulus without zero divisors. */
  ghost predicate Domain(m: int) {
    m > 2 && m % 2 == 1 && forall a, b :: ZeroProduct(a, b, m)
  }

  ghost predicate SquareTimes(d: int, a: int, b: int, m: int) {
    Cong(d * (a * a), b * b, m) ==> Cong(a, 0, m)
  }

  /** `d` is no ratio of two squares. */
  ghost predicate NonSquare(d: int, m: int) {
    forall a, b :: SquareTimes(d, a, b, m)
  }

  ghost predicate FermatAt(x: int, m: int)
    requires m > 1
  {
    !Cong(x, 0, m) ==> PowMod(x, m - 1, m) == 1
  }

  /** Fermat's theorem. */
  ghost predicate Fermat(m: int)
    requires m > 1
  {
    forall x :: FermatAt(x, m)
  }

  lemma NonZeroProduct(a: int, b: int, m: int)
    requires Domain(m) && !Cong(a, 0, m) && !Cong(b, 0, m)
    ensures !Cong(a * b, 0, m)
  {
    assert ZeroProduct(a, b, m);
  }

  lemma TwoIsNotZero(m: int)
    requires Domain(m)
    ensures !Cong(2, 0, m)
  {
    if Cong(2, 0, m) {
      var k: int :| 2 - 0 == Multiple(k, m);
      MultipleSize(k, m);
    }
  }

  lemma OneIsNotZero(m: int)
    requires m > 1
    ensures !Cong(1, 0, m)
  {
    if Cong(1, 0, m) {
      CongUnique(1, 0, m);
    }
  }

  // ---------------------------------------------------------------- powers

  lemma MulModSwap(a: int, b: int, c: int, e: int, m: int)
    requires m > 0
    ensures MulMod(MulMod(a, b, m), MulMod(c, e, m), m) == MulMod(MulMod(a, c, m), MulMod(b, e, m), m)
  {
    MulModAssoc(a, b, MulMod(c, e, m), m);
    MulModAssoc(b, c, e, m);
    MulModComm(b, c, m);
    MulModAssoc(c, b, e, m);
    MulModAssoc(a, c, MulMod(b, e, m), m);
  }

  lemma MulModOne(x: int, m: int)
    requires m > 1 && 0 <= x < m
    ensures MulMod(x, 1, m) == x == MulMod(1, x, m)
  {
  }

  lemma {:induction false} PowModMul(x: int, y: int, n: nat, m: int)
    requires m > 1
    ensures PowMod(MulMod(x, y, m), n, m) == MulMod(PowMod(x, n, m), PowMod(y, n, m), m)
  {
    if n == 0 {
      MulModOne(1, m);
    } else {
      PowModMul(x, y, n - 1, m);
      MulModSwap(x, y, PowMod(x, n - 1, m), PowMod(y, n - 1, m), m);
    }
  }

  lemma {:induction false} PowModPow(x: int, a: nat, b: nat, m: int)
    requires m > 1
    ensures PowMod(PowMod(x, a, m), b, m) == PowMod(x, a * b, m)
  {
    if b == 0 {
    } else {
      PowModPow(x, a, b - 1, m);
      PowModAdd(x, a, a * (b - 1), m);
      assert a + a * (b - 1) == a * b;
    }
  }

  lemma {:induction false} PowModOfOne(n: nat, m: int)
    requires m > 1
    ensures PowMod(1, n, m) == 1
  {
    if n > 0 {
      PowModOfOne(n - 1, m);
      MulModOne(1, m);
    }
  }

  // ---------------------------------------------------------------- the root

  /** RFC 8032 section 5.1.3, step 2: u v^3 (u v^7)^((p-5)/8). */
  ghost function Candidate(u: int, v: int, n: nat, m: int): int
    requires m > 1
  {
    MulMod(MulMod(u, PowMod(v, 3, m), m), PowMod(MulMod(u, PowMod(v, 7, m), m), n, m), m)
  }

  /** x is a square root of u / v, cross-multiplied. */
  ghost predicate IsRoot(x: int, u: int, v: int, m: int)
    requires m > 0
  {
    MulMod(MulMod(x, x, m), v, m) == u
  }

  /** The square of the candidate misses u / v by the factor (u v^7)^(2n + 1). */
  lemma CandidateSquare(u: int, v: int, n: nat, m: int)
    requires m > 1 && 0 <= u < m && 0 <= v < m
    ensures var c := Candidate(u, v, n, m);
      MulMod(MulMod(c, c, m), v, m) == MulMod(u, PowMod(MulMod(u, PowMod(v, 7, m), m), 2 * n + 1, m), m)
  {
    var v3, v7 := PowMod(v, 3, m), PowMod(v, 7, m);
    var t := MulMod(u, v7, m);
    var w := PowMod(t, n, m);
    var a := MulMod(u, v3, m);
    var c := MulMod(a, w, m);
    MulModSwap(a, w, a, w, m);
    PowModAdd(t, n, n, m);
    var ww := PowMod(t, 2 * n, m);
    assert MulMod(c, c, m) == MulMod(MulMod(a, a, m), ww, m);
    MulModSwap(u, v3, u, v3, m);
    PowModAdd(v, 3, 3, m);
    var v6 := PowMod(v, 6, m);
    MulModAssoc(u, u, v6, m);
    MulModAssoc(MulMod(a, a, m), ww, v, m);
    MulModComm(ww, v, m);
    MulModAssoc(MulMod(a, a, m), v, ww, m);
    MulModAssoc(u, MulMod(u, v6, m), v, m);
    MulModAssoc(u, v6, v, m);
    PowModOne(v, m);
    PowModAdd(v, 6, 1, m);
    assert MulMod(MulMod(a, a, m), v, m) == MulMod(u, t, m);
    MulModAssoc(u, t, ww, m);
  }

  /** If u / v is the square of x, that factor is x^(4n + 2), times a power of v that Fermat makes one. */
  lemma FactorOfSquare(x: int, u: int, v: int, n: nat, m: int)
    requires m == 8 * n + 5 && 0 <= x < m && 0 <= v < m && IsRoot(x, u, v, m)
    requires Fermat(m) && !Cong(v, 0, m)
    ensures PowMod(MulMod(u, PowMod(v, 7, m), m), 2 * n + 1, m) == PowMod(x, 4 * n + 2, m)
  {
    var xx, v7, v8, k := MulMod(x, x, m), PowMod(v, 7, m), PowMod(v, 8, m), 2 * n + 1;
    MulModAssoc(xx, v, v7, m);
    PowModOne(v, m);
    PowModAdd(v, 1, 7, m);
    PowModMul(xx, v8, k, m);
    PowModOne(x, m);
    PowModAdd(x, 1, 1, m);
    PowModPow(x, 2, k, m);
    PowModPow(v, 8, k, m);
    PowModPow(v, m - 1, 2, m);
    assert FermatAt(v, m);
    PowModOfOne(2, m);
    assert 8 * k == (m - 1) * 2;
    PowModRange(x, 2 * k, m);
    MulModOne(PowMod(x, 2 * k, m), m);
  }

  /** In a domain only 1 and -1 are their own inverses. */
  lemma RootsOfOne(s: int, m: int)
    requires Domain(m) && 0 <= s < m && MulMod(s, s, m) == 1
    ensures s == 1 || s == m - 1
  {
    CongMod(s * s, m);
    CongSym(MulMod(s, s, m), s * s, m);
    CongRefl(1, m);
    CongSub(s * s, 1, 1, 1, m);
    assert (s - 1) * (s + 1) == s * s - 1;
    assert ZeroProduct(s - 1, s + 1, m);
    if Cong(s - 1, 0, m) {
      CongAdd(s - 1, 0, 1, 1, m);
      CongUnique(s, 1, m);
    } else {
      CongSub(s + 1, 0, 1, 1, m);
      CongBy(-1, m - 1, -1, m);
      CongTrans(s, -1, m - 1, m);
      CongUnique(s, m - 1, m);
    }
  }

  lemma ZeroFactor(x: int, y: int, m: int)
    requires m > 0 && Cong(y, 0, m)
    ensures MulMod(x, y, m) == 0 && MulMod(y, x, m) == 0
  {
    CongRefl(x, m);
    CongMul(x, x, y, 0, m);
    CongMul(y, 0, x, x, m);
    ModIs(x * y, 0, m);
    ModIs(y * x, 0, m);
  }

  /** Negating by a square root of -1. */
  lemma TurnedSquare(c: int, i: int, v: int, u: int, m: int)
    requires m > 1 && MulMod(i, i, m) == m - 1 && 0 <= u < m
    requires MulMod(MulMod(c, c, m), v, m) == MulMod(u, m - 1, m)
    ensures IsRoot(MulMod(c, i, m), u, v, m)
  {
    MulModSwap(c, i, c, i, m);
    var cc := MulMod(c, c, m);
    MulModAssoc(cc, m - 1, v, m);
    MulModComm(m - 1, v, m);
    MulModAssoc(cc, v, m - 1, m);
    MulModAssoc(u, m - 1, m - 1, m);
    MinusOneSquared(m);
    MulModOne(u, m);
  }

  lemma MinusOneSquared(m: int)
    requires m > 1
    ensures MulMod(m - 1, m - 1, m) == 1
  {
    assert (m - 1) * (m - 1) - 1 == (m - 2) * m;
    CongBy((m - 1) * (m - 1), 1, m - 2, m);
    ModIs((m - 1) * (m - 1), 1, m);
  }

  /** The candidate, or that times a square root of -1, is a root whenever there is one. */
  lemma CandidateWorks(x: int, u: int, v: int, n: nat, i: int, m: int)
    requires m == 8 * n + 5 && Domain(m) && Fermat(m) && MulMod(i, i, m) == m - 1
    requires 0 <= x < m && 0 <= u < m && 0 <= v < m && IsRoot(x, u, v, m)
    ensures var c := Candidate(u, v, n, m); IsRoot(c, u, v, m) || IsRoot(MulMod(c, i, m), u, v, m)
  {
    var c, t := Candidate(u, v, n, m), MulMod(u, PowMod(v, 7, m), m);
    CandidateSquare(u, v, n, m);
    if u == 0 {
      CongRefl(0, m);
      ZeroFactor(PowMod(t, 2 * n + 1, m), 0, m);
    } else if Cong(v, 0, m) {
      ZeroFactor(MulMod(x, x, m), v, m);
    } else {
      FactorOfSquare(x, u, v, n, m);
      var s := PowMod(x, 4 * n + 2, m);
      if Cong(x, 0, m) {
        ZeroFactor(x, x, m);
        CongRefl(0, m);
        ZeroFactor(v, 0, m);
        assert false;
      }
      PowModAdd(x, 4 * n + 2, 4 * n + 2, m);
      assert FermatAt(x, m);
      PowModRange(x, 4 * n + 2, m);
      RootsOfOne(s, m);
      if s == 1 {
        MulModOne(u, m);
      } else {
        TurnedSquare(c, i, v, u, m);
      }
    }
  }
}
