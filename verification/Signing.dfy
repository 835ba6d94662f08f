/**
 * What a signer makes is accepted (RFC 8032, sections 5.1.6 and 5.1.7): compression undone up to
 * the sign of x, and the verification equation solved.
 */
module Signing {
  import opened Affine
  import opened Curve
  import opened Ed25519
  import opened Edwards
  import opened Field25519
  import opened Fields
  import opened Limbs
  import opened Modular
  import opened Scalars
  import opened Sha2
  import ScalarL

  // ---------------------------------------------------------------- compression undone

  /** The y and the sign bit a compressed point carries. */
  lemma CompressedParts(key: seq<byte>, y: int, par: int)
    requires |key| == 32 && 0 <= y < P && 0 <= par <= 1 && Val(key, 256) == y + (P + 19) * par
    ensures EncodedY(key) == y && key[31] / 128 == par
  {
    QuotRem(Val(key, 256), P + 19, par, y);
    var low, p := key[..31], Pow(256, 31);
    ValPrefix(key, 31, 256);
    assert key[..32] == key;
    ValBound(low, 256);
    HighByte();
    var hi, rest := key[31] / 128, key[31] % 128;
    SplitTop(p, rest, hi, key[31], P + 19);
    TopRest(Val(low, 256), p, rest, P + 19);
    QuotRem(Val(key, 256), P + 19, hi, Val(low, 256) + p * rest);
  }

  lemma SplitTop(p: int, rest: int, hi: int, k: int, q: int)
    requires k == 128 * hi + rest && 128 * p == q
    ensures p * k == q * hi + p * rest
  {
    assert p * (128 * hi) == (128 * p) * hi;
  }

  lemma TopRest(low: int, p: int, rest: int, q: int)
    requires 0 <= low < p && 0 <= rest < 128 && 128 * p == q
    ensures 0 <= low + p * rest < q
  {
    NonNegative(p, rest);
    NonNegative(p, 127 - rest);
  }

  /** A root over unreduced coordinates is one over their remainders. */
  lemma ReducedRoot(x: int, y: int, d: int, m: int)
    requires m > 1 && IsRoot(x, Num(y, m), Den(y, d, m), m)
    ensures IsRoot(x % m, Num(y % m, m), Den(y % m, d, m), m)
  {
    CongMod(x, m);
    CongMod(y, m);
    CongMul(x % m, x, x % m, x, m);
    CongMul(y % m, y, y % m, y, m);
    CongIffMod((x % m) * (x % m), x * x, m);
    CongIffMod((y % m) * (y % m), y * y, m);
    assert MulMod(y % m, y % m, m) == MulMod(y, y, m) && MulMod(x % m, x % m, m) == MulMod(x, x, m);
  }

  /** What a prime modulus with -1 a square and d none gives. */
  ghost predicate PrimeFacts() {
    Domain(P) && Fermat(P) && NonSquare(ED, P)
  }

  predicate IsP(m: int) {
    m == P
  }

  /**
   * `b` is what a proper point of the curve packs to. Said of every modulus that is p, which keeps its digits out of
   * proofs that do not look at them.
   */
  ghost predicate Compressed(b: seq<byte>, a: Ext) {
    |b| == 32 && forall m :: IsP(m) ==> Proper(a, ED, m) && Val(b, 256) == Encoded(a)
  }

  lemma CompletesHere()
    requires PrimeFacts()
    ensures Completes(SQRTM1, ED, P)
  {
    RootOfMinusOne();
  }

  /** The affine x of a point is a root for its affine y. */
  lemma AffineRoot(a: Ext, zi: int, d: int, m: int)
    requires m > 1 && OnCurve(a, d, m) && MulMod(a.Z, zi, m) == 1
    ensures var x, y := MulMod(a.X, zi, m), MulMod(a.Y, zi, m); IsRoot(x, Num(y, m), Den(y, d, m), m)
  {
    UnitCong(a.Z, zi, m);
    AffineEquation(a, zi, d, m);
    RootFromEquation(a.X * zi, a.Y * zi, d, m);
    hide IsRoot, Num, Den;
    ReducedRoot(a.X * zi, a.Y * zi, d, m);
  }

  /** Of two opposite roots the parity picks the negated one. */
  lemma NegatedByParity(r: int, x: int, m: int)
    requires m > 1 && m % 2 == 1 && 0 <= x < m && (r == x || r == SubMod(0, x, m))
    ensures (if r % 2 == x % 2 then SubMod(0, r, m) else r) == SubMod(0, x, m)
  {
    NegatedValue(x, m);
    if r != x {
      NegatedValue(r, m);
    }
  }

  /** Decompressing what was compressed gives the point with its x negated. */
  lemma UnpacksNegated(key: seq<byte>, a: Ext)
    requires PrimeFacts() && Compressed(key, a)
    ensures Root25519(FoundRoot(EncodedY(key)), EncodedY(key)) && SamePoint(Unpacked(key), Negated(a), P)
  {
    assert IsP(P);
    var zi := FPow(a.Z, P - 2);
    EncodesAffine(a);
    var x, y := FMul(a.X, zi), FMul(a.Y, zi);
    CompressedParts(key, y, x % 2);
    AffineRoot(a, zi, ED, P);
    RootMeans(x, y);
    RootIsFound(y);
    CompletesHere();
    hide Domain, NonSquare, Fermat, Root25519, FoundRoot, EncodedY;
    var r := FoundRoot(y);
    FoundRange(y);
    assert IsRoot(x, Num(y, P), Den(y, ED, P), P) && IsRoot(r, Num(y, P), Den(y, ED, P), P) by {
      RootMeans(x, y);
      RootMeans(r, y);
    }
    RootsOpposite(x, r, y, SQRTM1, ED, P);
    NegatedByParity(r, x, P);
    assert Unpacked(key).X == FSub(0, x);
    NegatedName(a, zi, Unpacked(key), P);
  }

  lemma NegatedName(a: Ext, zi: int, u: Ext, m: int)
    requires m > 1 && MulMod(a.Z, zi, m) == 1 && u.Z == 1
    requires u.X == SubMod(0, MulMod(a.X, zi, m), m) && u.Y == MulMod(a.Y, zi, m)
    ensures SamePoint(u, Negated(a), m)
  {
    UnitCong(a.Z, zi, m);
    BackToName(a.X, a.Z, zi, m);
    BackToName(a.Y, a.Z, zi, m);
    hide Cong, MulMod, SubMod;
    NegatedTimes(MulMod(a.X, zi, m), a.Z, a.X, m);
    assert -a.X * 1 == -a.X && a.Y * 1 == a.Y;
  }

  lemma NegatedTimes(x: int, z: int, c: int, m: int)
    requires m > 1 && Cong(x * z, c, m)
    ensures Cong(SubMod(0, x, m) * z, -c, m)
  {
    CongMod(-x, m);
    CongRefl(z, m);
    CongMul(SubMod(0, x, m), -x, z, z, m);
    CongRefl(0, m);
    CongSub(0, 0, x * z, c, m);
    assert (-x) * z == -(x * z);
    CongTrans(SubMod(0, x, m) * z, (-x) * z, -c, m);
  }

  lemma BackToName(c: int, z: int, zi: int, m: int)
    requires m > 1 && Cong(z * zi, 1, m)
    ensures Cong(MulMod(c, zi, m) * z, c, m)
  {
    CongMod(c * zi, m);
    CongRefl(z, m);
    CongMul(MulMod(c, zi, m), c * zi, z, z, m);
    CongRefl(c, m);
    CongMul(c, c, z * zi, 1, m);
    assert (c * zi) * z == c * (z * zi);
    CongTrans(MulMod(c, zi, m) * z, (c * zi) * z, c, m);
  }

  /** Compression is the same for every name of a point. */
  lemma EncodedSame(p: Ext, q: Ext)
    requires Fermat(P) && !Cong(p.Z, 0, P) && !Cong(q.Z, 0, P) && SamePoint(p, q, P)
    ensures Encoded(p) == Encoded(q)
  {
    EncodesAffine(p);
    EncodesAffine(q);
    SameQuotients(p, q, FPow(p.Z, P - 2), FPow(q.Z, P - 2), P);
  }

  // ---------------------------------------------------------------- multiples

  lemma {:induction false} TimesTimes<G(!new)>(op: (G, G) -> G, id: G, n: nat, a: nat, g: G)
    requires Monoid(op, id)
    ensures Times(op, id, n, Times(op, id, a, g)) == Times(op, id, n * a, g)
  {
    if n > 0 {
      TimesTimes(op, id, n - 1, a, g);
      assert (n - 1) * a + a == n * a;
      NonNegative(n - 1, a);
      TimesAdd(op, id, (n - 1) * a, a, g);
    }
  }

  lemma {:induction false} TimesIdentity<G(!new)>(op: (G, G) -> G, id: G, n: nat)
    requires Monoid(op, id)
    ensures Times(op, id, n, id) == id
  {
    if n > 0 {
      TimesIdentity(op, id, n - 1);
      assert Neutral(op, id, id);
    }
  }

  /** Equal multiples of inverse elements cancel. */
  lemma {:induction false} InverseMultiples<G(!new)>(op: (G, G) -> G, id: G, n: nat, g: G, h: G)
    requires Monoid(op, id) && op(g, h) == id
    ensures op(Times(op, id, n, g), Times(op, id, n, h)) == id
  {
    if n == 0 {
      assert Neutral(op, id, id);
    } else {
      var u, v := Times(op, id, n - 1, g), Times(op, id, n - 1, h);
      InverseMultiples(op, id, n - 1, g, h);
      assert Neutral(op, id, h);
      assert Times(op, id, 1, h) == op(Times(op, id, 0, h), h);
      TimesAdd(op, id, 1, n - 1, h);
      assert Associates(op, u, g, op(h, v)) && Associates(op, g, h, v);
      assert Neutral(op, id, v);
    }
  }

  lemma Cancelled<G(!new)>(op: (G, G) -> G, id: G, x: G, n: nat, g: G, h: G)
    requires Monoid(op, id) && op(g, h) == id
    ensures op(op(x, Times(op, id, n, g)), Times(op, id, n, h)) == x
  {
    InverseMultiples(op, id, n, g, h);
    assert Associates(op, x, Times(op, id, n, g), Times(op, id, n, h)) && Neutral(op, id, x);
  }

  /** [r]B + [h][a]B = [s]B when s = r + h a modulo the order of B. */
  lemma EquationSolved<G(!new)>(op: (G, G) -> G, id: G, b: G, order: nat, r: nat, h: nat, a: nat, s: nat)
    requires Monoid(op, id) && order > 0 && Times(op, id, order, b) == id && s == (r + h * a) % order
    ensures op(Times(op, id, r, b), Times(op, id, h, Times(op, id, a, b))) == Times(op, id, s, b)
  {
    hide Times, Monoid;
    NonNegative(h, a);
    var ha: nat := h * a;
    var k := Quotient(r + ha, order);
    SumDrops(op, id, b, order, r, ha, s, k);
    TimesTimes(op, id, h, a, b);
  }

  lemma SumDrops<G(!new)>(op: (G, G) -> G, id: G, b: G, order: nat, r: nat, ha: nat, s: nat, k: nat)
    requires Monoid(op, id) && Times(op, id, order, b) == id && r + ha == s + k * order
    ensures Times(op, id, s, b) == op(Times(op, id, r, b), Times(op, id, ha, b))
  {
    hide Times, Monoid;
    OrderDrops(op, id, b, order, s, k);
    TimesAdd(op, id, r, ha, b);
  }

  lemma Quotient(x: nat, order: nat) returns (k: nat)
    requires order > 0
    ensures x == x % order + k * order
  {
    k := x / order;
  }

  lemma OrderDrops<G(!new)>(op: (G, G) -> G, id: G, b: G, order: nat, s: nat, k: nat)
    requires Monoid(op, id) && Times(op, id, order, b) == id
    ensures k * order >= 0 && Times(op, id, s + k * order, b) == Times(op, id, s, b)
  {
    NonNegative(k, order);
    TimesTimes(op, id, k, order, b);
    TimesIdentity(op, id, k);
    TimesAdd(op, id, s, k * order, b);
    assert Neutral(op, id, Times(op, id, s, b));
  }

  // ---------------------------------------------------------------- the signature

  /** `rep` tells proper points apart exactly as points. */
  ghost predicate Names<G(!new)>(rep: Ext -> G, p: Ext, q: Ext, d: int, m: int) {
    Proper(p, d, m) && Proper(q, d, m) ==> (rep(p) == rep(q) <==> SamePoint(p, q, m))
  }

  /** A group that the proper points stand for, in which the base point has order L. */
  ghost predicate CurveGroup<G(!new)>(rep: Ext -> G, op: (G, G) -> G, id: G) {
    && Monoid(op, id) && rep(NEUTRAL) == id && Times(op, id, ScalarL.L, rep(Base())) == id
    && (forall p, q :: HomAt(Adder(ED2, P), On(ED, P), rep, op, p, q))
    && (forall p, q :: Names(rep, p, q, ED, P))
  }

  /**
   * A signature made as RFC 8032 section 5.1.6 makes it: R encodes [r]B, the key encodes [a]B,
   * and S is r + h a modulo L for the hash h of R, the key and the message.
   */
  ghost predicate Made<G(!new)>(f: Compression, msg: seq<byte>, sig: seq<byte>, key: seq<byte>, a: nat, r: nat, A: Ext, R: Ext,
    rep: Ext -> G, op: (G, G) -> G, id: G)
    requires |sig| == 64 && |key| == 32
  {
    && Compressed(key, A) && rep(A) == Times(op, id, a, rep(Base()))
    && Compressed(sig[..32], R) && rep(R) == Times(op, id, r, rep(Base()))
    && Val(sig[32..], 256) == (r + HashNumber(f, sig[..32] + key + msg) % ScalarL.L * a) % ScalarL.L
  }

  /** A key and what it decompresses to: proper points whose sum is the neutral element. */
  lemma KeyPoints(key: seq<byte>, A: Ext)
    requires PrimeFacts() && Compressed(key, A)
    ensures Root25519(FoundRoot(EncodedY(key)), EncodedY(key)) && Proper(A, ED, P)
    ensures Proper(Unpacked(key), ED, P) && Proper(Negated(A), ED, P) && SamePoint(Unpacked(key), Negated(A), P)
    ensures Cancel(A, Negated(A), ED, ED2, P) && Cancel(Negated(A), A, ED, ED2, P)
  {
    assert IsP(P);
    UnpacksNegated(key, A);
    ProperPoints(key);
    NegatedIsProper(A, ED, P);
    assert Negated(Negated(A)) == A;
    hide Unpacked, Proper, SamePoint, Negated, AddExt, Domain, NonSquare, Fermat, Encoded, Root25519, FoundRoot, EncodedY;
    CompletesHere();
    NegationCancels(A, SQRTM1, ED, ED2, P);
    AddKeepsProper(A, Negated(A), SQRTM1, ED, ED2, P);
    NegationCancels(Negated(A), SQRTM1, ED, ED2, P);
    AddKeepsProper(Negated(A), A, SQRTM1, ED, ED2, P);
  }

  /** The formula takes the two points to the neutral one. */
  ghost predicate Cancel(p: Ext, q: Ext, d: int, k: int, m: int)
    requires m > 0
  {
    var sum := AddExt(p, q, k, m);
    Proper(sum, d, m) && SamePoint(sum, NEUTRAL, m)
  }

  /** The negated key is inverse to the key, on either side. */
  lemma KeyInverse<G(!new)>(key: seq<byte>, A: Ext, rep: Ext -> G, op: (G, G) -> G, id: G)
    requires PrimeFacts() && CurveGroup(rep, op, id) && Compressed(key, A)
    ensures Root25519(FoundRoot(EncodedY(key)), EncodedY(key))
    ensures op(rep(A), rep(Unpacked(key))) == id && op(rep(Unpacked(key)), rep(A)) == id
  {
    KeyPoints(key, A);
    NeutralIsProper(ED, P);
    assert Proper(NEUTRAL, ED, P);
    hide *;
    var n, u := Negated(A), Unpacked(key);
    GroupAt(rep, op, id, A, n);
    GroupAt(rep, op, id, n, A);
    GroupAt(rep, op, id, u, n);
    GroupAt(rep, op, id, AddExt(A, n, ED2, P), NEUTRAL);
    GroupAt(rep, op, id, AddExt(n, A, ED2, P), NEUTRAL);
    SumIsIdentity(A, n, rep, op, id, ED, ED2, P);
    SumIsIdentity(n, A, rep, op, id, ED, ED2, P);
    SameElement(u, n, rep, ED, P);
  }

  lemma GroupAt<G(!new)>(rep: Ext -> G, op: (G, G) -> G, id: G, p: Ext, q: Ext)
    requires CurveGroup(rep, op, id)
    ensures HomAt(Adder(ED2, P), On(ED, P), rep, op, p, q) && Names(rep, p, q, ED, P) && rep(NEUTRAL) == id
  {
    hide HomAt, Names, Monoid, Times, Base;
  }

  lemma SumIsIdentity<G(!new)>(a: Ext, b: Ext, rep: Ext -> G, op: (G, G) -> G, id: G, d: int, k: int, m: int)
    requires m > 1 && Proper(a, d, m) && Proper(b, d, m) && Proper(NEUTRAL, d, m) && rep(NEUTRAL) == id
    requires Cancel(a, b, d, k, m)
    requires HomAt(Adder(k, m), On(d, m), rep, op, a, b) && Names(rep, AddExt(a, b, k, m), NEUTRAL, d, m)
    ensures op(rep(a), rep(b)) == id
  {
    hide Proper, SamePoint, AddExt;
  }

  lemma SameElement<G(!new)>(p: Ext, q: Ext, rep: Ext -> G, d: int, m: int)
    requires Proper(p, d, m) && Proper(q, d, m) && SamePoint(p, q, m) && Names(rep, p, q, d, m)
    ensures rep(p) == rep(q)
  {
    hide Proper, SamePoint;
  }

  /** S is below 2^253 exactly if the three top bits of its last byte are clear. */
  lemma SmallScalar(s: seq<byte>)
    requires |s| == 32
    ensures Val(s, 256) < 32 * Pow(256, 31) <==> s[31] < 32
  {
    ValPrefix(s, 31, 256);
    assert s[..32] == s;
    ValBound(s[..31], 256);
    hide Val, Pow;
    BelowDigit(Val(s[..31], 256), s[31], Pow(256, 31), 32);
  }

  lemma OrderSmall()
    ensures ScalarL.L < 32 * Pow(256, 31)
  {
    HighByte();
  }

  lemma BelowDigit(v: int, x: int, p: int, n: int)
    requires 0 <= v < p
    ensures v + p * x < n * p <==> x < n
  {
    if x < n {
      NonNegative(p, n - 1 - x);
    } else {
      NonNegative(p, x - n);
    }
  }

  /** RFC 8032, section 5.1.7: R encodes a point that with h times the key gives S times the base point. */
  ghost predicate Verifies<G(!new)>(f: Compression, msg: seq<byte>, sig: seq<byte>, key: seq<byte>, A: Ext, R: Ext,
    rep: Ext -> G, op: (G, G) -> G, id: G)
    requires |sig| == 64 && |key| == 32
  {
    ValBound(sig[32..], 256);
    var s, h := Val(sig[32..], 256), HashNumber(f, sig[..32] + key + msg) % ScalarL.L;
    && Compressed(sig[..32], R)
    && op(rep(R), Times(op, id, h, rep(A))) == Times(op, id, s, rep(Base()))
  }

  lemma FoundIsAccepted<G(!new)>(f: Compression, msg: seq<byte>, sig: seq<byte>, key: seq<byte>, A: Ext,
    rep: Ext -> G, op: (G, G) -> G, id: G)
    requires PrimeFacts() && CurveGroup(rep, op, id) && |sig| == 64 && Compressed(key, A)
    ensures var q := Recomputed(f, msg, sig, key);
      Val(sig[..32], 256) == Encoded(q) ==> Verifies(f, msg, sig, key, A, q, rep, op, id)
    ensures forall R :: Verifies(f, msg, sig, key, A, R, rep, op, id) ==>
      Val(sig[..32], 256) == Encoded(Recomputed(f, msg, sig, key))
  {
    assert IsP(P);
    hide Domain, NonSquare, Fermat, HashNumber, FipsNumber, Times, Base, Unpacked, Encoded, Recomputed, Proper, HomAt, Names;
    KeyInverse(key, A, rep, op, id);
    CurveEquation(f, msg, sig, key, rep, op, id);
    var s, h := Val(sig[32..], 256), HashNumber(f, sig[..32] + key + msg) % ScalarL.L;
    var q := Recomputed(f, msg, sig, key);
    Cancelled(op, id, Times(op, id, s, rep(Base())), h, rep(Unpacked(key)), rep(A));
    forall R | Verifies(f, msg, sig, key, A, R, rep, op, id)
      ensures Val(sig[..32], 256) == Encoded(q)
    {
      Cancelled(op, id, rep(R), h, rep(A), rep(Unpacked(key)));
      assert Names(rep, q, R, ED, P);
      SameName(q, R, rep, ED, P);
      EncodedSame(q, R);
    }
  }

  /** The verdict on a key that encodes a point, exactly. */
  lemma AcceptsExactly<G(!new)>(f: Compression, msg: seq<byte>, sig: seq<byte>, key: seq<byte>, A: Ext,
    rep: Ext -> G, op: (G, G) -> G, id: G)
    requires PrimeFacts() && CurveGroup(rep, op, id) && |sig| == 64 && Compressed(key, A)
    ensures Accepts(f, msg, sig, key) <==>
      Val(sig[32..], 256) < 32 * Pow(256, 31) && exists R :: Verifies(f, msg, sig, key, A, R, rep, op, id)
  {
    SmallScalar(sig[32..]);
    KeyPoints(key, A);
    FoundIsAccepted(f, msg, sig, key, A, rep, op, id);
    assert sig[32..][31] == sig[63];
    hide Domain, NonSquare, Fermat, CurveGroup, Proper, Unpacked, Encoded, Recomputed, Root25519, FoundRoot, EncodedY, Pow;
    if Accepts(f, msg, sig, key) {
      assert Verifies(f, msg, sig, key, A, Recomputed(f, msg, sig, key), rep, op, id);
    }
  }

  /** Every signature so made is accepted. */
  lemma SignedVerifies<G(!new)>(f: Compression, msg: seq<byte>, sig: seq<byte>, key: seq<byte>, a: nat, r: nat, A: Ext, R: Ext,
    rep: Ext -> G, op: (G, G) -> G, id: G)
    requires PrimeFacts() && CurveGroup(rep, op, id)
    requires |sig| == 64 && |key| == 32 && Made(f, msg, sig, key, a, r, A, R, rep, op, id)
    ensures Accepts(f, msg, sig, key)
  {
    hide Domain, NonSquare, Fermat, HashNumber, Times, Base, Compressed, Accepts, HomAt, Names;
    OrderSmall();
    var s, h := Val(sig[32..], 256), HashNumber(f, sig[..32] + key + msg) % ScalarL.L;
    EquationSolved(op, id, rep(Base()), ScalarL.L, r, h, a, s);
    assert Verifies(f, msg, sig, key, A, R, rep, op, id);
    AcceptsExactly(f, msg, sig, key, A, rep, op, id);
  }

  lemma SameName<G(!new)>(q: Ext, r: Ext, rep: Ext -> G, d: int, m: int)
    requires Proper(q, d, m) && Proper(r, d, m) && rep(q) == rep(r) && Names(rep, q, r, d, m)
    ensures !Cong(q.Z, 0, m) && !Cong(r.Z, 0, m) && SamePoint(q, r, m)
  {
    hide OnCurve, SamePoint, Cong;
  }
}
