/**
 * The double-and-add ladder of `pt_scalarmult` (include/keylight/ed25519.hpp:310-326), over
 * any operation: which multiple of the start point it holds after each bit.
 */
module Scalars {
  import opened Limbs

  /** `x >> r`. */
  function Shr(x: nat, r: nat): nat {
    if r == 0 then x else Shr(x, r - 1) / 2
  }

  function Bit(s: seq<byte>, i: nat): (b: int)
    requires |s| == 32 && i < 256
    ensures 0 <= b <= 1
  {
    Shr(s[i / 8], i % 8) % 2
  }

  /** One rung: double the point the bit selects and add the other one to it. */
  ghost function Rung<T>(add: (T, T) -> T, p: T, q: T, b: int): (T, T) {
    if b == 1 then (add(p, q), add(q, q)) else (add(p, p), add(q, p))
  }

  /** The pair the ladder holds after the bits 255 down to `i`. */
  ghost function Ladder<T>(add: (T, T) -> T, zero: T, q: T, s: seq<byte>, i: nat): (T, T)
    requires |s| == 32 && i <= 256
    decreases 256 - i
  {
    if i == 256 then (zero, q)
    else var st := Ladder(add, zero, q, s, i + 1); Rung(add, st.0, st.1, Bit(s, i))
  }

  ghost predicate Associates<G(!new)>(op: (G, G) -> G, f: G, g: G, h: G) {
    op(op(f, g), h) == op(f, op(g, h))
  }

  ghost predicate Neutral<G(!new)>(op: (G, G) -> G, id: G, g: G) {
    op(id, g) == g && op(g, id) == g
  }

  ghost predicate Monoid<G(!new)>(op: (G, G) -> G, id: G) {
    && (forall g :: Neutral(op, id, g))
    && (forall f, g, h :: Associates(op, f, g, h))
  }

  /** n-fold sum of an element. */
  ghost function Times<G(!new)>(op: (G, G) -> G, id: G, n: nat, g: G): G {
    if n == 0 then id else op(Times(op, id, n - 1, g), g)
  }

  lemma {:induction false} TimesAdd<G(!new)>(op: (G, G) -> G, id: G, m: nat, n: nat, g: G)
    requires Monoid(op, id)
    ensures op(Times(op, id, m, g), Times(op, id, n, g)) == Times(op, id, m + n, g)
  {
    if n == 0 {
      assert Neutral(op, id, Times(op, id, m, g));
    } else {
      TimesAdd(op, id, m, n - 1, g);
      assert Associates(op, Times(op, id, m, g), Times(op, id, n - 1, g), g);
    }
  }

  /** The number the bits from `i` up spell. */
  ghost function Top(s: seq<byte>, i: nat): (n: nat)
    requires |s| == 32 && i <= 256
    decreases 256 - i
  {
    if i == 256 then 0 else 2 * Top(s, i + 1) + Bit(s, i)
  }

  lemma {:induction false} TopIsValue(s: seq<byte>, k: nat)
    requires |s| == 32 && k <= 32
    ensures Top(s, 8 * k) == Val(s[k..], 256)
    decreases 32 - k
  {
    if k < 32 {
      TopIsValue(s, k + 1);
      assert s[k..][1..] == s[k + 1..];
      TopByte(s, k);
    }
  }

  lemma TopByte(s: seq<byte>, k: nat)
    requires |s| == 32 && k < 32
    ensures Top(s, 8 * k) == s[k] + 256 * Top(s, 8 * (k + 1))
  {
    assert Pow(2, 4) == 16 && Pow(2, 8) == 256;
    assert Shr(s[k], 0) == s[k];
    hide Pow, Top, Shr;
    TopBits(s, k, 0);
  }

  /** Reading a byte from its bit `r` up. */
  lemma {:induction false} TopBits(s: seq<byte>, k: nat, r: nat)
    requires |s| == 32 && k < 32 && r <= 8
    ensures Top(s, 8 * k + r) == Shr(s[k], r) + Pow(2, 8 - r) * Top(s, 8 * k + 8)
    decreases 8 - r
  {
    if r == 8 {
      ByteIsShort(s[k]);
    } else {
      TopBits(s, k, r + 1);
      var i := 8 * k + r;
      assert i / 8 == k && i % 8 == r;
      assert Top(s, i) == 2 * Top(s, i + 1) + Shr(s[k], r) % 2;
      DoubleProduct(Pow(2, 7 - r), Top(s, 8 * k + 8));
    }
  }

  lemma DoubleProduct(p: int, t: int)
    ensures 2 * (p * t) == (2 * p) * t
  {
  }

  lemma ByteIsShort(x: byte)
    ensures Shr(x, 8) == 0
  {
    assert Shr(x, 2) == Shr(x, 1) / 2 && Shr(x, 4) == Shr(x, 3) / 2;
    assert Shr(x, 6) == Shr(x, 5) / 2 && Shr(x, 8) == Shr(x, 7) / 2;
  }

  /** `rep` reads the points satisfying `on` as a monoid whose operation is `add`. */
  ghost predicate Reading<T(!new), G(!new)>(add: (T, T) -> T, zero: T, on: T -> bool,
    rep: T -> G, op: (G, G) -> G, id: G)
  {
    && Monoid(op, id) && on(zero) && rep(zero) == id
    && forall p, q :: ReadsSum(add, on, rep, op, p, q)
  }

  ghost predicate ReadsSum<T(!new), G(!new)>(add: (T, T) -> T, on: T -> bool,
    rep: T -> G, op: (G, G) -> G, p: T, q: T)
  {
    ClosedAt(add, on, p, q) && HomAt(add, on, rep, op, p, q)
  }

  ghost predicate ClosedAt<T(!new)>(add: (T, T) -> T, on: T -> bool, p: T, q: T) {
    on(p) && on(q) ==> on(add(p, q))
  }

  ghost predicate HomAt<T(!new), G(!new)>(add: (T, T) -> T, on: T -> bool,
    rep: T -> G, op: (G, G) -> G, p: T, q: T)
  {
    on(p) && on(q) ==> rep(add(p, q)) == op(rep(p), rep(q))
  }

  /** The points are [n]Q and [n+1]Q. */
  ghost predicate HoldsMultiples<T(!new), G(!new)>(st: (T, T), n: nat, g: G, on: T -> bool,
    rep: T -> G, op: (G, G) -> G, id: G)
  {
    && on(st.0) && on(st.1)
    && rep(st.0) == Times(op, id, n, g) && rep(st.1) == Times(op, id, n + 1, g)
  }

  lemma RungKeepsMultiples<T(!new), G(!new)>(add: (T, T) -> T, zero: T, on: T -> bool,
    rep: T -> G, op: (G, G) -> G, id: G, st: (T, T), n: nat, b: int, g: G)
    requires Reading(add, zero, on, rep, op, id)
    requires HoldsMultiples(st, n, g, on, rep, op, id) && 0 <= b <= 1
    ensures HoldsMultiples(Rung(add, st.0, st.1, b), 2 * n + b, g, on, rep, op, id)
  {
    assert ReadsSum(add, on, rep, op, st.0, st.1) && ReadsSum(add, on, rep, op, st.1, st.0);
    assert ReadsSum(add, on, rep, op, st.0, st.0) && ReadsSum(add, on, rep, op, st.1, st.1);
    TimesAdd(op, id, n, n, g);
    TimesAdd(op, id, n, n + 1, g);
    TimesAdd(op, id, n + 1, n, g);
    TimesAdd(op, id, n + 1, n + 1, g);
  }

  lemma {:induction false} LadderInvariant<T(!new), G(!new)>(add: (T, T) -> T, zero: T, on: T -> bool,
    rep: T -> G, op: (G, G) -> G, id: G, q: T, s: seq<byte>, i: nat)
    requires |s| == 32 && i <= 256 && on(q) && Reading(add, zero, on, rep, op, id)
    ensures HoldsMultiples(Ladder(add, zero, q, s, i), Top(s, i), rep(q), on, rep, op, id)
    decreases 256 - i
  {
    if i == 256 {
      assert Neutral(op, id, rep(q));
      assert Times(op, id, 1, rep(q)) == op(Times(op, id, 0, rep(q)), rep(q));
    } else {
      LadderInvariant(add, zero, on, rep, op, id, q, s, i + 1);
      var st := Ladder(add, zero, q, s, i + 1);
      RungKeepsMultiples(add, zero, on, rep, op, id, st, Top(s, i + 1), Bit(s, i), rep(q));
    }
  }

  /** The ladder ends at [s]Q for every 32-byte scalar. */
  lemma LadderMultiplies<T(!new), G(!new)>(add: (T, T) -> T, zero: T, on: T -> bool,
    rep: T -> G, op: (G, G) -> G, id: G, q: T, s: seq<byte>)
    requires |s| == 32 && on(q) && Reading(add, zero, on, rep, op, id)
    ensures var r := Ladder(add, zero, q, s, 0).0;
      on(r) && Val(s, 256) >= 0 && rep(r) == Times(op, id, Val(s, 256), rep(q))
  {
    LadderInvariant(add, zero, on, rep, op, id, q, s, 0);
    TopIsValue(s, 0);
    assert s[0..] == s;
  }
}
