/** Congruence modulo a positive integer, with explicit quotient witnesses. */
module Modular {

  /** The multiple of `m` a congruence is witnessed by; the trigger of `Cong`. */
  ghost function Multiple(k: int, m: int): int {
    k * m
  }

  ghost predicate Cong(x: int, y: int, m: int) {
    exists k: int :: x - y == Multiple(k, m)
  }

  lemma CongBy(x: int, y: int, k: int, m: int)
    requires x - y == k * m
    ensures Cong(x, y, m)
  {
    assert x - y == Multiple(k, m);
  }

  lemma CongRefl(x: int, m: int)
    ensures Cong(x, x, m)
  {
    CongBy(x, x, 0, m);
  }

  lemma CongSym(x: int, y: int, m: int)
    requires Cong(x, y, m)
    ensures Cong(y, x, m)
  {
    var k: int :| x - y == Multiple(k, m);
    assert (-k) * m == -(k * m);
    CongBy(y, x, -k, m);
  }

  lemma CongTrans(x: int, y: int, z: int, m: int)
    requires Cong(x, y, m) && Cong(y, z, m)
    ensures Cong(x, z, m)
  {
    var j: int :| x - y == Multiple(j, m);
    var k: int :| y - z == Multiple(k, m);
    assert (j + k) * m == j * m + k * m;
    CongBy(x, z, j + k, m);
  }

  lemma CongAdd(x: int, y: int, u: int, v: int, m: int)
    requires Cong(x, y, m) && Cong(u, v, m)
    ensures Cong(x + u, y + v, m)
  {
    var j: int :| x - y == Multiple(j, m);
    var k: int :| u - v == Multiple(k, m);
    assert (j + k) * m == j * m + k * m;
    CongBy(x + u, y + v, j + k, m);
  }

  lemma CongSub(x: int, y: int, u: int, v: int, m: int)
    requires Cong(x, y, m) && Cong(u, v, m)
    ensures Cong(x - u, y - v, m)
  {
    var j: int :| x - y == Multiple(j, m);
    var k: int :| u - v == Multiple(k, m);
    assert (j - k) * m == j * m - k * m;
    CongBy(x - u, y - v, j - k, m);
  }

  lemma CongMul(x: int, y: int, u: int, v: int, m: int)
    requires Cong(x, y, m) && Cong(u, v, m)
    ensures Cong(x * u, y * v, m)
  {
    var j: int :| x - y == Multiple(j, m);
    var k: int :| u - v == Multiple(k, m);
    calc {
      x * u - y * v;
      (x - y) * u + y * (u - v);
      (j * m) * u + y * (k * m);
      { assert (j * m) * u == (j * u) * m && y * (k * m) == (y * k) * m; }
      (j * u) * m + (y * k) * m;
      (j * u + y * k) * m;
    }
    CongBy(x * u, y * v, j * u + y * k, m);
  }

  lemma CongMod(x: int, m: int)
    requires m > 0
    ensures Cong(x % m, x, m)
  {
    assert x == (x / m) * m + x % m;
    assert (-(x / m)) * m == -((x / m) * m);
    CongBy(x % m, x, -(x / m), m);
  }

  lemma MultipleSize(k: int, m: int)
    requires m > 0
    ensures k >= 1 ==> k * m >= m
    ensures k <= -1 ==> k * m <= -m
  {
    if k >= 1 {
      assert (k - 1) * m >= 0;
    }
    if k <= -1 {
      assert (-1 - k) * m >= 0;
    }
  }

  /** Two congruent values below the modulus are the same value. */
  lemma CongUnique(x: int, y: int, m: int)
    requires m > 0 && 0 <= x < m && 0 <= y < m
    requires Cong(x, y, m)
    ensures x == y
  {
    var k: int :| x - y == Multiple(k, m);
    MultipleSize(k, m);
  }

  /** Congruence is equality of remainders. */
  lemma CongIffMod(x: int, y: int, m: int)
    requires m > 0
    ensures Cong(x, y, m) <==> x % m == y % m
  {
    CongMod(x, m);
    CongMod(y, m);
    if Cong(x, y, m) {
      CongTrans(x % m, x, y, m);
      CongSym(y % m, y, m);
      CongTrans(x % m, y, y % m, m);
      CongUnique(x % m, y % m, m);
    }
    if x % m == y % m {
      CongSym(x % m, x, m);
      CongTrans(x, x % m, y, m);
    }
  }

  /** A congruent value in range is the remainder. */
  lemma ModIs(x: int, r: int, m: int)
    requires m > 0 && 0 <= r < m && Cong(x, r, m)
    ensures x % m == r
  {
    CongIffMod(x, r, m);
    CongRefl(r, m);
    CongMod(r, m);
    CongUnique(r % m, r, m);
  }

  // Arithmetic on remainders.

  ghost function AddMod(x: int, y: int, m: int): int
    requires m > 0
  {
    (x + y) % m
  }

  ghost function SubMod(x: int, y: int, m: int): int
    requires m > 0
  {
    (x - y) % m
  }

  ghost function MulMod(x: int, y: int, m: int): int
    requires m > 0
  {
    (x * y) % m
  }

  lemma MulModCong(x: int, x': int, y: int, y': int, m: int)
    requires m > 0 && Cong(x, x', m) && Cong(y, y', m)
    ensures Cong(MulMod(x, y, m), x' * y', m)
  {
    CongMod(x * y, m);
    CongMul(x, x', y, y', m);
    CongTrans(MulMod(x, y, m), x * y, x' * y', m);
  }

  lemma AddModCong(x: int, x': int, y: int, y': int, m: int)
    requires m > 0 && Cong(x, x', m) && Cong(y, y', m)
    ensures Cong(AddMod(x, y, m), x' + y', m) && Cong(SubMod(x, y, m), x' - y', m)
  {
    CongMod(x + y, m);
    CongMod(x - y, m);
    CongAdd(x, x', y, y', m);
    CongSub(x, x', y, y', m);
    CongTrans(AddMod(x, y, m), x + y, x' + y', m);
    CongTrans(SubMod(x, y, m), x - y, x' - y', m);
  }

  lemma MulModAssoc(x: int, y: int, z: int, m: int)
    requires m > 0
    ensures MulMod(MulMod(x, y, m), z, m) == MulMod(x, MulMod(y, z, m), m)
  {
    hide Cong;
    CongMod(x * y, m);
    CongMod(y * z, m);
    CongRefl(x, m);
    CongRefl(z, m);
    CongMul(MulMod(x, y, m), x * y, z, z, m);
    CongMul(x, x, MulMod(y, z, m), y * z, m);
    CongIffMod(MulMod(x, y, m) * z, (x * y) * z, m);
    CongIffMod(x * MulMod(y, z, m), x * (y * z), m);
    Regroup(x, y, z);
  }

  lemma Regroup(x: int, y: int, z: int)
    ensures (x * y) * z == x * (y * z)
  {
  }

  lemma MulModComm(x: int, y: int, m: int)
    requires m > 0
    ensures MulMod(x, y, m) == MulMod(y, x, m)
  {
    assert x * y == y * x;
  }

  /** x^n modulo m, for a reduced x. */
  ghost function PowMod(x: int, n: nat, m: int): int
    requires m > 1
  {
    if n == 0 then 1 else MulMod(x, PowMod(x, n - 1, m), m)
  }

  lemma PowModRange(x: int, n: nat, m: int)
    requires m > 1
    ensures 0 <= PowMod(x, n, m) < m
  {
  }

  lemma PowModOne(x: int, m: int)
    requires m > 1 && 0 <= x < m
    ensures PowMod(x, 1, m) == x
  {
    assert MulMod(x, 1, m) == x;
  }

  lemma {:induction false} PowModAdd(x: int, i: nat, j: nat, m: int)
    requires m > 1
    ensures MulMod(PowMod(x, i, m), PowMod(x, j, m), m) == PowMod(x, i + j, m)
  {
    if i == 0 {
      PowModRange(x, j, m);
    } else {
      PowModAdd(x, i - 1, j, m);
      MulModAssoc(x, PowMod(x, i - 1, m), PowMod(x, j, m), m);
    }
  }
}
