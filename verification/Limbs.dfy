/** Machine words, and little-endian limb vectors as integers in a given radix. */
module Limbs {

  // Arithmetic on these subset types is integer arithmetic; every assignment to a
  // variable or array element of the type is an obligation that nothing overflowed.
  type byte = x: int | 0 <= x < 0x100
  type u32 = x: int | 0 <= x < 0x1_0000_0000
  type u64 = x: int | 0 <= x < 0x1_0000_0000_0000_0000
  type i64 = x: int | -0x8000_0000_0000_0000 <= x < 0x8000_0000_0000_0000

  function Zeros(n: nat): (z: seq<byte>)
    ensures |z| == n
  {
    seq(n, _ => 0)
  }

  ghost function Pow(b: int, n: nat): int {
    if n == 0 then 1 else b * Pow(b, n - 1)
  }

  /** The integer a limb vector denotes: the sum of `s[i] * b^i`. */
  ghost function Val(s: seq<int>, b: int): int {
    if |s| == 0 then 0 else s[0] + b * Val(s[1..], b)
  }

  /** Every limb lies in `[lo, hi]`. */
  ghost predicate Within(s: seq<int>, lo: int, hi: int) {
    forall k :: 0 <= k < |s| ==> lo <= s[k] <= hi
  }

  lemma {:induction false} PowPositive(b: int, n: nat)
    requires b > 0
    ensures Pow(b, n) > 0
  {
    if n > 0 {
      PowPositive(b, n - 1);
      assert b * Pow(b, n - 1) > 0;
    }
  }

  lemma {:induction false} PowAdd(b: int, m: nat, n: nat)
    ensures Pow(b, m + n) == Pow(b, m) * Pow(b, n)
  {
    if m > 0 {
      PowAdd(b, m - 1, n);
      assert b * (Pow(b, m - 1) * Pow(b, n)) == (b * Pow(b, m - 1)) * Pow(b, n);
    }
  }

  lemma {:induction false} ValConcat(s: seq<int>, t: seq<int>, b: int)
    ensures Val(s + t, b) == Val(s, b) + Pow(b, |s|) * Val(t, b)
  {
    if |s| == 0 {
      assert s + t == t;
    } else {
      assert (s + t)[1..] == s[1..] + t;
      ValConcat(s[1..], t, b);
      calc {
        Val(s + t, b);
        s[0] + b * (Val(s[1..], b) + Pow(b, |s| - 1) * Val(t, b));
        s[0] + b * Val(s[1..], b) + b * (Pow(b, |s| - 1) * Val(t, b));
        { assert b * (Pow(b, |s| - 1) * Val(t, b)) == (b * Pow(b, |s| - 1)) * Val(t, b); }
        Val(s, b) + Pow(b, |s|) * Val(t, b);
      }
    }
  }

  lemma ValAppend(s: seq<int>, x: int, b: int)
    ensures Val(s + [x], b) == Val(s, b) + Pow(b, |s|) * x
  {
    ValConcat(s, [x], b);
    assert Val([x], b) == x + b * Val([], b);
  }

  /** Dropping the last limb of a prefix. */
  lemma ValPrefix(s: seq<int>, k: nat, b: int)
    requires k < |s|
    ensures Val(s[..k + 1], b) == Val(s[..k], b) + Pow(b, k) * s[k]
  {
    assert s[..k + 1] == s[..k] + [s[k]];
    ValAppend(s[..k], s[k], b);
  }

  lemma {:induction false} ValUpdate(s: seq<int>, k: nat, v: int, b: int)
    requires k < |s|
    ensures Val(s[k := v], b) == Val(s, b) + (v - s[k]) * Pow(b, k)
  {
    var t := s[k := v];
    if k == 0 {
      assert t[1..] == s[1..];
    } else {
      assert t[1..] == s[1..][k - 1 := v];
      ValUpdate(s[1..], k - 1, v, b);
      ScaleSum(b, Val(s[1..], b), v - s[k], Pow(b, k - 1));
    }
  }

  lemma ScaleSum(b: int, u: int, d: int, p: int)
    ensures b * (u + d * p) == b * u + d * (b * p)
  {
    assert b * (u + d * p) == b * u + b * (d * p);
    assert b * (d * p) == d * (b * p);
  }

  /**
   * Take `k` units of the next position out of limb `i`: they arrive in limb `i + 1`, or,
   * off the top, as `w * k` in limb 0.
   */
  ghost function Move(s: seq<int>, i: nat, k: int, b: int, w: int): (t: seq<int>)
    requires |s| > 1 && i < |s|
    ensures |t| == |s|
  {
    var u := s[i := s[i] - b * k];
    if i + 1 < |s| then u[i + 1 := u[i + 1] + k] else u[0 := u[0] + w * k]
  }

  lemma MoveInner(s: seq<int>, i: nat, k: int, b: int, w: int)
    requires i + 1 < |s|
    ensures Val(Move(s, i, k, b, w), b) == Val(s, b)
  {
    var u := s[i := s[i] - b * k];
    ValUpdate(s, i, s[i] - b * k, b);
    ValUpdate(u, i + 1, u[i + 1] + k, b);
    CarryCancels(k, Pow(b, i), b, s[i], s[i + 1]);
    assert Pow(b, i + 1) == b * Pow(b, i);
  }

  lemma CarryCancels(k: int, p: int, b: int, x: int, y: int)
    ensures (x - b * k - x) * p + (y + k - y) * (b * p) == 0
  {
    assert -(b * k) * p == -(k * (b * p));
  }

  lemma MoveTop(s: seq<int>, k: int, b: int, w: int)
    requires |s| > 1
    ensures Val(Move(s, |s| - 1, k, b, w), b) == Val(s, b) + (w - Pow(b, |s|)) * k
  {
    var n := |s| - 1;
    var u := s[n := s[n] - b * k];
    ValUpdate(s, n, s[n] - b * k, b);
    ValUpdate(u, 0, u[0] + w * k, b);
    WrapCancels(k, Pow(b, n), b, s[n], s[0], w);
    assert Pow(b, |s|) == b * Pow(b, n);
  }

  lemma WrapCancels(k: int, p: int, b: int, x: int, y: int, w: int)
    ensures (x - b * k - x) * p + (y + w * k - y) * 1 == (w - b * p) * k
  {
    assert -(b * k) * p == -((b * p) * k);
    assert (w - b * p) * k == w * k - (b * p) * k;
  }

  lemma {:induction false} ValZeros(s: seq<int>, b: int)
    requires Within(s, 0, 0)
    ensures Val(s, b) == 0
  {
    if |s| > 0 {
      ValZeros(s[1..], b);
    }
  }

  /** Digits below the radix denote a value below the power of the length. */
  lemma {:induction false} ValBound(s: seq<int>, b: int)
    requires b > 1 && Within(s, 0, b - 1)
    ensures 0 <= Val(s, b) < Pow(b, |s|)
  {
    if |s| > 0 {
      ValBound(s[1..], b);
      BoundStep(s[0], Val(s[1..], b), b, Pow(b, |s| - 1));
    }
  }

  lemma BoundStep(x: int, v: int, b: int, p: int)
    requires 0 <= x < b && 0 <= v < p
    ensures 0 <= x + b * v < b * p
  {
    NonNegative(b, v);
    NonNegative(b, p - 1 - v);
    Remaining(b, p, v);
  }

  lemma NonNegative(x: int, y: int)
    requires x >= 0 && y >= 0
    ensures x * y >= 0
  {
  }

  lemma Remaining(b: int, p: int, v: int)
    ensures b * (p - 1 - v) == b * p - b - b * v
  {
  }

  /** Digits below the radix are determined by the value. */
  lemma {:induction false} ValInjective(s: seq<int>, t: seq<int>, b: int)
    requires b > 1 && |s| == |t| && Within(s, 0, b - 1) && Within(t, 0, b - 1)
    requires Val(s, b) == Val(t, b)
    ensures s == t
  {
    if |s| > 0 {
      var u, v := Val(s[1..], b), Val(t[1..], b);
      HeadDigit(s[0], u, t[0], v, b);
      ValInjective(s[1..], t[1..], b);
      assert s == [s[0]] + s[1..] && t == [t[0]] + t[1..];
    }
  }

  lemma HeadDigit(x: int, u: int, y: int, v: int, b: int)
    requires b > 1 && 0 <= x < b && 0 <= y < b
    requires x + b * u == y + b * v
    ensures x == y && u == v
  {
    assert b * (u - v) == y - x;
    assert u - v >= 1 ==> b * (u - v) >= b;
    assert u - v <= -1 ==> b * (u - v) <= -b;
  }

  /** Adding `x * t[j]` into limb `i + j` extends a row of the schoolbook product by a limb. */
  lemma RowStep(acc: seq<int>, t: seq<int>, i: nat, j: nat, x: int, v: int, b: int)
    requires j < |t| && i + j < |acc|
    requires Val(acc, b) == v + x * Pow(b, i) * Val(t[..j], b)
    ensures Val(acc[i + j := acc[i + j] + x * t[j]], b)
         == v + x * Pow(b, i) * Val(t[..j + 1], b)
  {
    ValUpdate(acc, i + j, acc[i + j] + x * t[j], b);
    ValPrefix(t, j, b);
    PowAdd(b, i, j);
    RowProduct(x, t[j], Pow(b, i), Pow(b, j), Val(t[..j], b));
  }

  lemma RowProduct(x: int, y: int, p: int, q: int, v: int)
    ensures (x * y) * (p * q) + x * p * v == x * p * (v + q * y)
  {
    assert x * p * (v + q * y) == x * p * v + x * p * (q * y);
    assert x * p * (q * y) == (x * y) * (p * q);
  }

  /** A finished row extends the product by one limb of the left factor. */
  lemma RowDone(s: seq<int>, i: nat, w: int, b: int)
    requires i < |s|
    ensures Val(s[..i], b) * w + s[i] * Pow(b, i) * w == Val(s[..i + 1], b) * w
  {
    ValPrefix(s, i, b);
    assert (Val(s[..i], b) + Pow(b, i) * s[i]) * w == Val(s[..i], b) * w + s[i] * Pow(b, i) * w;
  }

  lemma ProductBound(x: int, y: int, m: int)
    requires -m <= x <= m && -m <= y <= m
    ensures -(m * m) <= x * y <= m * m
  {
    assert (m - x) * (m + y) >= 0 && (m + x) * (m - y) >= 0;
    assert (m - x) * (m - y) >= 0 && (m + x) * (m + y) >= 0;
    assert (m - x) * (m + y) == m * m + m * y - x * m - x * y;
    assert (m + x) * (m - y) == m * m - m * y + x * m - x * y;
    assert (m - x) * (m - y) == m * m - m * y - x * m + x * y;
    assert (m + x) * (m + y) == m * m + m * y + x * m + x * y;
  }

  lemma FoldStep(t: seq<int>, h: seq<int>, i: nat, w: int, v: int, b: int)
    requires i < |h| && i < |t|
    requires Val(t, b) == v + w * Val(h[..i], b)
    ensures Val(t[i := t[i] + w * h[i]], b) == v + w * Val(h[..i + 1], b)
  {
    ValUpdate(t, i, t[i] + w * h[i], b);
    ValPrefix(h, i, b);
    FoldTerm(w, Val(h[..i], b), h[i], Pow(b, i), t[i]);
  }

  lemma FoldTerm(w: int, u: int, x: int, p: int, y: int)
    ensures (y + w * x - y) * p + w * u == w * (u + p * x)
  {
    assert (w * x) * p == w * (p * x);
  }

  /** The top limb decides the sign of a value whose lower limbs are digits. */
  lemma TopLimbSign(s: seq<int>, b: int)
    requires |s| > 0 && b > 1 && Within(s[..|s| - 1], 0, b - 1)
    ensures s[|s| - 1] < 0 <==> Val(s, b) < 0
  {
    var n := |s| - 1;
    ValPrefix(s, n, b);
    assert s[..n + 1] == s;
    ValBound(s[..n], b);
    SignOf(Val(s[..n], b), Pow(b, n), s[n]);
  }

  lemma SignOf(low: int, p: int, x: int)
    requires 0 <= low < p
    ensures x < 0 <==> low + p * x < 0
  {
    if x < 0 {
      assert p * (-1 - x) >= 0;
      assert p * (-1 - x) == -p - p * x;
    } else {
      assert p * x >= 0;
    }
  }

  /** Each limb of radix `b * b` written as two digits of radix `b`. */
  lemma {:induction false} SplitLimbs(o: seq<int>, t: seq<int>, b: int)
    requires |o| == 2 * |t|
    requires forall k :: 0 <= k < |t| ==> t[k] == o[2 * k] + b * o[2 * k + 1]
    ensures Val(o, b) == Val(t, b * b)
  {
    if |t| > 0 {
      assert t[0] == o[2 * 0] + b * o[2 * 0 + 1];
      forall k | 0 <= k < |t[1..]|
        ensures t[1..][k] == o[2..][2 * k] + b * o[2..][2 * k + 1]
      {
        assert t[k + 1] == o[2 * (k + 1)] + b * o[2 * (k + 1) + 1];
      }
      SplitLimbs(o[2..], t[1..], b);
      assert o[1..][1..] == o[2..];
      TwoDigits(o[0], o[1], b, Val(o[2..], b));
    }
  }

  lemma TwoDigits(x: int, y: int, b: int, v: int)
    ensures x + b * (y + b * v) == (x + b * y) + (b * b) * v
  {
    assert b * (y + b * v) == b * y + b * (b * v);
  }

  lemma Horner4(s: seq<int>, b: int)
    requires |s| >= 4
    ensures Val(s, b) == s[0] + b * Val(s[1..], b)
    ensures Val(s[1..], b) == s[1] + b * Val(s[2..], b)
    ensures Val(s[2..], b) == s[2] + b * Val(s[3..], b)
    ensures Val(s[3..], b) == s[3] + b * Val(s[4..], b)
  {
    assert s[1..][1..] == s[2..] && s[2..][1..] == s[3..] && s[3..][1..] == s[4..];
  }

  ghost function AddLimbs(s: seq<int>, t: seq<int>): (u: seq<int>)
    requires |s| == |t|
    ensures |u| == |s| && forall k :: 0 <= k < |s| ==> u[k] == s[k] + t[k]
  {
    seq(|s|, k requires 0 <= k < |s| => s[k] + t[k])
  }

  ghost function SubLimbs(s: seq<int>, t: seq<int>): (u: seq<int>)
    requires |s| == |t|
    ensures |u| == |s| && forall k :: 0 <= k < |s| ==> u[k] == s[k] - t[k]
  {
    seq(|s|, k requires 0 <= k < |s| => s[k] - t[k])
  }

  lemma {:induction false} AddLimbsValue(s: seq<int>, t: seq<int>, b: int)
    requires |s| == |t|
    ensures Val(AddLimbs(s, t), b) == Val(s, b) + Val(t, b)
    ensures Val(SubLimbs(s, t), b) == Val(s, b) - Val(t, b)
  {
    if |s| > 0 {
      assert AddLimbs(s, t)[1..] == AddLimbs(s[1..], t[1..]);
      assert SubLimbs(s, t)[1..] == SubLimbs(s[1..], t[1..]);
      AddLimbsValue(s[1..], t[1..], b);
      Distribute(b, Val(s[1..], b), Val(t[1..], b));
    }
  }

  lemma Distribute(b: int, u: int, v: int)
    ensures b * (u + v) == b * u + b * v && b * (u - v) == b * u - b * v
  {
  }

  /** Sixteen bytes as four 32-bit words. */
  lemma FourWords(s: seq<int>)
    requires |s| >= 16 && Within(s[16..], 0, 0)
    ensures Val(s, 256)
      == (s[0] + 0x100 * s[1] + 0x1_0000 * s[2] + 0x100_0000 * s[3])
       + 0x1_0000_0000 * (s[4] + 0x100 * s[5] + 0x1_0000 * s[6] + 0x100_0000 * s[7])
       + 0x1_00000000_00000000 * (s[8] + 0x100 * s[9] + 0x1_0000 * s[10] + 0x100_0000 * s[11])
       + 0x1_00000000_00000000_00000000 * (s[12] + 0x100 * s[13] + 0x1_0000 * s[14] + 0x100_0000 * s[15])
  {
    Horner4(s, 256);
    Horner4(s[4..], 256);
    Horner4(s[8..], 256);
    Horner4(s[12..], 256);
    assert s[4..][4..] == s[8..] && s[8..][4..] == s[12..] && s[12..][4..] == s[16..];
    ValZeros(s[16..], 256);
  }

  lemma QuotRem(v: int, d: int, q: int, r: int)
    requires d > 1 && 0 <= r < d && v == r + d * q
    ensures v / d == q && v % d == r
  {
    assert v == v % d + d * (v / d);
    HeadDigit(v % d, v / d, r, q, d);
  }

  /** `n` bytes of `v`, least significant first. */
  function Bytes(v: nat, n: nat): (s: seq<byte>)
    ensures |s| == n
  {
    if n == 0 then [] else [v % 0x100] + Bytes(v / 0x100, n - 1)
  }

  lemma {:induction false} BytesValue(v: nat, n: nat)
    requires v < Pow(256, n)
    ensures Val(Bytes(v, n), 256) == v
  {
    if n > 0 {
      assert v / 0x100 < Pow(256, n - 1);
      BytesValue(v / 0x100, n - 1);
      assert Bytes(v, n)[1..] == Bytes(v / 0x100, n - 1);
    }
  }

  lemma BytesUnique(s: seq<byte>, v: int)
    requires Val(s, 256) == v
    ensures v >= 0 && s == Bytes(v, |s|)
  {
    ValBound(s, 256);
    BytesValue(v, |s|);
    ValInjective(s, Bytes(v, |s|), 256);
  }
}
