/**
 * Arithmetic modulo p = 2^255 - 19 on sixteen signed 16-bit limbs held in 64-bit words
 * (include/keylight/ed25519.hpp). An element is the value of its limbs modulo p; the limbs
 * themselves are only bounded, never canonical, until `GfPack`.
 */
module Field25519 {
  import opened Limbs
  import opened Modular

  const P: int := 0x7fffffff_ffffffff_ffffffff_ffffffff_ffffffff_ffffffff_ffffffff_ffffffed
  const B: int := 0x10000

  // The largest limb a carry pass accepts, and the largest a multiplication accepts.
  const WIDE: int := 0x4000_0000_0000_0000
  const LOOSE: int := 0x400_0000

  ghost predicate Loose(s: seq<int>) {
    |s| == 16 && Within(s, -LOOSE, LOOSE)
  }

  ghost predicate Tight(s: seq<int>) {
    |s| == 16 && -38 <= s[0] <= 0xffff + 38 && Within(s[1..], 0, 0xffff)
  }

  ghost predicate Normal(s: seq<int>) {
    |s| == 16 && Within(s, 0, 0xffff)
  }

  /** The field element a limb vector stands for. */
  ghost function Elem(s: seq<int>): int {
    Val(s, B) % P
  }

  ghost function FAdd(x: int, y: int): int { AddMod(x, y, P) }

  ghost function FSub(x: int, y: int): int { SubMod(x, y, P) }

  ghost function FMul(x: int, y: int): int { MulMod(x, y, P) }

  // ---------------------------------------------------------------- carries

  /** One iteration of `gf_car`: limb `i` keeps its low 16 bits, the rest moves up. */
  ghost function CarStep(s: seq<int>, i: nat): (t: seq<int>)
    requires |s| == 16 && i < 16
    ensures |t| == 16
  {
    Move(s, i, s[i] / B, B, 38)
  }

  ghost function CarUpTo(s: seq<int>, n: nat): (t: seq<int>)
    requires |s| == 16 && n <= 16
    ensures |t| == 16
  {
    if n == 0 then s else CarStep(CarUpTo(s, n - 1), n - 1)
  }

  ghost function Car(s: seq<int>): (t: seq<int>)
    requires |s| == 16
    ensures |t| == 16
  {
    CarUpTo(s, 16)
  }

  lemma PowB16()
    ensures Pow(B, 16) == 2 * P + 38
  {
    PowAdd(B, 8, 8);
    PowAdd(B, 4, 4);
    assert Pow(B, 4) == 0x1_0000_0000_0000_0000;
  }

  lemma MoveValue(s: seq<int>, i: nat, k: int)
    requires |s| == 16 && i < 16
    ensures Cong(Val(Move(s, i, k, B, 38), B), Val(s, B), P)
  {
    if i < 15 {
      MoveInner(s, i, k, B, 38);
      CongRefl(Val(s, B), P);
    } else {
      MoveTop(s, k, B, 38);
      PowB16();
      FoldCong(Val(Move(s, i, k, B, 38), B), Val(s, B), k, Pow(B, 16), P);
    }
  }

  /** Folding `k` units of weight `2m + 38` down to weight 38 is invisible modulo `m`. */
  lemma FoldCong(x: int, y: int, k: int, q: int, m: int)
    requires q == 2 * m + 38 && x == y + (38 - q) * k
    ensures Cong(x, y, m)
  {
    FoldProduct(k, m);
    CongBy(x, y, -2 * k, m);
  }

  lemma FoldProduct(k: int, m: int)
    ensures (38 - (2 * m + 38)) * k == (-2 * k) * m
  {
    assert 38 - (2 * m + 38) == -2 * m;
    assert (-2 * m) * k == (-2 * k) * m;
  }

  lemma {:induction false} CarUpToValue(s: seq<int>, n: nat)
    requires |s| == 16 && n <= 16
    ensures Cong(Val(CarUpTo(s, n), B), Val(s, B), P)
  {
    if n == 0 {
      CongRefl(Val(s, B), P);
    } else {
      CarUpToValue(s, n - 1);
      MoveValue(CarUpTo(s, n - 1), n - 1, CarUpTo(s, n - 1)[n - 1] / B);
      CongTrans(Val(CarUpTo(s, n), B), Val(CarUpTo(s, n - 1), B), Val(s, B), P);
    }
  }

  /** A carry pass changes the limbs but not the field element. */
  lemma CarKeepsElem(s: seq<int>)
    requires |s| == 16
    ensures Elem(Car(s)) == Elem(s)
  {
    CarUpToValue(s, 16);
    CongIffMod(Val(Car(s), B), Val(s, B), P);
  }

  /**
   * After `n` steps the limbs below `n` are 16-bit, limb `n` has absorbed a carry of at
   * most `cap(n)`, and the limbs above are untouched.
   */
  ghost predicate Carried(s: seq<int>, n: nat, cap: nat -> nat)
    requires |s| == 16 && n < 16
  {
    var t := CarUpTo(s, n);
    && (forall k :: 0 <= k < n ==> 0 <= t[k] <= 0xffff)
    && s[n] - cap(n) <= t[n] <= s[n] + cap(n)
    && (forall k :: n < k < 16 ==> t[k] == s[k])
  }

  lemma {:induction false} CarriedUpTo(s: seq<int>, n: nat, cap: nat -> nat)
    requires |s| == 16 && n < 16
    requires forall k :: 0 <= k < 15 ==> -(cap(k + 1) as int) * B <= s[k] - cap(k)
    requires forall k :: 0 <= k < 15 ==> s[k] + cap(k) < (cap(k + 1) + 1) * B
    ensures Carried(s, n, cap)
  {
    if n > 0 {
      CarriedUpTo(s, n - 1, cap);
      var t := CarUpTo(s, n - 1);
      var k := t[n - 1] / B;
      assert CarUpTo(s, n) == CarStep(t, n - 1);
      assert -(cap(n - 1 + 1) as int) * B <= t[n - 1] < (cap(n - 1 + 1) + 1) * B;
    }
  }

  /** From limbs that fill a word, one pass leaves sixteen bits everywhere but limb 0. */
  lemma CarWide(s: seq<int>)
    requires |s| == 16 && Within(s, -WIDE, WIDE)
    ensures Within(Car(s)[1..], 0, 0xffff)
    ensures -0x20_0000_0000_0000 <= Car(s)[0] <= 0x20_0000_0000_0000
  {
    CarriedUpTo(s, 15, WideCap);
    var t := CarUpTo(s, 15);
    assert Car(s) == Move(t, 15, t[15] / B, B, 38);
  }

  ghost const WideCap: nat -> nat := n => if n == 0 then 0 else 0x8000_0000_0000

  /** From there, a second pass confines limb 0 to at most one wrapped carry. */
  lemma CarMid(s: seq<int>)
    requires |s| == 16 && Within(s[1..], 0, 0xffff)
    requires -0x20_0000_0000_0000 <= s[0] <= 0x20_0000_0000_0000
    ensures Tight(Car(s))
  {
    assert forall k :: 1 <= k < 16 ==> s[k] == s[1..][k - 1];
    CarriedUpTo(s, 15, MidCap);
    var t := CarUpTo(s, 15);
    assert Car(s) == Move(t, 15, t[15] / B, B, 38);
  }

  ghost const MidCap: nat -> nat := n =>
    if n == 0 then 0 else if n == 1 then 0x40_0000_0000 else if n == 2 then 0x80_0000
    else if n == 3 then 0x100 else 1

  /** A third pass normalises: a carry out of the top only happens when limb 0 has room. */
  lemma CarTight(s: seq<int>)
    requires Tight(s)
    ensures Normal(Car(s))
  {
    CarTightUpTo(s, 15);
    var t := CarUpTo(s, 15);
    assert Car(s) == Move(t, 15, t[15] / B, B, 38);
  }

  lemma {:induction false} CarTightUpTo(s: seq<int>, n: nat)
    requires Tight(s) && 1 <= n < 16
    ensures var t := CarUpTo(s, n);
      && Within(t[..n], 0, 0xffff) && (forall k :: n < k < 16 ==> t[k] == s[k])
      && -1 <= t[n] - s[n] <= 1
      && (t[n] - s[n] == 1 ==> t[0] <= 37) && (t[n] - s[n] == -1 ==> t[0] >= 0x10000 - 38)
  {
    assert forall k :: 1 <= k < 16 ==> s[k] == s[1..][k - 1];
    if n == 1 {
      assert CarUpTo(s, 0) == s;
      assert CarUpTo(s, 1) == Move(s, 0, s[0] / B, B, 38);
    } else {
      CarTightUpTo(s, n - 1);
      var t := CarUpTo(s, n - 1);
      assert t[0] == t[..n - 1][0];
      assert CarUpTo(s, n) == Move(t, n - 1, t[n - 1] / B, B, 38);
    }
  }

  /** `gf_car`: every word operation stays inside a signed 64-bit integer. */
  method GfCar(o: array<i64>)
    requires o.Length == 16 && Within(o[..], -WIDE, WIDE)
    modifies o
    ensures o[..] == Car(old(o[..]))
  {
    ghost var s := o[..];
    for i := 0 to 16
      invariant o[..] == CarUpTo(s, i)
    {
      CarriedUpTo(s, i, WideCap);
      ghost var t := o[..];
      assert o[i] == t[i];
      o[i] := o[i] + 0x10000;
      var c: i64 := o[i] / 0x10000;
      assert c - 1 == t[i] / B;
      var next := if i < 15 then i + 1 else 0;
      var wrap: i64 := if i == 15 then 37 * (c - 1) else 0;
      assert o[next] == t[next];
      o[next] := o[next] + (c - 1 + wrap);
      var shed: i64 := c * 65536;
      o[i] := o[i] - shed;
      assert o[..] == Move(t, i, c - 1, B, 38);
    }
  }

  // ---------------------------------------------------------------- multiplication

  /** Column sums after `i` full rows of the product and `j` limbs of the next. */
  ghost predicate Columns(t: seq<int>, i: nat, j: nat) {
    |t| == 31 && forall k :: 0 <= k < 31 ==>
      var rows := if i <= k < i + j then i + 1 else i;
      -(rows * (LOOSE * LOOSE)) <= t[k] <= rows * (LOOSE * LOOSE)
  }

  /** The double loop of `gf_mul`: the 31 column sums of the schoolbook product. */
  method Convolve(a: array<i64>, b: array<i64>) returns (t: array<i64>)
    requires a.Length == 16 && b.Length == 16 && Loose(a[..]) && Loose(b[..])
    ensures fresh(t) && Columns(t[..], 16, 0)
    ensures Val(t[..], B) == Val(a[..], B) * Val(b[..], B)
  {
    t := new i64[31](_ => 0);
    ValZeros(t[..], B);
    hide Pow;
    for i := 0 to 16
      invariant Columns(t[..], i, 0)
      invariant Val(t[..], B) == Val(a[..i], B) * Val(b[..], B)
    {
      ghost var v := Val(t[..], B);
      for j := 0 to 16
        invariant Columns(t[..], i, j)
        invariant Val(t[..], B) == v + a[i] * Pow(B, i) * Val(b[..][..j], B)
      {
        ProductBound(a[i], b[j], LOOSE);
        var prod: i64 := a[i] * b[j];
        RowStep(t[..], b[..], i, j, a[i], v, B);
        ghost var u := t[..];
        t[i + j] := t[i + j] + prod;
        assert t[..] == u[i + j := u[i + j] + a[i] * b[..][j]];
      }
      assert b[..][..16] == b[..];
      assert a[..i] == a[..][..i] && a[..i + 1] == a[..][..i + 1];
      RowDone(a[..], i, Val(b[..], B), B);
    }
    assert a[..16] == a[..];
  }

  /** The reduction loop of `gf_mul`: 2^256 is 38 modulo p, so column `i + 16` folds onto `i`. */
  method FoldColumns(t: array<i64>)
    requires t.Length == 31 && Columns(t[..], 16, 0)
    modifies t
    ensures Within(t[..16], -WIDE, WIDE)
    ensures Cong(Val(t[..16], B), old(Val(t[..], B)), P)
  {
    ghost var s := t[..];
    ghost var h := s[16..];
    assert h[..0] == [];
    for i := 0 to 15
      invariant forall k :: i <= k < 31 ==> t[k] == s[k]
      invariant forall k :: 0 <= k < i ==> t[k] == s[k] + 38 * h[k]
      invariant Val(t[..], B) == Val(s, B) + 38 * Val(h[..i], B)
    {
      FoldStep(t[..], h, i, 38, Val(s, B), B);
      ghost var u := t[..];
      var high: i64 := 38 * t[i + 16];
      t[i] := t[i] + high;
      assert t[..] == u[i := u[i] + 38 * h[i]];
    }
    assert h[..15] == h;
    assert t[..][..16] == t[..16] && t[..][16..] == h;
    FoldedValue(t[..], s);
  }

  lemma FoldedValue(t: seq<int>, s: seq<int>)
    requires |t| == |s| == 31 && t[16..] == s[16..]
    requires Val(t, B) == Val(s, B) + 38 * Val(s[16..], B)
    ensures Cong(Val(t[..16], B), Val(s, B), P)
  {
    assert t == t[..16] + s[16..];
    ValConcat(t[..16], s[16..], B);
    PowB16();
    FoldCong(Val(t[..16], B), Val(s, B), Val(s[16..], B), Pow(B, 16), P);
  }

  /** `gf_mul`, for any aliasing of `o` with `a` and `b`. */
  method GfMul(o: array<i64>, a: array<i64>, b: array<i64>)
    requires o.Length == 16 && a.Length == 16 && b.Length == 16
    requires Loose(a[..]) && Loose(b[..])
    modifies o
    ensures Tight(o[..])
    ensures Elem(o[..]) == FMul(old(Elem(a[..])), old(Elem(b[..])))
  {
    ghost var x, y := Val(a[..], B), Val(b[..], B);
    var t := Convolve(a, b);
    FoldColumns(t);
    ghost var s := t[..16];
    for i := 0 to 16
      invariant t[..16] == s
      invariant forall k :: 0 <= k < i ==> o[k] == s[k]
    {
      o[i] := t[i];
    }
    assert o[..] == s;
    CarWide(s);
    GfCar(o);
    CarMid(o[..]);
    GfCar(o);
    CarKeepsElem(s);
    CarKeepsElem(Car(s));
    ElemProduct(Val(s, B), x, y);
  }

  lemma ElemProduct(v: int, x: int, y: int)
    requires Cong(v, x * y, P)
    ensures v % P == ((x % P) * (y % P)) % P
  {
    CongIffMod(v, x * y, P);
    CongMod(x, P);
    CongMod(y, P);
    CongMul(x % P, x, y % P, y, P);
    CongIffMod((x % P) * (y % P), x * y, P);
  }

  /** `gf_sq`. */
  method GfSq(o: array<i64>, a: array<i64>)
    requires o.Length == 16 && a.Length == 16 && Loose(a[..])
    modifies o
    ensures Tight(o[..])
    ensures Elem(o[..]) == FMul(old(Elem(a[..])), old(Elem(a[..])))
  {
    GfMul(o, a, a);
  }

  // ---------------------------------------------------------------- addition

  lemma AddLimbsElem(s: seq<int>, t: seq<int>)
    requires |s| == |t|
    ensures Elem(AddLimbs(s, t)) == FAdd(Elem(s), Elem(t))
    ensures Elem(SubLimbs(s, t)) == FSub(Elem(s), Elem(t))
  {
    var x, y := Val(s, B), Val(t, B);
    AddLimbsValue(s, t, B);
    CongMod(x, P);
    CongMod(y, P);
    CongAdd(x % P, x, y % P, y, P);
    CongSub(x % P, x, y % P, y, P);
    CongIffMod(x % P + y % P, x + y, P);
    CongIffMod(x % P - y % P, x - y, P);
  }

  /** `gf_add`, for any aliasing. */
  method GfAdd(o: array<i64>, a: array<i64>, b: array<i64>)
    requires o.Length == 16 && a.Length == 16 && b.Length == 16
    requires Loose(a[..]) && Loose(b[..])
    modifies o
    ensures o[..] == AddLimbs(old(a[..]), old(b[..]))
    ensures Elem(o[..]) == FAdd(old(Elem(a[..])), old(Elem(b[..])))
  {
    ghost var s, t := a[..], b[..];
    for i := 0 to 16
      invariant forall k :: 0 <= k < i ==> o[k] == s[k] + t[k]
      invariant forall k :: i <= k < 16 ==> a[k] == s[k] && b[k] == t[k]
    {
      o[i] := a[i] + b[i];
    }
    assert o[..] == AddLimbs(s, t);
    AddLimbsElem(s, t);
  }

  /** `gf_sub`, for any aliasing. */
  method GfSub(o: array<i64>, a: array<i64>, b: array<i64>)
    requires o.Length == 16 && a.Length == 16 && b.Length == 16
    requires Loose(a[..]) && Loose(b[..])
    modifies o
    ensures o[..] == SubLimbs(old(a[..]), old(b[..]))
    ensures Elem(o[..]) == FSub(old(Elem(a[..])), old(Elem(b[..])))
  {
    ghost var s, t := a[..], b[..];
    for i := 0 to 16
      invariant forall k :: 0 <= k < i ==> o[k] == s[k] - t[k]
      invariant forall k :: i <= k < 16 ==> a[k] == s[k] && b[k] == t[k]
    {
      o[i] := a[i] - b[i];
    }
    assert o[..] == SubLimbs(s, t);
    AddLimbsElem(s, t);
  }

  // ---------------------------------------------------------------- canonical bytes

  /** The limbs of p. */
  ghost function PLimbs(): (s: seq<int>)
    ensures |s| == 16
  {
    seq(16, i => if i == 0 then 0xffed else if i == 15 then 0x7fff else 0xffff)
  }

  /** p + 2^255 + 18 is all ones: sixteen full limbs. */
  lemma PLimbsValue()
    ensures Val(PLimbs(), B) == P
  {
    var ones := seq(16, _ => B - 1);
    var u := ones[0 := 0xffed];
    assert u[15 := 0x7fff] == PLimbs();
    AllOnes(16, B);
    ValUpdate(ones, 0, 0xffed, B);
    ValUpdate(u, 15, 0x7fff, B);
    HalfTop(Pow(B, 15));
  }

  lemma HalfTop(p: int)
    requires p == Pow(B, 15)
    ensures Pow(B, 16) - 1 + (0xffed - 0xffff) + (0x7fff - 0xffff) * p == P
  {
    PowB16();
    assert Pow(B, 16) == B * p;
  }

  lemma {:induction false} AllOnes(n: nat, b: int)
    ensures Val(seq(n, _ => b - 1), b) == Pow(b, n) - 1
  {
    if n > 0 {
      var s := seq(n, _ => b - 1);
      assert s[1..] == seq(n - 1, _ => b - 1);
      AllOnes(n - 1, b);
      assert b * (Pow(b, n - 1) - 1) == b * Pow(b, n - 1) - b;
    }
  }

  /** The 16-bit borrow out of a limb in `[-2^16, 2^16)`: its bit 16. */
  function Borrow(x: int): (b: int)
    ensures -0x10000 <= x < 0x10000 ==> b == if x < 0 then 1 else 0
  {
    (x / 0x10000) % 2
  }

  /**
   * `m` holds the lowest `i` limbs of `t - p`: digits, except that the last one keeps its
   * sign until the next limb takes the borrow.
   */
  ghost predicate Subtracted(m: seq<int>, t: seq<int>, i: nat) {
    && |m| == |t| == 16 && 1 <= i <= 16
    && (forall k :: 0 <= k < i - 1 ==> 0 <= m[k] <= 0xffff)
    && -0x10000 <= m[i - 1] <= 0xffff
    && Val(m[..i], B) == Val(t[..i], B) - Val(PLimbs()[..i], B)
  }

  lemma SubtractFirst(m: seq<int>, t: seq<int>)
    requires |m| == |t| == 16 && Normal(t) && m[0] == t[0] - 0xffed
    ensures Subtracted(m, t, 1)
  {
    assert m[..1] == [m[0]] && t[..1] == [t[0]] && PLimbs()[..1] == [0xffed];
  }

  /** The state after limb `i`, whose borrow comes out of limb `i - 1`. */
  ghost function SubtractStep(m: seq<int>, t: seq<int>, i: nat): seq<int>
    requires |m| == |t| == 16 && 1 <= i < 16
  {
    m[i - 1 := m[i - 1] % B][i := t[i] - PLimbs()[i] - Borrow(m[i - 1])]
  }

  lemma SubtractNext(m: seq<int>, t: seq<int>, i: nat)
    requires i < 16 && Normal(t) && Subtracted(m, t, i)
    ensures Subtracted(SubtractStep(m, t, i), t, i + 1)
  {
    var w := Borrow(m[i - 1]);
    var u := m[..i] + [t[i] - PLimbs()[i]];
    assert m[i - 1] % B == m[i - 1] + B * w;
    MoveInner(u, i - 1, -w, B, 0);
    assert SubtractStep(m, t, i)[..i + 1] == Move(u, i - 1, -w, B, 0);
    ValAppend(m[..i], t[i] - PLimbs()[i], B);
    ValPrefix(t, i, B);
    ValPrefix(PLimbs(), i, B);
    Distribute(Pow(B, i), t[i], PLimbs()[i]);
  }

  lemma SubtractLast(m: seq<int>, t: seq<int>)
    requires Subtracted(m, t, 16)
    ensures Val(m, B) == Val(t, B) - P
    ensures m[15] < 0 <==> Val(t, B) < P
  {
    assert m[..16] == m && t[..16] == t && PLimbs()[..16] == PLimbs();
    PLimbsValue();
    TopLimbSign(m, B);
  }

  /** The limb loop of `gf_pack`: `m := t - p`, and whether that borrowed. */
  method SubtractP(t: array<i64>) returns (m: array<i64>, b: int)
    requires t.Length == 16 && Normal(t[..])
    ensures fresh(m) && m.Length == 16
    ensures Val(m[..], B) == Val(t[..], B) - P
    ensures b == if Val(t[..], B) < P then 1 else 0
    ensures b == 0 ==> Normal(m[..])
  {
    hide Val;
    m := new i64[16](_ => 0);
    m[0] := t[0] - 0xffed;
    SubtractFirst(m[..], t[..]);
    for i := 1 to 15
      invariant Subtracted(m[..], t[..], i)
    {
      SubtractNext(m[..], t[..], i);
      ghost var s := m[..];
      m[i] := t[i] - 0xffff - Borrow(m[i - 1]);
      m[i - 1] := m[i - 1] % 0x10000;
      assert m[..] == SubtractStep(s, t[..], i);
    }
    SubtractNext(m[..], t[..], 15);
    ghost var s := m[..];
    m[15] := t[15] - 0x7fff - Borrow(m[14]);
    b := Borrow(m[15]);
    m[14] := m[14] % 0x10000;
    assert m[..] == SubtractStep(s, t[..], 15);
    SubtractLast(m[..], t[..]);
  }

  /** What `gf_cswap` does to one pair of words, bit by bit. */
  lemma MaskedSwap(x: bv64, y: bv64, b: bv64)
    requires b == 0 || b == 1
    ensures var t := (0 - b) & (x ^ y);
      x ^ t == (if b == 1 then y else x) && y ^ t == (if b == 1 then x else y)
  {
  }

  /** `gf_cswap`, with the mask resolved. */
  method GfCSwap(p: array<i64>, q: array<i64>, b: int)
    requires p.Length == 16 && q.Length == 16 && p != q && 0 <= b <= 1
    modifies p, q
    ensures p[..] == old(if b == 1 then q[..] else p[..])
    ensures q[..] == old(if b == 1 then p[..] else q[..])
  {
    ghost var s, t := p[..], q[..];
    for i := 0 to 16
      invariant forall k :: 0 <= k < i && b == 1 ==> p[k] == t[k] && q[k] == s[k]
      invariant forall k :: 0 <= k < 16 && (i <= k || b == 0) ==> p[k] == s[k] && q[k] == t[k]
    {
      if b == 1 {
        p[i], q[i] := q[i], p[i];
      }
    }
    assert b == 1 ==> p[..] == t && q[..] == s;
    assert b == 0 ==> p[..] == s && q[..] == t;
  }

  /** Sixteen-bit limbs reach at most 2p + 37, so two conditional subtractions suffice. */
  lemma TwoSubtractionsSuffice(t: seq<int>)
    requires Normal(t)
    ensures 0 <= Val(t, B) <= 2 * P + 37
  {
    ValBound(t, B);
    PowB16();
  }

  /** The three carry passes of `gf_pack`. */
  method Normalise(t: array<i64>)
    requires t.Length == 16 && Within(t[..], -WIDE, WIDE)
    modifies t
    ensures Normal(t[..]) && Elem(t[..]) == old(Elem(t[..]))
  {
    ghost var s := t[..];
    CarWide(s);
    GfCar(t);
    CarMid(t[..]);
    GfCar(t);
    CarTight(t[..]);
    GfCar(t);
    CarKeepsElem(s);
    CarKeepsElem(Car(s));
    CarKeepsElem(Car(Car(s)));
  }

  /** The two conditional subtractions of `gf_pack`. */
  method ReduceTwice(t: array<i64>)
    requires t.Length == 16 && Normal(t[..])
    modifies t
    ensures Normal(t[..]) && Val(t[..], B) == old(Elem(t[..]))
  {
    ghost var v := Val(t[..], B);
    TwoSubtractionsSuffice(t[..]);
    for j := 0 to 2
      invariant Normal(t[..])
      invariant Reducing(v, Val(t[..], B), j)
    {
      var m, b := SubtractP(t);
      GfCSwap(t, m, 1 - b);
      TwoSubtractionsSuffice(t[..]);
    }
    PackedValue(v, Val(t[..], B));
  }

  /** `r` is `v` less at most `j` times p, and is reduced as far as `j` rounds must reach. */
  ghost predicate Reducing(v: int, r: int, j: nat) {
    && (r == v || (j > 0 && r == v - P) || (j > 1 && r == v - 2 * P))
    && 0 <= r && (r < P || r <= (2 - j) * P + 37)
  }

  /** The byte loop of `gf_pack`. */
  method StoreBytes(t: array<i64>) returns (o: array<byte>)
    requires t.Length == 16 && Normal(t[..])
    ensures fresh(o) && o.Length == 32
    ensures Val(o[..], 256) == Val(t[..], B)
  {
    o := new byte[32](_ => 0);
    for i := 0 to 16
      invariant forall k :: 0 <= k < i ==> t[k] == (o[2 * k] as int) + 256 * (o[2 * k + 1] as int)
    {
      o[2 * i] := t[i] % 256;
      o[2 * i + 1] := (t[i] / 256) % 256;
    }
    SplitLimbs(o[..], t[..], 256);
  }

  /** `gf_pack`: the canonical little-endian bytes of the element. */
  method GfPack(n: array<i64>) returns (o: array<byte>)
    requires n.Length == 16 && Within(n[..], -WIDE, WIDE)
    ensures fresh(o) && o.Length == 32
    ensures Val(o[..], 256) == Elem(n[..])
  {
    var t := new i64[16](i requires 0 <= i < 16 reads n => n[i]);
    assert t[..] == n[..];
    Normalise(t);
    ReduceTwice(t);
    o := StoreBytes(t);
  }

  /** `gf_neq`: zero exactly when the arguments are the same element. */
  method GfNeq(a: array<i64>, b: array<i64>) returns (r: int)
    requires a.Length == 16 && Within(a[..], -WIDE, WIDE)
    requires b.Length == 16 && Within(b[..], -WIDE, WIDE)
    ensures r == if Elem(a[..]) == Elem(b[..]) then 0 else 1
  {
    var c := GfPack(a);
    var d := GfPack(b);
    var same := true;
    for i := 0 to 32
      invariant same <==> c[..i] == d[..i]
    {
      same := same && c[i] == d[i];
    }
    assert c[..32] == c[..] && d[..32] == d[..];
    if Val(c[..], 256) == Val(d[..], 256) {
      ValInjective(c[..], d[..], 256);
    }
    r := if same then 0 else 1;
  }

  /** `gf_par`: the parity of the canonical representative. */
  method GfPar(a: array<i64>) returns (r: byte)
    requires a.Length == 16 && Within(a[..], -WIDE, WIDE)
    ensures r == Elem(a[..]) % 2
  {
    var d := GfPack(a);
    r := d[0] % 2;
    LowBit(d[..]);
  }

  lemma LowBit(d: seq<int>)
    requires |d| > 0
    ensures Val(d, 256) % 2 == d[0] % 2
  {
    var rest := Val(d[1..], 256);
    assert Val(d, 256) == d[0] + 2 * (128 * rest);
  }

  lemma PackedValue(v: int, r: int)
    requires 0 <= r < P
    requires r == v || r == v - P || r == v - 2 * P
    ensures v % P == r
  {
    CongBy(v, r, (v - r) / P, P);
    ModIs(v, r, P);
  }

  /** `gf_unpack`: 255 bits of a little-endian encoding; the top bit is dropped. */
  method GfUnpack(n: seq<byte>) returns (o: array<i64>)
    requires |n| == 32
    ensures fresh(o) && o.Length == 16 && Normal(o[..])
    ensures Val(o[..], B) == Val(n, 256) % (P + 19)
  {
    o := new i64[16](_ => 0);
    for i := 0 to 16
      invariant forall k :: 0 <= k < i ==> o[k] == (n[2 * k] as int) + 256 * (n[2 * k + 1] as int)
    {
      o[i] := (n[2 * i] as int) + 256 * (n[2 * i + 1] as int);
    }
    SplitLimbs(n, o[..], 256);
    ghost var s := o[..];
    o[15] := o[15] % 0x8000;
    assert o[..] == s[15 := s[15] % 0x8000];
    MaskTopBit(s);
  }

  lemma MaskTopBit(s: seq<int>)
    requires Normal(s)
    ensures Val(s[15 := s[15] % 0x8000], B) == Val(s, B) % (P + 19)
  {
    var t := s[15 := s[15] % 0x8000];
    var h := s[15] / 0x8000;
    PowB16();
    ValUpdate(s, 15, s[15] % 0x8000, B);
    assert s[15] % 0x8000 - s[15] == -0x8000 * h;
    TopBitWeight(h, Pow(B, 15), P + 19);
    ValPrefix(t, 15, B);
    assert t[..16] == t;
    ValBound(t[..15], B);
    SmallTop(Val(t[..15], B), t[15], Pow(B, 15), P + 19);
    CongBy(Val(s, B), Val(t, B), h, P + 19);
    ModIs(Val(s, B), Val(t, B), P + 19);
  }

  lemma TopBitWeight(h: int, p: int, m: int)
    requires 0x8000 * p == m
    ensures (-0x8000 * h) * p == -(h * m)
  {
    assert (-0x8000 * h) * p == -(h * (0x8000 * p));
  }

  lemma SmallTop(low: int, x: int, p: int, m: int)
    requires 0 <= low < p && 0 <= x < 0x8000 && 0x8000 * p == m
    ensures 0 <= low + p * x < m
  {
    assert p * x >= 0;
    assert p * (0x7fff - x) >= 0;
    assert p * (0x7fff - x) == 0x7fff * p - p * x;
  }

  // ---------------------------------------------------------------- exponentiation

  ghost function FPow(x: int, n: nat): int { PowMod(x, n, P) }

  /**
   * The exponent held before round `a` of a square-and-multiply chain that starts at `top`
   * and skips the multiplication in the rounds listed.
   */
  ghost function ChainExp(skip: set<int>, top: int, a: int): (e: nat)
    requires a <= top
    decreases top - a
  {
    if a == top then 1
    else 2 * ChainExp(skip, top, a + 1) + (if a + 1 in skip then 0 else 1)
  }

  /** While nothing is skipped the exponent is all ones in binary. */
  lemma {:induction false} ChainAllOnes(skip: set<int>, top: int, a: int)
    requires a <= top && forall k :: k in skip ==> k <= a
    ensures ChainExp(skip, top, a) == Pow(2, (top - a) + 1) - 1
    decreases top - a
  {
    if a < top {
      ChainAllOnes(skip, top, a + 1);
    }
  }

  lemma {:induction false} PowRadix(k: nat)
    ensures Pow(2, 16 * k) == Pow(B, k)
  {
    if k > 0 {
      PowRadix(k - 1);
      PowAdd(2, 16, 16 * (k - 1));
      PowAdd(2, 8, 8);
      assert Pow(2, 8) == 256;
    }
  }

  lemma TwoTo255(n: nat)
    requires n == 250
    ensures 32 * Pow(2, n) == P + 19
  {
    PowRadix(16);
    PowB16();
    PowAdd(2, 6, n);
    assert Pow(2, 6) == 64;
  }

  /** The chain of `gf_pow2523` raises to (p - 5) / 8. */
  lemma Pow2523Exponent(top: int)
    requires top == 250
    ensures 8 * ChainExp({1}, top, -1) == P - 5
  {
    var skip := {1};
    ChainAllOnes(skip, top, 1);
    assert ChainExp(skip, top, 0) == 2 * ChainExp(skip, top, 1);
    assert ChainExp(skip, top, -1) == 2 * ChainExp(skip, top, 0) + 1;
    TwoTo255(top);
  }

  /** The chain of `gf_inv` raises to p - 2. */
  lemma InvExponent(top: int)
    requires top == 253
    ensures ChainExp({2, 4}, top, -1) == P - 2
  {
    InvChainTail({2, 4}, top);
    TwoTo255(top - 3);
  }

  lemma InvChainTail(skip: set<int>, top: int)
    requires top > 4 && 4 in skip && 3 !in skip && 2 in skip && 1 !in skip && 0 !in skip
    requires forall k :: k in skip ==> k <= 4
    ensures ChainExp(skip, top, -1) == 32 * Pow(2, top - 3) - 21
  {
    ChainAllOnes(skip, top, 4);
    assert ChainExp(skip, top, 3) == 2 * ChainExp(skip, top, 4);
    assert ChainExp(skip, top, 2) == 2 * ChainExp(skip, top, 3) + 1;
    assert ChainExp(skip, top, 1) == 2 * ChainExp(skip, top, 2);
    assert ChainExp(skip, top, 0) == 2 * ChainExp(skip, top, 1) + 1;
  }

  /** One round of a chain. */
  method ChainRound(c: array<i64>, i: array<i64>, mul: bool, ghost e: nat)
    requires c.Length == 16 && i.Length == 16 && c != i && Loose(c[..]) && Loose(i[..])
    requires Elem(c[..]) == FPow(Elem(i[..]), e)
    modifies c
    ensures Tight(c[..])
    ensures Elem(c[..]) == FPow(Elem(i[..]), 2 * e + (if mul then 1 else 0))
  {
    ghost var x := Elem(i[..]);
    GfSq(c, c);
    PowModAdd(x, e, e, P);
    if mul {
      GfMul(c, c, i);
      PowModAdd(x, 2 * e, 1, P);
      PowModOne(x, P);
    }
  }

  method CopyLimbs(o: array<i64>, c: array<i64>)
    requires o.Length == 16 && c.Length == 16
    modifies o
    ensures o[..] == old(c[..])
  {
    ghost var s := c[..];
    for k := 0 to 16
      invariant forall j :: 0 <= j < k ==> o[j] == s[j]
      invariant forall j :: k <= j < 16 ==> c[j] == s[j]
    {
      o[k] := c[k];
    }
    assert o[..] == s;
  }

  /** The square-and-multiply loop that `gf_pow2523` and `gf_inv` both write out. */
  method Chain(i: array<i64>, skip: set<int>, top: nat) returns (c: array<i64>)
    requires i.Length == 16 && Loose(i[..])
    ensures fresh(c) && c.Length == 16 && Tight(c[..])
    ensures Elem(c[..]) == FPow(Elem(i[..]), ChainExp(skip, top, -1))
  {
    c := new i64[16](k requires 0 <= k < 16 reads i => i[k]);
    assert c[..] == i[..];
    PowModOne(Elem(i[..]), P);
    for a := top + 1 downto 0
      invariant Loose(c[..]) && (a <= top ==> Tight(c[..]))
      invariant Elem(c[..]) == FPow(Elem(i[..]), ChainExp(skip, top, a - 1))
    {
      ChainRound(c, i, a !in skip, ChainExp(skip, top, a));
    }
  }

  /** `gf_pow2523`: the (p - 5) / 8 power. */
  method GfPow2523(o: array<i64>, i: array<i64>)
    requires o.Length == 16 && i.Length == 16 && Loose(i[..])
    modifies o
    ensures Tight(o[..])
    ensures Elem(o[..]) == FPow(old(Elem(i[..])), (P - 5) / 8)
  {
    var top := 250;
    var c := Chain(i, {1}, top);
    Pow2523Exponent(top);
    CopyLimbs(o, c);
  }

  /** `gf_inv`: the p - 2 power. */
  method GfInv(o: array<i64>, i: array<i64>)
    requires o.Length == 16 && i.Length == 16 && Loose(i[..])
    modifies o
    ensures Tight(o[..])
    ensures Elem(o[..]) == FPow(old(Elem(i[..])), P - 2)
  {
    var top := 253;
    var c := Chain(i, {2, 4}, top);
    InvExponent(top);
    CopyLimbs(o, c);
  }
}
