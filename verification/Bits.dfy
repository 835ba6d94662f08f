/** Exclusive and inclusive or of unsigned words, bit by bit. */
module Bits {
  import opened Limbs

  function Xor(n: nat, a: nat, b: nat): (c: nat) {
    if n == 0 then 0 else (a + b) % 2 + 2 * Xor(n - 1, a / 2, b / 2)
  }

  function Or(n: nat, a: nat, b: nat): (c: nat) {
    if n == 0 then 0 else (if a % 2 == 1 || b % 2 == 1 then 1 else 0) + 2 * Or(n - 1, a / 2, b / 2)
  }

  lemma {:induction false} XorBound(n: nat, a: nat, b: nat)
    ensures Xor(n, a, b) < Pow(2, n)
  {
    if n > 0 {
      XorBound(n - 1, a / 2, b / 2);
    }
  }

  lemma {:induction false} OrBound(n: nat, a: nat, b: nat)
    ensures Or(n, a, b) < Pow(2, n)
  {
    if n > 0 {
      OrBound(n - 1, a / 2, b / 2);
    }
  }

  lemma HalfBound(a: nat, p: int)
    requires a < 2 * p
    ensures a / 2 < p
  {
  }

  lemma {:induction false} XorTwice(n: nat, a: nat, k: nat)
    requires a < Pow(2, n)
    ensures Xor(n, Xor(n, a, k), k) == a
  {
    if n > 0 {
      var c := Xor(n - 1, a / 2, k / 2);
      var x := (a + k) % 2 + 2 * c;
      assert Xor(n, a, k) == x;
      LowBit(x, (a + k) % 2, c);
      Parity(a, k, x);
      assert Xor(n, x, k) == (x + k) % 2 + 2 * Xor(n - 1, x / 2, k / 2);
      HalfBound(a, Pow(2, n - 1));
      XorTwice(n - 1, a / 2, k / 2);
    }
  }

  lemma Parity(a: nat, k: nat, x: nat)
    requires x % 2 == (a + k) % 2
    ensures (x + k) % 2 == a % 2
  {
  }

  lemma LowBit(x: nat, bit: nat, c: nat)
    requires x == bit + 2 * c && bit < 2
    ensures x % 2 == bit && x / 2 == c
  {
  }

  lemma SameHalves(a: nat, b: nat)
    ensures a == b <==> (a + b) % 2 == 0 && a / 2 == b / 2
  {
    var p, q := a % 2, b % 2;
    if p + q < 2 {
      LowBit(a + b, p + q, a / 2 + b / 2);
    } else {
      LowBit(a + b, 0, a / 2 + b / 2 + 1);
    }
  }

  lemma {:induction false} XorZero(n: nat, a: nat, b: nat)
    requires a < Pow(2, n) && b < Pow(2, n)
    ensures Xor(n, a, b) == 0 <==> a == b
  {
    if n > 0 {
      HalfBound(a, Pow(2, n - 1));
      HalfBound(b, Pow(2, n - 1));
      XorZero(n - 1, a / 2, b / 2);
      SameHalves(a, b);
    }
  }

  lemma {:induction false} OrZero(n: nat, a: nat, b: nat)
    requires a < Pow(2, n) && b < Pow(2, n)
    ensures Or(n, a, b) == 0 <==> a == 0 && b == 0
  {
    if n > 0 {
      HalfBound(a, Pow(2, n - 1));
      HalfBound(b, Pow(2, n - 1));
      OrZero(n - 1, a / 2, b / 2);
    }
  }

  /** Bit `i` of `a`. */
  function BitAt(a: nat, i: nat): (b: nat) {
    if i == 0 then a % 2 else BitAt(a / 2, i - 1)
  }

  /** The bits of a number cut in two. */
  lemma {:induction false} BitsJoin(low: nat, high: nat, n: nat, i: nat)
    requires low < Pow(2, n)
    ensures Pow(2, n) * high >= 0
    ensures BitAt(low + Pow(2, n) * high, i) == if i < n then BitAt(low, i) else BitAt(high, i - n)
  {
    PowPositive(2, n);
    NonNegative(Pow(2, n), high);
    if n > 0 {
      var p := Pow(2, n - 1);
      PowPositive(2, n - 1);
      NonNegative(p, high);
      assert (2 * p) * high == 2 * (p * high);
      LowBit(low + Pow(2, n) * high, low % 2, low / 2 + p * high);
      if i > 0 {
        BitsJoin(low / 2, high, n - 1, i - 1);
      }
    }
  }

  /** Each bit on its own. */
  lemma {:induction false} XorBits(n: nat, a: nat, b: nat, i: nat)
    requires i < n
    ensures BitAt(Xor(n, a, b), i) == (BitAt(a, i) + BitAt(b, i)) % 2
  {
    var c := Xor(n - 1, a / 2, b / 2);
    LowBit((a + b) % 2 + 2 * c, (a + b) % 2, c);
    if i > 0 {
      XorBits(n - 1, a / 2, b / 2, i - 1);
    }
  }

  lemma {:induction false} OrBits(n: nat, a: nat, b: nat, i: nat)
    requires i < n
    ensures BitAt(Or(n, a, b), i) == if BitAt(a, i) + BitAt(b, i) > 0 then 1 else 0
  {
    var c, bit := Or(n - 1, a / 2, b / 2), if a % 2 == 1 || b % 2 == 1 then 1 else 0;
    LowBit(bit + 2 * c, bit, c);
    if i > 0 {
      OrBits(n - 1, a / 2, b / 2, i - 1);
    }
  }

  function And(n: nat, a: nat, b: nat): (c: nat) {
    if n == 0 then 0 else (if a % 2 == 1 && b % 2 == 1 then 1 else 0) + 2 * And(n - 1, a / 2, b / 2)
  }

  /** A mask of the low `k` bits. */
  lemma {:induction false} AndLow(n: nat, k: nat, a: nat)
    requires k <= n
    ensures Pow(2, k) >= 1 && And(n, a, Pow(2, k) - 1) == a % Pow(2, k)
  {
    PowPositive(2, k);
    if k == 0 {
      AndNothing(n, a);
    } else {
      var p := Pow(2, k - 1);
      PowPositive(2, k - 1);
      AndLow(n - 1, k - 1, a / 2);
      LowBit(2 * p - 1, 1, p - 1);
      HalfMod(a, p);
    }
  }

  lemma HalfMod(a: nat, p: int)
    requires p >= 1
    ensures a % (2 * p) == a % 2 + 2 * (a / 2 % p)
  {
    var q := a / 2 / p;
    assert a / 2 == a / 2 % p + p * q;
    assert (2 * p) * q == 2 * (p * q);
    QuotRem(a, 2 * p, q, a % 2 + 2 * (a / 2 % p));
  }

  lemma {:induction false} AndNothing(n: nat, a: nat)
    ensures And(n, a, 0) == 0
  {
    if n > 0 {
      AndNothing(n - 1, a / 2);
    }
  }

  lemma {:induction false} AndBits(n: nat, a: nat, b: nat, i: nat)
    requires i < n
    ensures BitAt(And(n, a, b), i) == BitAt(a, i) * BitAt(b, i)
  {
    var c, bit := And(n - 1, a / 2, b / 2), if a % 2 == 1 && b % 2 == 1 then 1 else 0;
    LowBit(bit + 2 * c, bit, c);
    if i > 0 {
      AndBits(n - 1, a / 2, b / 2, i - 1);
    }
  }

  lemma AndShift(n: nat, a: nat, b: nat)
    requires n > 0
    ensures And(n, a, 2 * b) == 2 * And(n - 1, a / 2, b)
  {
    LowBit(2 * b, 0, b);
  }

  lemma AndLowBits(n: nat, k: nat, a: nat, p: nat)
    requires k <= n && p == Pow(2, k)
    ensures p >= 1 && And(n, a, p - 1) == a % p
  {
    AndLow(n, k, a);
  }

  /** The three masks of a Poly1305 key. */
  lemma ByteMasks(x: byte)
    ensures And(8, x, 0xff) == x && And(8, x, 0x0f) == x % 16 && And(8, x, 0xfc) == x / 4 * 4
  {
    SmallPowers();
    hide Pow, And;
    AndLowBits(8, 8, x, 256);
    AndLowBits(8, 4, x, 16);
    AndLowBits(6, 6, x / 4, 64);
    AndShift(7, x / 2, 63);
    AndShift(8, x, 126);
  }

  lemma SmallPowers()
    ensures Pow(2, 4) == 16 && Pow(2, 6) == 64 && Pow(2, 8) == 256
  {
    PowAdd(2, 2, 2);
    PowAdd(2, 2, 4);
    PowAdd(2, 4, 4);
  }

  lemma Pow2Eight()
    ensures Pow(2, 8) == 0x100 && Pow(2, 32) == 0x1_0000_0000
  {
    PowAdd(2, 4, 4);
    PowAdd(2, 8, 8);
    PowAdd(2, 16, 16);
  }

  function Xor8(a: byte, b: byte): (c: byte)
    ensures c == 0 <==> a == b
  {
    Pow2Eight();
    XorBound(8, a, b);
    XorZero(8, a, b);
    Xor(8, a, b)
  }

  function Or8(a: byte, b: byte): (c: byte)
    ensures c == 0 <==> a == 0 && b == 0
  {
    Pow2Eight();
    OrBound(8, a, b);
    OrZero(8, a, b);
    Or(8, a, b)
  }

  function Xor32(a: u32, b: u32): (c: u32) {
    Pow2Eight();
    XorBound(32, a, b);
    Xor(32, a, b)
  }

  lemma Xor8Twice(a: byte, k: byte)
    ensures Xor8(Xor8(a, k), k) == a
  {
    Pow2Eight();
    XorTwice(8, a, k);
  }
}
