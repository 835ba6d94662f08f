/**
 * What base64 text denotes (RFC 4648, sections 3 to 5): characters stand for six bits each by their place in a
 * table, and the bytes are those bits cut anew. Both directions of the client's code (include/keylight/result.hpp:113-173,
 * verifier.hpp:25-41) are tied to it, for every text and every bytes.
 */
module Sextets {
  import opened Base64
  import opened Limbs
  import opened Sha2

  const UPPER := "ABCDEFGHIJKLMNOPQRSTUVWXYZ"
  const LOWER := "abcdefghijklmnopqrstuvwxyz"

  /** Table 1 of RFC 4648. */
  ghost function Standard(v: nat): (c: char)
    requires v < 64
  {
    (UPPER + LOWER + "0123456789" + "+/")[v]
  }

  /** Table 2. */
  ghost function UrlSafe(v: nat): (c: char)
    requires v < 64
  {
    (UPPER + LOWER + "0123456789" + "-_")[v]
  }

  /** The character stands for the six bits `v` in one of the two tables. */
  ghost predicate StandsFor(c: char, v: nat) {
    v < 64 && (c == Standard(v) || c == UrlSafe(v))
  }

  /** The sextets of a text up to its first padding; a character of neither table counts for nothing. */
  ghost predicate Spells(t: string, v: seq<nat>) {
    if |t| == 0 || t[0] == '=' then v == []
    else if exists d: nat :: StandsFor(t[0], d) then |v| > 0 && StandsFor(t[0], v[0]) && Spells(t[1..], v[1..])
    else Spells(t[1..], v)
  }

  /** The number `r` with `n` more sextets after it that spell `s`. */
  ghost function Held(r: nat, n: nat, s: nat): (m: nat) {
    PowPositive(2, 6 * n);
    Positive(r, Pow(2, 6 * n));
    r * Pow(2, 6 * n) + s
  }

  lemma Positive(r: nat, p: int)
    requires p > 0
    ensures r * p >= 0
  {
  }

  /** The number sextets spell, the most significant first. */
  ghost function Joint(v: seq<nat>): (n: nat) {
    if |v| == 0 then 0 else Held(v[0], |v| - 1, Joint(v[1..]))
  }

  // ---------------------------------------------------------------- the tables

  lemma Letter(v: nat)
    requires v < 26
    ensures UPPER[v] == ('A' as int + v) as char && LOWER[v] == ('a' as int + v) as char
  {
  }

  lemma AlphabetIsTable(v: nat)
    requires v < 64
    ensures Alphabet(v) == Standard(v)
    ensures UrlSafe(v) == if v == 62 then '-' else if v == 63 then '_' else Standard(v)
  {
    if v < 26 {
      Letter(v);
    } else if v < 52 {
      Letter(v - 26);
    }
  }

  /** Where a character stands in the standard table, if anywhere. */
  lemma StandardPlace(c: char)
    ensures CharValue(c) >= 0 ==> Alphabet(CharValue(c)) == c
  {
  }

  /** What the decoder makes of a character after the flexible form's replacement, by the tables alone. */
  lemma ValueIsPlace(c: char, v: nat)
    ensures var d := if c == '-' then '+' else if c == '_' then '/' else c;
      StandsFor(c, v) <==> CharValue(d) == v
  {
    var d := if c == '-' then '+' else if c == '_' then '/' else c;
    assert CharValue('+') == 62 && CharValue('/') == 63 && CharValue('-') == -2 && CharValue('_') == -2;
    assert Alphabet(62) == '+' && Alphabet(63) == '/';
    hide CharValue, Alphabet, Standard, UrlSafe;
    StandardPlace(d);
    if v < 64 {
      AlphabetIsTable(v);
      AlphabetValue(v);
    }
  }

  lemma PlaceIsUnique(c: char, v: nat, w: nat)
    requires StandsFor(c, v) && StandsFor(c, w)
    ensures v == w
  {
    ValueIsPlace(c, v);
    ValueIsPlace(c, w);
  }

  // ---------------------------------------------------------------- decoding

  lemma RoomIsPower(bits: nat)
    requires bits in {0, 2, 4, 6}
    ensures Room(bits) == Pow(2, bits)
  {
    assert Pow(2, 2) == 4 && Pow(2, 4) == 16 && Pow(2, 6) == 64;
  }

  lemma {:induction false} PowOfPow(b: int, c: nat, n: nat)
    ensures Pow(Pow(b, c), n) == Pow(b, c * n)
  {
    if n > 0 {
      PowOfPow(b, c, n - 1);
      PowAdd(b, c, c * (n - 1));
      assert c + c * (n - 1) == c * n;
    }
  }

  lemma Bytewise(n: nat)
    ensures Pow(256, n) == Pow(2, 8 * n)
  {
    assert Pow(2, 4) == 16 && Pow(2, 8) == 256;
    PowOfPow(2, 8, n);
  }

  /** `bytes` are the leading bits of the `total` bits that spell `n`, and fewer than eight are left over. */
  ghost predicate Leading(bytes: seq<byte>, n: nat, total: nat) {
    exists k: nat, left: nat :: Leaves(bytes, n, total, k, left)
  }

  ghost predicate Leaves(bytes: seq<byte>, n: nat, total: nat, k: nat, left: nat) {
    && k < 8 && 8 * |bytes| + k == total && left < Pow(2, k)
    && n == BigNumber(bytes) * Pow(2, k) + left
  }

  lemma Split(r: int, v: int, p: int, q: int, y: int, e: int, s: int, b: int, k: int, w: int, left: int)
    requires r * 64 + v == q * p + y && p * e == w * k && y * e + s == b * k + left
    ensures r * (64 * e) + (v * e + s) == (q * w + b) * k + left
  {
    calc {
      r * (64 * e) + (v * e + s);
      (r * 64 + v) * e + s;
      (q * p + y) * e + s;
      q * (p * e) + (y * e + s);
      q * (w * k) + (b * k + left);
      (q * w + b) * k + left;
    }
  }

  lemma PowersMeet(bits: nat, n: nat, m: nat, k: nat)
    requires bits >= 2 && bits - 2 + 6 * n == 8 * m + k
    ensures Pow(2, bits - 2) * Pow(2, 6 * n) == Pow(2, 8 * m) * Pow(2, k)
    ensures Pow(2, 6 * (n + 1)) == 64 * Pow(2, 6 * n)
  {
    PowAdd(2, bits - 2, 6 * n);
    PowAdd(2, 8 * m, k);
    PowAdd(2, 6, 6 * n);
    assert Pow(2, 6) == 64;
  }

  lemma Quotient(x: nat, bits: nat)
    requires bits in {2, 4, 6} && x < 64 * Room(bits)
    ensures var p := Room(bits - 2); x / p < 0x100 && x == x / p * p + x % p && x % p < p
  {
  }

  lemma OneByte(x: byte)
    ensures BigNumber([x]) == x
  {
    assert [x][..0] == [];
    assert BigNumber([x]) == 0x100 * BigNumber([]) + x;
  }

  lemma BigCons(x: byte, s: seq<byte>)
    ensures BigNumber([x] + s) == x * Pow(2, 8 * |s|) + BigNumber(s)
  {
    OneByte(x);
    hide Pow, BigNumber;
    BigNumberConcat([x], s);
    Bytewise(|s|);
  }

  lemma NormalStep(t: string)
    requires |t| > 0
    ensures Normal(t) == (if t[0] in " \t\n\r" then "" else [if t[0] == '-' then '+' else if t[0] == '_' then '/' else t[0]]) + Normal(t[1..])
  {
  }

  lemma NothingLeft(t: string, r: nat, bits: nat)
    requires bits in {0, 2, 4, 6} && r < Room(bits) && (|t| == 0 || t[0] == '=')
    ensures Decoded(Normal(t), r, bits) == []
  {
    if |t| > 0 {
      NormalStep(t);
      assert Normal(t)[0] == '=';
    }
  }

  lemma Skipped(t: string, r: nat, bits: nat)
    requires bits in {0, 2, 4, 6} && r < Room(bits) && |t| > 0 && t[0] != '='
    requires forall w: nat :: !StandsFor(t[0], w)
    ensures Decoded(Normal(t), r, bits) == Decoded(Normal(t[1..]), r, bits)
  {
    NormalStep(t);
    if t[0] in " \t\n\r" {
      assert "" + Normal(t[1..]) == Normal(t[1..]);
    } else {
      var d := if t[0] == '-' then '+' else if t[0] == '_' then '/' else t[0];
      if CharValue(d) >= 0 {
        ValueIsPlace(t[0], CharValue(d));
      }
      assert ([d] + Normal(t[1..]))[1..] == Normal(t[1..]);
    }
  }

  lemma Taken(t: string, r: nat, bits: nat, w: nat)
    requires bits in {0, 2, 4, 6} && r < Room(bits) && |t| > 0 && StandsFor(t[0], w)
    ensures Decoded(Normal(t), r, bits) ==
      if bits == 0 then Decoded(Normal(t[1..]), w, 6)
      else
        [(r * 64 + w) / Room(bits - 2)] + Decoded(Normal(t[1..]), (r * 64 + w) % Room(bits - 2), bits - 2)
  {
    ValueIsPlace(t[0], w);
    NormalStep(t);
    hide StandsFor, Normal;
    var d := if t[0] == '-' then '+' else if t[0] == '_' then '/' else t[0];
    assert t[0] !in " \t\n\r" by { BlankValue(t[0]); }
    hide CharValue;
    assert ([d] + Normal(t[1..]))[1..] == Normal(t[1..]);
  }

  lemma BlankValue(c: char)
    ensures c in " \t\n\r" ==> CharValue(c) == -2 && c != '-' && c != '_'
  {
  }

  /** With `bits` bits `r` held back, the bytes are the leading bits of those followed by the sextets. */
  lemma {:induction false} DecodedLeads(t: string, r: nat, bits: nat, v: seq<nat>)
    requires bits in {0, 2, 4, 6} && r < Room(bits) && Spells(t, v)
    ensures Leading(Decoded(Normal(t), r, bits), Held(r, |v|, Joint(v)), bits + 6 * |v|)
    decreases |t|, 0
  {
    hide Decoded, Normal, StandsFor, Room, Leading, Joint, Held;
    if |t| == 0 || t[0] == '=' {
      NothingLeft(t, r, bits);
      NoSextets(r, bits, v);
    } else if exists w: nat :: StandsFor(t[0], w) {
      Taken(t, r, bits, v[0]);
      SmallSextet(t[0], v[0]);
      if bits == 0 {
        RoomSix(v[0], r);
        DecodedLeads(t[1..], v[0], 6, v[1..]);
        FirstHeld(v);
      } else {
        SextetLeads(t[1..], r, bits, v);
      }
    } else {
      Skipped(t, r, bits);
      DecodedLeads(t[1..], r, bits, v);
    }
  }

  /** A sextet completes a byte. */
  lemma {:induction false} SextetLeads(t: string, r: nat, bits: nat, v: seq<nat>)
    requires bits in {2, 4, 6} && r < Room(bits) && |v| > 0 && v[0] < 64 && Spells(t, v[1..])
    ensures var x, p := r * 64 + v[0], Room(bits - 2);
      && x / p < 0x100
      && Leading([x / p] + Decoded(Normal(t), x % p, bits - 2), Held(r, |v|, Joint(v)), bits + 6 * |v|)
    decreases |t|, 1
  {
    hide Decoded, Normal, Leading, Joint, Held, Spells;
    var x, p := r * 64 + v[0], Room(bits - 2);
    Quotient(x, bits);
    DecodedLeads(t, x % p, bits - 2, v[1..]);
    TakenLeads(r, bits, v, x / p, x % p, Decoded(Normal(t), x % p, bits - 2));
  }

  lemma FirstHeld(v: seq<nat>)
    requires |v| > 0
    ensures Held(0, |v|, Joint(v)) == Held(v[0], |v[1..]|, Joint(v[1..]))
  {
  }

  lemma SmallSextet(c: char, w: nat)
    requires StandsFor(c, w)
    ensures w < 64
  {
  }

  lemma RoomSix(w: nat, r: nat)
    requires w < 64
    ensures w < Room(6) && (r < Room(0) ==> r == 0)
  {
  }

  lemma NoSextets(r: nat, bits: nat, v: seq<nat>)
    requires bits in {0, 2, 4, 6} && r < Room(bits) && |v| == 0
    ensures Leading([], Held(r, |v|, Joint(v)), bits + 6 * |v|)
  {
    RoomIsPower(bits);
    assert Leaves([], r, bits, bits, r);
  }

  /** The bits held back and a sextet, cut into a byte and the bits held back next. */
  ghost predicate Recut(r: nat, w: nat, bits: nat, q: byte, y: nat) {
    bits in {2, 4, 6} && r * 64 + w == q * Room(bits - 2) + y
  }

  lemma TakenLeads(r: nat, bits: nat, v: seq<nat>, q: byte, y: nat, out: seq<byte>)
    requires |v| > 0 && bits >= 2 && Recut(r, v[0], bits, q, y)
    requires Leading(out, Held(y, |v[1..]|, Joint(v[1..])), bits - 2 + 6 * |v[1..]|)
    ensures Leading([q] + out, Held(r, |v|, Joint(v)), bits + 6 * |v|)
  {
    hide Recut, Held, Leaves;
    var m, s := |v[1..]|, Joint(v[1..]);
    var k: nat, left: nat :| Leaves(out, Held(y, m, s), bits - 2 + 6 * m, k, left);
    LeavesMore(r, bits, v[0], q, y, m, s, out, k, left);
    Leads([q] + out, Held(r, m + 1, Held(v[0], m, s)), bits + 6 * (m + 1), k, left);
  }

  lemma Leads(bytes: seq<byte>, n: nat, total: nat, k: nat, left: nat)
    requires Leaves(bytes, n, total, k, left)
    ensures Leading(bytes, n, total)
  {
  }

  lemma LeavesMore(r: nat, bits: nat, w: nat, q: byte, y: nat, m: nat, s: nat, out: seq<byte>, k: nat, left: nat)
    requires bits >= 2 && Recut(r, w, bits, q, y)
    requires Leaves(out, Held(y, m, s), bits - 2 + 6 * m, k, left)
    ensures Leaves([q] + out, Held(r, m + 1, Held(w, m, s)), bits + 6 * (m + 1), k, left)
  {
    RoomIsPower(bits - 2);
    PowersMeet(bits, m, |out|, k);
    BigCons(q, out);
    hide Room, Pow, BigNumber;
    Split(r, w, Pow(2, bits - 2), q, y, Pow(2, 6 * m), s, BigNumber(out), Pow(2, k), Pow(2, 8 * |out|), left);
  }

  /**
   * What the flexible decoder makes of any text: the bytes are the leading bits of the sextets the text
   * spells, in either alphabet, up to the first padding and across everything else.
   */
  lemma FlexibleDecodes(t: string, v: seq<nat>)
    requires Spells(t, v)
    ensures var n := Normal(t); Leading(Decoded(n + Pads((4 - |n| % 4) % 4), 0, 0), Joint(v), 6 * |v|)
  {
    hide Decoded, Normal, Leading, Joint, Spells;
    PadsIgnored(Normal(t), (4 - |Normal(t)| % 4) % 4, 0, 0);
    DecodedLeads(t, 0, 0, v);
  }

  /** Every text spells sextets, so the decoder is pinned on all of them. */
  lemma {:induction false} EveryTextSpells(t: string) returns (v: seq<nat>)
    ensures Spells(t, v)
  {
    hide StandsFor;
    if |t| == 0 || t[0] == '=' {
      v := [];
    } else {
      var u := EveryTextSpells(t[1..]);
      if w: nat :| StandsFor(t[0], w) {
        v := [w] + u;
      } else {
        v := u;
      }
    }
  }

  // ---------------------------------------------------------------- encoding

  /** `b` with `e` zero bits after it. */
  ghost function Raised(b: nat, e: nat): (n: nat) {
    PowPositive(2, e);
    Positive(b, Pow(2, e));
    b * Pow(2, e)
  }

  /** The characters of the standard table for the sextets, and padding. */
  ghost predicate Shows(t: string, v: seq<nat>) {
    && |v| <= |t|
    && (forall i :: 0 <= i < |v| ==> v[i] < 64 && t[i] == Standard(v[i]))
    && (forall i :: |v| <= i < |t| ==> t[i] == '=')
  }

  /** `t` writes the bytes `s` as the sextets `v` of the standard table, with zero bits and padding to fill up. */
  ghost predicate Writes(t: string, s: seq<byte>, v: seq<nat>) {
    && 8 * |s| <= 6 * |v| < 8 * |s| + 6
    && |t| == (|s| + 2) / 3 * 4 && Shows(t, v)
    && Joint(v) == Raised(BigNumber(s), 6 * |v| - 8 * |s|)
  }

  lemma HeldTwice(x: nat, n: nat, y: nat, m: nat, s: nat)
    ensures Held(x, n + m, Held(y, m, s)) == Held(Held(x, n, y), m, s)
  {
    PowAdd(2, 6 * n, 6 * m);
    assert 6 * (n + m) == 6 * n + 6 * m;
    hide Pow;
    Regrouped(x, Pow(2, 6 * n), Pow(2, 6 * m), y, s);
  }

  lemma Regrouped(x: int, p: int, q: int, y: int, s: int)
    ensures x * (p * q) + (y * q + s) == (x * p + y) * q + s
  {
    calc {
      x * (p * q) + (y * q + s);
      (x * p) * q + y * q + s;
      (x * p + y) * q + s;
    }
  }

  lemma {:induction false} JointConcat(a: seq<nat>, b: seq<nat>)
    ensures Joint(a + b) == Held(Joint(a), |b|, Joint(b))
  {
    if |a| == 0 {
      assert a + b == b;
    } else {
      assert (a + b)[1..] == a[1..] + b;
      JointConcat(a[1..], b);
      HeldTwice(a[0], |a| - 1, Joint(a[1..]), |b|, Joint(b));
      hide Held;
    }
  }

  lemma JointSnoc(a: seq<nat>, d: nat)
    ensures Joint(a + [d]) == 64 * Joint(a) + d
  {
    JointConcat(a, [d]);
    assert [d][1..] == [];
    assert Pow(2, 6) == 64 && Joint([d]) == d;
  }

  /** The sextets of the first bytes of a group. */
  function Cut(x: byte, y: byte, z: byte, n: nat): (v: seq<nat>)
    requires 1 <= n <= 3
  {
    [x / 4, x % 4 * 16 + y / 16, y % 16 * 4 + z / 64, z % 64][..n + 1]
  }

  lemma CutJoint(x: byte, y: byte, z: byte)
    ensures Joint(Cut(x, 0, 0, 1)) == 16 * x
    ensures Joint(Cut(x, y, 0, 2)) == 4 * (0x100 * x + y)
    ensures Joint(Cut(x, y, z, 3)) == 0x1_0000 * x + 0x100 * y + z
  {
    CutOne(x, y);
    CutTwo(x, y, z);
    var v := Cut(x, y, z, 3);
    assert v == Cut(x, y, z, 2) + [z % 64];
    JointSnoc(Cut(x, y, z, 2), z % 64);
    CutOne(x, 0);
    CutTwo(x, y, 0);
  }

  lemma CutOne(x: byte, y: byte)
    ensures Joint(Cut(x, y, 0, 1)) == 64 * (x / 4) + (x % 4 * 16 + y / 16)
  {
    assert Cut(x, y, 0, 1) == [] + [x / 4] + [x % 4 * 16 + y / 16];
    JointSnoc([], x / 4);
    JointSnoc([] + [x / 4], x % 4 * 16 + y / 16);
  }

  lemma CutTwo(x: byte, y: byte, z: byte)
    ensures Joint(Cut(x, y, z, 2)) == 64 * (64 * (x / 4) + (x % 4 * 16 + y / 16)) + (y % 16 * 4 + z / 64)
  {
    CutOne(x, y);
    assert Cut(x, y, z, 2) == Cut(x, y, 0, 1) + [y % 16 * 4 + z / 64];
    JointSnoc(Cut(x, y, 0, 1), y % 16 * 4 + z / 64);
  }

  lemma GroupChars(x: byte, y: byte, z: byte, n: nat)
    requires 1 <= n <= 3 && (n < 2 ==> y == 0) && (n < 3 ==> z == 0)
    ensures Shows(Group(x, y, z, n), Cut(x, y, z, n))
  {
    AlphabetIsTable(x / 4);
    AlphabetIsTable(x % 4 * 16 + y / 16);
    AlphabetIsTable(y % 16 * 4 + z / 64);
    AlphabetIsTable(z % 64);
    hide Alphabet, Standard, UrlSafe, Group;
    ShowsGroup(Group(x, y, z, n), n, x / 4, x % 4 * 16 + y / 16, y % 16 * 4 + z / 64, z % 64);
  }

  lemma ShowsGroup(t: string, n: nat, a: nat, b: nat, c: nat, d: nat)
    requires 1 <= n <= 3 && |t| == 4 && a < 64 && b < 64 && c < 64 && d < 64
    requires t[0] == Standard(a) && t[1] == Standard(b)
    requires t[2] == (if n > 1 then Standard(c) else '=') && t[3] == (if n > 2 then Standard(d) else '=')
    ensures Shows(t, [a, b, c, d][..n + 1])
  {
    hide Standard;
  }

  /** The encoder writes the bytes. */
  lemma {:induction false} EncodedWrites(s: seq<byte>) returns (v: seq<nat>)
    ensures Writes(Encoded(s), s, v)
  {
    hide Writes, Cut, Group;
    if |s| == 0 {
      v := [];
      NothingWritten();
    } else if |s| == 1 {
      v := Cut(s[0], 0, 0, 1);
      assert s == [s[0]];
      LastOne(s[0]);
    } else if |s| == 2 {
      v := Cut(s[0], s[1], 0, 2);
      assert s == [s[0], s[1]];
      LastTwo(s[0], s[1]);
    } else {
      var w := EncodedWrites(s[3..]);
      v := Cut(s[0], s[1], s[2], 3) + w;
      assert s == [s[0], s[1], s[2]] + s[3..];
      GroupWrites(s[0], s[1], s[2], s[3..], Encoded(s[3..]), w);
    }
  }

  lemma NothingWritten()
    ensures Writes("", [], [])
  {
  }

  lemma LastOne(x: byte)
    ensures Writes(Group(x, 0, 0, 1), [x], Cut(x, 0, 0, 1))
  {
    GroupChars(x, 0, 0, 1);
    CutJoint(x, 0, 0);
    OneByte(x);
    hide Joint, BigNumber, Group, Shows;
    assert Pow(2, 4) == 16;
  }

  lemma LastTwo(x: byte, y: byte)
    ensures Writes(Group(x, y, 0, 2), [x, y], Cut(x, y, 0, 2))
  {
    GroupChars(x, y, 0, 2);
    CutJoint(x, y, 0);
    TwoBytes(x, y);
    hide Joint, BigNumber, Group, Shows;
    assert Pow(2, 2) == 4;
  }

  lemma TwoBytes(x: byte, y: byte)
    ensures BigNumber([x, y]) == 0x100 * x + y
  {
    OneByte(x);
    assert [x, y][..1] == [x];
  }

  lemma ThreeBytes(x: byte, y: byte, z: byte)
    ensures BigNumber([x, y, z]) == 0x1_0000 * x + 0x100 * y + z
  {
    TwoBytes(x, y);
    assert [x, y, z][..2] == [x, y];
  }

  /** Four sextets and the rest, three bytes and the rest. */
  lemma GroupWrites(x: byte, y: byte, z: byte, r: seq<byte>, u: string, w: seq<nat>)
    requires Writes(u, r, w)
    ensures Writes(Group(x, y, z, 3) + u, [x, y, z] + r, Cut(x, y, z, 3) + w)
  {
    var s, v := [x, y, z] + r, Cut(x, y, z, 3) + w;
    assert |s| == 3 + |r| && |v| == 4 + |w|;
    assert 6 * |v| - 8 * |s| == 6 * |w| - 8 * |r|;
    GroupChars(x, y, z, 3);
    MoreGroups(|r|);
    ShowsMore(Group(x, y, z, 3), Cut(x, y, z, 3), u, w);
    hide Group, Joint, BigNumber, Raised, Shows, Cut;
    GroupNumber(x, y, z, r, w);
  }

  lemma MoreGroups(m: nat)
    ensures (m + 5) / 3 * 4 == 4 + (m + 2) / 3 * 4
  {
  }

  lemma ShowsMore(t: string, g: seq<nat>, u: string, w: seq<nat>)
    requires |t| == |g| && Shows(t, g) && Shows(u, w)
    ensures Shows(t + u, g + w)
  {
  }

  lemma GroupNumber(x: byte, y: byte, z: byte, r: seq<byte>, w: seq<nat>)
    requires 8 * |r| <= 6 * |w| && Joint(w) == Raised(BigNumber(r), 6 * |w| - 8 * |r|)
    ensures Joint(Cut(x, y, z, 3) + w) == Raised(BigNumber([x, y, z] + r), 6 * |w| - 8 * |r|)
  {
    hide *;
    CutJoint(x, y, z);
    JointConcat(Cut(x, y, z, 3), w);
    HeldBytes(x, y, z, r, |w|);
  }

  lemma HeldBytes(x: byte, y: byte, z: byte, r: seq<byte>, k: nat)
    requires 8 * |r| <= 6 * k
    ensures Held(0x1_0000 * x + 0x100 * y + z, k, Raised(BigNumber(r), 6 * k - 8 * |r|))
      == Raised(BigNumber([x, y, z] + r), 6 * k - 8 * |r|)
  {
    ThreeBytes(x, y, z);
    BigNumberConcat([x, y, z], r);
    hide BigNumber, Held, Raised, Pow;
    HeldOver(0x1_0000 * x + 0x100 * y + z, k, |r|, BigNumber(r), BigNumber([x, y, z] + r));
  }

  lemma HeldOver(n: nat, k: nat, m: nat, b: nat, c: nat)
    requires 8 * m <= 6 * k && c == n * Pow(256, m) + b
    ensures Held(n, k, Raised(b, 6 * k - 8 * m)) == Raised(c, 6 * k - 8 * m)
  {
    Bytewise(m);
    PowAdd(2, 8 * m, 6 * k - 8 * m);
    hide Pow;
    Regrouped(n, Pow(2, 8 * m), Pow(2, 6 * k - 8 * m), b, 0);
  }
}
