/** Base64 (include/keylight/result.hpp:113-173, verifier.hpp:25-41; RFC 4648, sections 4 and 5). */
module Base64 {
  import opened Limbs

  // ---------------------------------------------------------------- the alphabet

  function Alphabet(v: nat): (c: char)
    requires v < 64
  {
    if v < 26 then ('A' as int + v) as char
    else if v < 52 then ('a' as int + (v - 26)) as char
    else if v < 62 then ('0' as int + (v - 52)) as char
    else if v == 62 then '+' else '/'
  }

  /** `b64_val`: -1 for padding, -2 for what is skipped. */
  function CharValue(c: char): (v: int)
    ensures -2 <= v < 64
  {
    if 'A' <= c <= 'Z' then c as int - 'A' as int
    else if 'a' <= c <= 'z' then c as int - 'a' as int + 26
    else if '0' <= c <= '9' then c as int - '0' as int + 52
    else if c == '+' then 62
    else if c == '/' then 63
    else if c == '=' then -1
    else -2
  }

  lemma AlphabetValue(v: nat)
    requires v < 64
    ensures CharValue(Alphabet(v)) == v
  {
  }

  // ---------------------------------------------------------------- encoding

  /** The characters of a group of three bytes, of which the first `n` are there. */
  function Group(x: byte, y: byte, z: byte, n: nat): (t: string)
    requires 1 <= n <= 3
    ensures |t| == 4
  {
    [Alphabet(x / 4), Alphabet(x % 4 * 16 + y / 16),
     if n > 1 then Alphabet(y % 16 * 4 + z / 64) else '=',
     if n > 2 then Alphabet(z % 64) else '=']
  }

  function Encoded(s: seq<byte>): (t: string)
    ensures |t| == (|s| + 2) / 3 * 4
  {
    if |s| == 0 then ""
    else if |s| == 1 then Group(s[0], 0, 0, 1)
    else if |s| == 2 then Group(s[0], s[1], 0, 2)
    else
      assert (|s| + 2) / 3 == (|s[3..]| + 2) / 3 + 1;
      Group(s[0], s[1], s[2], 3) + Encoded(s[3..])
  }

  /** Cutting 24 bits into four sixes. */
  lemma Sixes(x: byte, y: byte, z: byte)
    ensures var b := 0x1_0000 * x + 0x100 * y + z;
      && b / 0x4_0000 % 64 == x / 4 && b / 0x1000 % 64 == x % 4 * 16 + y / 16
      && b / 0x40 % 64 == y % 16 * 4 + z / 64 && b % 64 == z % 64
  {
    var b := 0x1_0000 * x + 0x100 * y + z;
    QuotRem(b, 0x4_0000, x / 4, x % 4 * 0x1_0000 + 0x100 * y + z);
    var c := x * 16 + y / 16;
    QuotRem(b, 0x1000, c, y % 16 * 0x100 + z);
    QuotRem(c, 64, x / 4, x % 4 * 16 + y / 16);
    var d := x * 0x400 + y * 4 + z / 64;
    QuotRem(b, 0x40, d, z % 64);
    QuotRem(d, 64, x * 16 + y / 16, y % 16 * 4 + z / 64);
    QuotRem(x / 4, 64, 0, x / 4);
  }

  /** The loop body: four characters. */
  method EncodeGroup(x: byte, y: byte, z: byte, n: nat) returns (t: string)
    requires 1 <= n <= 3
    ensures t == Group(x, y, z, n)
  {
    var b: u32 := 0x1_0000 * (x as int) + 0x100 * (y as int) + z;
    Sixes(x, y, z);
    t := [];
    t := t + [Alphabet(b / 0x4_0000 % 64)];
    t := t + [Alphabet(b / 0x1000 % 64)];
    t := t + [if n > 1 then Alphabet(b / 0x40 % 64) else '='];
    t := t + [if n > 2 then Alphabet(b % 64) else '='];
  }

  method Base64Encode(data: seq<byte>) returns (out: string)
    ensures out == Encoded(data)
  {
    hide Group;
    out := "";
    var i := 0;
    while i < |data|
      invariant 0 <= i && (i <= |data| ==> Encoded(data) == out + Encoded(data[i..]))
      invariant i > |data| ==> out == Encoded(data)
      decreases |data| - i
    {
      var n := if |data| - i < 3 then |data| - i else 3;
      var t := EncodeGroup(data[i], if i + 1 < |data| then data[i + 1] else 0, if i + 2 < |data| then data[i + 2] else 0, n);
      NextGroup(data, i, t);
      Associate(out, t, if n == 3 then Encoded(data[i + 3..]) else "");
      out := out + t;
      i := i + 3;
    }
  }

  lemma Associate(x: string, y: string, z: string)
    ensures (x + y) + z == x + (y + z)
    ensures x + "" == x
  {
  }

  lemma NextGroup(data: seq<byte>, i: nat, t: string)
    requires i < |data|
    requires var n := if |data| - i < 3 then |data| - i else 3;
      t == Group(data[i], if n > 1 then data[i + 1] else 0, if n > 2 then data[i + 2] else 0, n)
    ensures Encoded(data[i..]) == t + if |data| - i >= 3 then Encoded(data[i + 3..]) else ""
  {
    hide Group;
    if |data| - i >= 3 {
      assert data[i..][3..] == data[i + 3..];
    }
  }

  // ---------------------------------------------------------------- decoding

  /** 2^bits for the bit counts between characters. */
  function Room(bits: nat): (p: nat)
    requires bits in {0, 2, 4, 6}
    ensures p in {1, 4, 16, 64}
  {
    if bits == 0 then 1 else if bits == 2 then 4 else if bits == 4 then 16 else 64
  }

  /** The text from here on, with `bits` bits `r` held back: no other bit of the buffer matters. */
  function Decoded(t: string, r: nat, bits: nat): (s: seq<byte>)
    requires bits in {0, 2, 4, 6} && r < Room(bits)
    decreases |t|
  {
    if |t| == 0 then []
    else
      var v := CharValue(t[0]);
      if v == -2 then Decoded(t[1..], r, bits)
      else if v == -1 then []
      else if bits == 0 then Decoded(t[1..], v, 6)
      else
        var x := r * 64 + v;
        var p := Room(bits - 2);
        [x / p] + Decoded(t[1..], x % p, bits - 2)
  }

  lemma DecodedAt(t: string, i: nat, r: nat, bits: nat)
    requires i < |t| && bits in {0, 2, 4, 6} && r < Room(bits)
    ensures var v, d := CharValue(t[i]), Decoded(t[i..], r, bits);
      && (v == -2 ==> d == Decoded(t[i + 1..], r, bits))
      && (v == -1 ==> d == [])
      && (v >= 0 && bits == 0 ==> d == [] + Decoded(t[i + 1..], v, 6))
      && (v >= 0 && bits > 0 ==>
          d == [(r * 64 + v) / Room(bits - 2)] + Decoded(t[i + 1..], (r * 64 + v) % Room(bits - 2), bits - 2))
  {
    hide CharValue;
    assert t[i..][0] == t[i] && t[i..][1..] == t[i + 1..];
  }

  /** One character: the 32-bit buffer wraps, but its low bits are those held back. */
  method TakeChar(buf0: u32, bits0: nat, v: nat) returns (buf: u32, bits: nat, piece: seq<byte>)
    requires v < 64 && bits0 in {0, 2, 4, 6}
    ensures bits in {0, 2, 4, 6} && (bits0 == 0 ==> bits == 6 && piece == [] && buf % Room(6) == v)
    ensures bits0 > 0 ==>
      var x := buf0 % Room(bits0) * 64 + v;
      bits == bits0 - 2 && piece == [x / Room(bits)] && buf % Room(bits) == x % Room(bits)
  {
    Shifted(buf0, v, bits0);
    piece := [];
    buf := (buf0 * 64 + v) % 0x1_0000_0000;
    bits := bits0 + 6;
    if bits >= 8 {
      bits := bits - 8;
      piece := [buf / Room(bits) % 0x100];
    }
  }

  method Base64Decode(input: string) returns (out: seq<byte>)
    ensures out == Decoded(input, 0, 0)
  {
    hide *;
    out := [];
    var buf: u32, bits := 0, 0;
    RoomZero();
    assert input[0..] == input && out + Decoded(input, 0, 0) == Decoded(input, 0, 0);
    var i := 0;
    while i < |input|
      invariant 0 <= i <= |input| && bits in {0, 2, 4, 6}
      invariant Decoded(input, 0, 0) == out + Decoded(input[i..], buf % Room(bits), bits)
    {
      var v := CharValue(input[i]);
      DecodedAt(input, i, buf % Room(bits), bits);
      if v == -1 {
        assert out + [] == out;
        return;
      }
      if v != -2 {
        var piece;
        buf, bits, piece := TakeChar(buf, bits, v);
        Append(out, piece, Decoded(input[i + 1..], buf % Room(bits), bits));
        out := out + piece;
      }
      i := i + 1;
    }
    DecodedEnd(input, buf % Room(bits), bits);
    assert out + [] == out;
  }

  lemma DecodedEnd(t: string, r: nat, bits: nat)
    requires bits in {0, 2, 4, 6} && r < Room(bits)
    ensures Decoded(t[|t|..], r, bits) == []
  {
  }

  lemma RoomZero()
    ensures Room(0) == 1
  {
  }

  lemma Append(a: seq<byte>, x: seq<byte>, b: seq<byte>)
    ensures a + (x + b) == (a + x) + b && [] + b == b
  {
  }

  /** Bits above those held back do not reach the byte taken out or the bits kept. */
  lemma LowBits(b: nat, x: nat, h: int, p: nat)
    requires p in {1, 4, 16} && b == x + 0x100 * p * h && x < 0x100 * p
    ensures b / p % 0x100 == x / p && b % p == x % p
  {
    var q, r := x / p, x % p;
    if p == 1 {
      QuotRem(b, 0x100, h, x);
    } else if p == 4 {
      QuotRem(b, 4, q + 0x100 * h, r);
      QuotRem(q + 0x100 * h, 0x100, h, q);
    } else {
      QuotRem(b, 16, q + 0x100 * h, r);
      QuotRem(q + 0x100 * h, 0x100, h, q);
    }
  }

  /** What the wrapping shift leaves in the low bits. */
  lemma Shifted(buf: u32, v: nat, bits: nat)
    requires v < 64 && bits in {0, 2, 4, 6}
    ensures var b, x := (buf * 64 + v) % 0x1_0000_0000, buf % Room(bits) * 64 + v;
      if bits == 0 then b % 64 == v
      else b / Room(bits - 2) % 0x100 == x / Room(bits - 2) && b % Room(bits - 2) == x % Room(bits - 2)
  {
    var n := buf * 64 + v;
    var b, w := n % 0x1_0000_0000, n / 0x1_0000_0000;
    if bits == 0 {
      QuotRem(b, 64, buf - 0x400_0000 * w, v);
    } else if bits == 2 {
      LowBits(b, buf % 4 * 64 + v, buf / 4 - 0x100_0000 * w, 1);
    } else if bits == 4 {
      LowBits(b, buf % 16 * 64 + v, buf / 16 - 0x40_0000 * w, 4);
    } else {
      LowBits(b, buf % 64 * 64 + v, buf / 64 - 0x10_0000 * w, 16);
    }
  }

  // ---------------------------------------------------------------- round trips

  /** Two sixes carry a byte and four bits, three carry two bytes and two bits, four carry three bytes. */
  lemma GroupDecodes(x: byte, y: byte, z: byte, n: nat, rest: string)
    requires 1 <= n <= 3 && (n < 2 ==> y == 0) && (n < 3 ==> z == 0)
    ensures Decoded(Group(x, y, z, n) + rest, 0, 0) == [x, y, z][..n] + if n == 3 then Decoded(rest, 0, 0) else []
  {
    hide Alphabet, CharValue;
    var t := Group(x, y, z, n) + rest;
    AlphabetValue(x / 4);
    AlphabetValue(x % 4 * 16 + y / 16);
    var c1, c2, c3 := x % 4 * 16 + y / 16, y % 16 * 4 + z / 64, z % 64;
    JoinSixes(x, y, z);
    assert CharValue('=') == -1 by { PadValue(); }
    assert Decoded(t, 0, 0) == Decoded(t[1..], x / 4, 6);
    assert Decoded(t[1..], x / 4, 6) == [x] + Decoded(t[1..][1..], y / 16, 4);
    var u := t[1..][1..];
    assert u[0] == Group(x, y, z, n)[2] && u[1..][0] == Group(x, y, z, n)[3] && u[1..][1..] == rest;
    if n > 1 {
      AlphabetValue(c2);
      assert Decoded(u, y / 16, 4) == [y] + Decoded(u[1..], z / 64, 2);
    }
    if n > 2 {
      AlphabetValue(c3);
      assert Decoded(u[1..], z / 64, 2) == [z] + Decoded(rest, 0, 0);
    }
  }

  lemma PadValue()
    ensures CharValue('=') == -1
  {
  }

  lemma JoinSixes(x: byte, y: byte, z: byte)
    ensures (x / 4 * 64 + (x % 4 * 16 + y / 16)) / 16 == x && (x / 4 * 64 + (x % 4 * 16 + y / 16)) % 16 == y / 16
    ensures (y / 16 * 64 + (y % 16 * 4 + z / 64)) / 4 == y && (y / 16 * 64 + (y % 16 * 4 + z / 64)) % 4 == z / 64
    ensures z / 64 * 64 + z % 64 == z
  {
  }

  /** Decoding what was encoded gives the bytes back. */
  lemma {:induction false} RoundTrip(s: seq<byte>)
    ensures Decoded(Encoded(s), 0, 0) == s
  {
    hide Group, Decoded;
    if |s| >= 3 {
      GroupDecodes(s[0], s[1], s[2], 3, Encoded(s[3..]));
      RoundTrip(s[3..]);
      assert s == [s[0], s[1], s[2]][..3] + s[3..];
    } else if |s| == 2 {
      GroupDecodes(s[0], s[1], 0, 2, "");
      assert s == [s[0], s[1], 0][..2] && Encoded(s) + "" == Encoded(s);
    } else if |s| == 1 {
      GroupDecodes(s[0], 0, 0, 1, "");
      assert s == [s[0], 0, 0][..1] && Encoded(s) + "" == Encoded(s);
    } else {
      NothingDecoded();
    }
  }

  lemma NothingDecoded()
    ensures Decoded("", 0, 0) == []
  {
  }

  // ---------------------------------------------------------------- the flexible form

  predicate Blank(c: char) {
    c == ' ' || c == '\t' || c == '\n' || c == '\r'
  }

  /** Whitespace dropped, the URL-safe characters replaced. */
  function Normal(t: string): (n: string) {
    if |t| == 0 then ""
    else (if Blank(t[0]) then "" else if t[0] == '-' then "+" else if t[0] == '_' then "/" else [t[0]]) + Normal(t[1..])
  }

  /** `n` padding characters. */
  function Pads(n: nat): (p: string)
    ensures |p| == n
  {
    seq(n, _ => '=')
  }

  /** `b64_decode_flexible`. */
  method DecodeFlexible(t: string) returns (out: seq<byte>)
    ensures out == Decoded(Normal(t) + Pads((4 - |Normal(t)| % 4) % 4), 0, 0)
  {
    hide Decoded;
    var norm := "";
    assert t[0..] == t && norm + Normal(t) == Normal(t);
    for i := 0 to |t|
      invariant Normal(t) == norm + Normal(t[i..])
    {
      assert t[i..][0] == t[i] && t[i..][1..] == t[i + 1..];
      if Blank(t[i]) {
        assert "" + Normal(t[i + 1..]) == Normal(t[i + 1..]);
      } else {
        var c := if t[i] == '-' then '+' else if t[i] == '_' then '/' else t[i];
        Associate(norm, [c], Normal(t[i + 1..]));
        norm := norm + [c];
      }
    }
    assert norm + "" == norm;
    var pad := |norm| % 4;
    if pad != 0 {
      norm := norm + Pads(4 - pad);
    } else {
      assert norm + Pads(0) == norm;
    }
    out := Base64Decode(norm);
  }

  /** Decoding stops at the first padding character, so adding or dropping some changes nothing. */
  lemma {:induction false} PadsIgnored(t: string, n: nat, r: nat, bits: nat)
    requires bits in {0, 2, 4, 6} && r < Room(bits)
    ensures Decoded(t + Pads(n), r, bits) == Decoded(t, r, bits)
    decreases |t|
  {
    if |t| == 0 {
      assert t + Pads(n) == Pads(n);
    } else {
      assert (t + Pads(n))[1..] == t[1..] + Pads(n);
      var v := CharValue(t[0]);
      if v == -2 {
        PadsIgnored(t[1..], n, r, bits);
      } else if v >= 0 && bits == 0 {
        PadsIgnored(t[1..], n, v, 6);
      } else if v >= 0 {
        PadsIgnored(t[1..], n, (r * 64 + v) % Room(bits - 2), bits - 2);
      }
    }
  }

  /**
   * Any spelling of the encoding decodes: URL-safe or standard characters, whitespace anywhere,
   * padding whole, partial or absent.
   */
  lemma FlexibleRoundTrip(s: seq<byte>, t: string, k: nat)
    requires Normal(t) + Pads(k) == Encoded(s)
    ensures Decoded(Normal(t) + Pads((4 - |Normal(t)| % 4) % 4), 0, 0) == s
  {
    RoundTrip(s);
    PadsIgnored(Normal(t), k, 0, 0);
    PadsIgnored(Normal(t), (4 - |Normal(t)| % 4) % 4, 0, 0);
  }
}
