/** The cursor-moving parser (include/keylight/json.hpp:53-325), proved against the functions of `Json`. */
module JsonParser {
  import opened Collections
  import opened Limbs
  import opened Json

  class Parser {
    const src: string
    var p: nat

    ghost predicate Valid()
      reads this
    {
      p <= |src|
    }

    ghost function Rest(): string
      requires Valid()
      reads this
    {
      src[p..]
    }

    constructor (s: string)
      ensures Valid() && src == s && Rest() == s
    {
      src, p := s, 0;
    }

    method SkipSpaces()
      requires Valid()
      modifies this
      ensures Valid() && p >= old(p) && Rest() == SkipWs(old(Rest()))
    {
      ghost var t := Rest();
      while p < |src| && (src[p] == ' ' || src[p] == '\t' || src[p] == '\n' || src[p] == '\r')
        invariant Valid() && p >= old(p) && SkipWs(Rest()) == SkipWs(t)
      {
        assert Rest()[1..] == src[p + 1..];
        p := p + 1;
      }
    }

    predicate Peek(c: char)
      requires Valid()
      reads this
    {
      p < |src| && src[p] == c
    }

    method Consume(c: char) returns (ok: bool)
      requires Valid()
      modifies this
      ensures Valid() && ok == old(Peek(c))
      ensures ok ==> p == old(p) + 1 && Rest() == old(Rest())[1..]
      ensures !ok ==> p == old(p)
    {
      ok := Peek(c);
      if ok {
        p := p + 1;
      }
    }

    /** `hex4`. */
    method ParseHex4() returns (ok: bool, out: nat)
      requires Valid()
      modifies this
      ensures Valid() && p >= old(p)
      ensures Hex4(old(Rest())) == if ok then Some(out) else None
      ensures ok ==> p == old(p) + 4 && out < 0x1_0000
    {
      ghost var t := Rest();
      if |src| - p < 4 {
        return false, 0;
      }
      out := 0;
      for k := 0 to 4
        invariant p == old(p) && HexNumber(t, k) == Some(out)
      {
        assert src[p + k] == t[k];
        var nib := HexDigit(src[p + k]);
        if nib.None? {
          HexFails(t, k + 1, 4);
          return false, 0;
        }
        out := 16 * out + nib.value;
      }
      p := p + 4;
      ok := true;
    }

    /** The case `u` of `parse_string`. */
    method ParseUnicode() returns (ok: bool, out: string)
      requires Valid()
      modifies this
      ensures Valid() && p >= old(p) && (ok ==> p > old(p))
      ensures ReadUnicode(old(Rest())) == if ok then Parsed.Ok(out, Rest()) else Bad
    {
      hide Hex4, Utf8;
      ghost var t := Rest();
      var read, cp := ParseHex4();
      if !read {
        return false, "";
      }
      assert Rest() == t[4..];
      if cp >= 0xD800 && cp <= 0xDBFF {
        if |src| - p < 6 || src[p] != '\\' || src[p + 1] != 'u' {
          return false, "";
        }
        p := p + 2;
        assert Rest() == t[6..];
        var low;
        read, low := ParseHex4();
        if !read {
          return false, "";
        }
        if low < 0xDC00 || low > 0xDFFF {
          return false, "";
        }
        assert Rest() == t[10..];
        cp := 0x1_0000 + 0x400 * (cp - 0xD800) + (low - 0xDC00);
      }
      return true, Utf8(cp);
    }

    /** `parse_string`: past the opening quote. */
    method ParseString() returns (ok: bool, out: string)
      requires Valid()
      modifies this
      ensures Valid() && p >= old(p)
      ensures ReadString(old(Rest())) == if ok then Parsed.Ok(out, Rest()) else Bad
    {
      ghost var t := Rest();
      out := "";
      PrependNothing(ReadString(t));
      while p < |src|
        invariant Valid() && p >= old(p)
        invariant ReadString(t) == Prepend(out, ReadString(Rest()))
      {
        ghost var u := Rest();
        var c := src[p];
        p := p + 1;
        assert u[0] == c && u[1..] == Rest();
        if c == '"' {
          assert out + "" == out;
          return true, out;
        }
        if c == '\\' {
          if p >= |src| {
            return false, out;
          }
          var esc := src[p];
          p := p + 1;
          assert u[2..] == Rest();
          if esc == 'u' {
            var read, x := ParseUnicode();
            if !read {
              return false, out;
            }
            PrependTwice(out, x, ReadString(Rest()));
            out := out + x;
          } else {
            var e := Unescape(esc);
            match e {
              case None => return false, out;
              case Some(x) =>
                PrependTwice(out, [x], ReadString(Rest()));
                out := out + [x];
            }
          }
        } else {
          PrependTwice(out, [c], ReadString(Rest()));
          out := out + [c];
        }
      }
      return false, out;
    }

    /** The digit loop of `parse_number`: 64 bits while the value fits, a double after that. */
    method ParseDigits() returns (ival: i64, big: real, overflow: bool)
      requires Valid() && p < |src| && IsDigit(src[p])
      modifies this
      ensures Valid() && p == old(p) + Span(old(Rest()))
      ensures 0 <= ival && Accumulated(Number(old(Rest())[..Span(old(Rest()))]), ival, big, overflow)
    {
      hide Number, Span;
      ghost var t, k := Rest(), 0;
      NoDigitYet(t);
      ival, big, overflow := 0, 0.0, false;
      while p < |src| && '0' <= src[p] <= '9'
        invariant Valid() && p == old(p) + k && Counted(t, k) && Rest() == t[k..]
        invariant 0 <= ival && Accumulated(Number(t[..k]), ival, big, overflow)
      {
        var digit := Digit(src[p]);
        NextDigit(t, k);
        if !overflow {
          if ival > (MAX64 - digit) / 10 {
            overflow := true;
            big := ival as real;
          } else {
            ival := ival * 10 + digit;
          }
        }
        if overflow {
          big := big * 10.0 + digit as real;
        }
        p := p + 1;
        k := k + 1;
      }
      LastDigit(t, k);
    }

    /** `parse_number`, from the first digit on. */
    method ParseUnsigned(neg: bool) returns (v: Value)
      requires Valid() && p < |src| && IsDigit(src[p])
      modifies this
      ensures Valid() && p >= old(p)
      ensures ReadDigits(neg, old(Rest())) == Parsed.Ok(v, Rest())
    {
      hide Number, Span, TailLength, TailValue, ReadDigits, NumberValue, Accumulated;
      ghost var u := Rest();
      assert u[0] == src[p];
      DigitsAs(neg, u);
      var ival, big, overflow := ParseDigits();
      ghost var t := Rest();
      assert t == u[Span(u)..];
      var x := if overflow then big else ival as real;
      var dval, tail := ParseTail(x);
      if overflow || tail {
        v := Double(if neg then -dval else dval);
      } else {
        v := Int(if neg then -(ival as int) else ival);
      }
      Assembled(neg, Number(u[..Span(u)]), t, ival, big, overflow, tail, dval, v);
    }

    /** Fraction and exponent. */
    method ParseTail(x: real) returns (dval: real, tail: bool)
      requires Valid()
      modifies this
      ensures Valid() && p == old(p) + TailLength(old(Rest())) && (tail <==> TailLength(old(Rest())) > 0)
      ensures Rest() == old(Rest())[TailLength(old(Rest()))..]
      ensures dval == if tail then TailValue(x, old(Rest())) else x
    {
      hide Number, Span, Scaled, Decimals, PointPart, ExponentPart;
      ghost var t := Rest();
      var point, exponent;
      dval, point := ParseFraction(x);
      assert Rest() == t[PointPart(t)..];
      dval, exponent := ParseExponent(dval);
      tail := point || exponent;
      NoExponent(x, t);
    }

    method ParseFraction(x: real) returns (dval: real, point: bool)
      requires Valid()
      modifies this
      ensures Valid() && p == old(p) + PointPart(old(Rest())) && (point <==> PointPart(old(Rest())) > 0)
      ensures var f := PointPart(old(Rest()));
        dval == if point then x + Decimals(Number(old(Rest())[1..f]), f - 1) else x
    {
      hide Number, Span, Decimals;
      ghost var t := Rest();
      dval, point := x, false;
      if Peek('.') {
        point := true;
        p := p + 1;
        ghost var u := Rest();
        assert u == t[1..];
        dval := ParseDecimals(x);
        assert u[..Span(u)] == t[1..1 + Span(u)];
      }
    }

    /** The digits after the point, each worth a tenth of the one before. */
    method ParseDecimals(x: real) returns (dval: real)
      requires Valid()
      modifies this
      ensures Valid() && p == old(p) + Span(old(Rest()))
      ensures dval == x + Decimals(Number(old(Rest())[..Span(old(Rest()))]), Span(old(Rest())))
    {
      hide Number, Span, Decimals;
      dval := x;
      var frac := 0.1;
      ghost var u, k := Rest(), 0;
      NoDigitYet(u);
      NoDecimals();
      while p < |src| && '0' <= src[p] <= '9'
        invariant Valid() && p == old(p) + k && Counted(u, k) && Rest() == u[k..]
        invariant dval == x + Decimals(Number(u[..k]), k) && frac == Decimals(1, k + 1)
      {
        NextDigit(u, k);
        NextDecimal(Number(u[..k]), Digit(u[k]), k);
        dval := dval + Digit(src[p]) as real * frac;
        frac := frac * 0.1;
        p := p + 1;
        k := k + 1;
      }
      LastDigit(u, k);
    }

    /** The exponent part, applied one power of ten at a time. */
    method ParseExponent(x: real) returns (dval: real, exponent: bool)
      requires Valid()
      modifies this
      ensures Valid() && p == old(p) + ExponentPart(old(Rest())) && (exponent <==> ExponentPart(old(Rest())) > 0)
      ensures dval == Scaled(x, old(Rest()), ExponentPart(old(Rest())))
    {
      hide Number, Span, TenTo;
      ghost var t := Rest();
      dval, exponent := x, false;
      if p < |src| && (src[p] == 'e' || src[p] == 'E') {
        exponent := true;
        p := p + 1;
        var eneg := false;
        if p < |src| && (src[p] == '+' || src[p] == '-') {
          eneg := src[p] == '-';
          p := p + 1;
        }
        ghost var h := ExponentHead(t);
        assert p == old(p) + h && (eneg <==> t[1..h] == "-");
        var e := ParsePower();
        assert t[h..][..Span(t[h..])] == t[h..ExponentPart(t)];
        dval := TimesTen(x, e, eneg);
      }
    }

    method ParsePower() returns (e: nat)
      requires Valid()
      modifies this
      ensures Valid() && p == old(p) + Span(old(Rest())) && e == Number(old(Rest())[..Span(old(Rest()))])
    {
      hide Number, Span;
      ghost var t, k := Rest(), 0;
      NoDigitYet(t);
      e := 0;
      while p < |src| && '0' <= src[p] <= '9'
        invariant Valid() && p == old(p) + k && Counted(t, k) && Rest() == t[k..]
        invariant e == Number(t[..k])
      {
        NextDigit(t, k);
        e := e * 10 + Digit(src[p]);
        p := p + 1;
        k := k + 1;
      }
      LastDigit(t, k);
    }

    method ParseNumber() returns (ok: bool, v: Value)
      requires Valid()
      modifies this
      ensures Valid() && p >= old(p)
      ensures ReadNumber(old(Rest())) == if ok then Parsed.Ok(v, Rest()) else Bad
    {
      hide ReadDigits;
      var neg := false;
      if Peek('-') {
        neg := true;
        p := p + 1;
      }
      DigitsAs(neg, Rest());
      if p >= |src| || src[p] < '0' || src[p] > '9' {
        return false, Null;
      }
      v := ParseUnsigned(neg);
      ok := true;
    }

    method ParseWord(word: string, w: Value) returns (ok: bool, v: Value)
      requires Valid() && |word| > 0
      modifies this
      ensures Valid() && p >= old(p)
      ensures ReadWord(old(Rest()), word, w) == if ok then Parsed.Ok(v, Rest()) else Bad
    {
      v := w;
      ok := |src| - p >= |word| && src[p..p + |word|] == word;
      assert ok <==> word <= Rest();
      if ok {
        p := p + |word|;
      }
    }

    /** `parse_value`. */
    method ParseValue() returns (ok: bool, v: Value)
      requires Valid()
      modifies this
      ensures Valid() && p >= old(p)
      ensures ReadValue(old(Rest())) == if ok then Parsed.Ok(v, Rest()) else Bad
      decreases |src| - p, 2
    {
      hide ReadString, ReadNumber, ReadMembers, ReadElems, ReadWord, SkipWs;
      ghost var t := Rest();
      SkipSpaces();
      if p >= |src| {
        return false, Null;
      }
      var c := src[p];
      assert c == Rest()[0];
      if c == '"' {
        p := p + 1;
        var s;
        ok, s := ParseString();
        v := String(s);
      } else if c == '{' {
        p := p + 1;
        ok, v := ParseObject();
      } else if c == '[' {
        p := p + 1;
        ok, v := ParseArray();
      } else if c == 't' {
        ok, v := ParseWord("true", Bool(true));
      } else if c == 'f' {
        ok, v := ParseWord("false", Bool(false));
      } else if c == 'n' {
        ok, v := ParseWord("null", Null);
      } else if c == '-' || '0' <= c <= '9' {
        ok, v := ParseNumber();
      } else {
        return false, Null;
      }
    }

    /** The members of an object, past the opening brace. */
    method ParseObject() returns (ok: bool, v: Value)
      requires Valid()
      modifies this
      ensures Valid() && p >= old(p)
      ensures (var u := SkipWs(old(Rest()));
        if |u| > 0 && u[0] == '}' then Parsed.Ok(Object([]), u[1..]) else ReadMembers(u, []))
        == if ok then Parsed.Ok(v, Rest()) else Bad
      decreases |src| - p, 1
    {
      hide ReadString, ReadValue, Put, SkipWs;
      SkipSpaces();
      ghost var u := Rest();
      var closed := Consume('}');
      if closed {
        return true, Object([]);
      }
      var m: seq<Member> := [];
      while true
        invariant Valid() && p >= old(p) && ReadMembers(u, []) == ReadMembers(Rest(), m)
        decreases |src| - p
      {
        SkipSpaces();
        var quote := Consume('"');
        if !quote {
          return false, Null;
        }
        var read, name := ParseString();
        if !read {
          return false, Null;
        }
        SkipSpaces();
        var colon := Consume(':');
        if !colon {
          return false, Null;
        }
        SkipSpaces();
        var val;
        read, val := ParseValue();
        if !read {
          return false, Null;
        }
        m := Put(m, name, val);
        SkipSpaces();
        closed := Consume('}');
        if closed {
          return true, Object(m);
        }
        var comma := Consume(',');
        if !comma {
          return false, Null;
        }
      }
    }

    /** The elements of an array, past the opening bracket. */
    method ParseArray() returns (ok: bool, v: Value)
      requires Valid()
      modifies this
      ensures Valid() && p >= old(p)
      ensures (var u := SkipWs(old(Rest()));
        if |u| > 0 && u[0] == ']' then Parsed.Ok(Array([]), u[1..]) else ReadElems(u, []))
        == if ok then Parsed.Ok(v, Rest()) else Bad
      decreases |src| - p, 3
    {
      SkipSpaces();
      ghost var u := Rest();
      var closed := Consume(']');
      if closed {
        return true, Array([]);
      }
      var a: seq<Value> := [];
      while true
        invariant Valid() && p >= old(p) && ReadElems(u, []) == ReadElems(Rest(), a)
        decreases |src| - p
      {
        SkipSpaces();
        var read, elem := ParseValue();
        if !read {
          return false, Null;
        }
        a := a + [elem];
        SkipSpaces();
        closed := Consume(']');
        if closed {
          return true, Array(a);
        }
        var comma := Consume(',');
        if !comma {
          return false, Null;
        }
      }
    }
  }

  lemma PrependTwice(a: string, b: string, r: Parsed<string>)
    ensures Prepend(a, Prepend(b, r)) == Prepend(a + b, r)
  {
    if r.Ok? {
      assert a + (b + r.value) == (a + b) + r.value;
    }
  }

  lemma PrependNothing(r: Parsed<string>)
    ensures Prepend("", r) == r
  {
    if r.Ok? {
      assert "" + r.value == r.value;
    }
  }

  lemma {:induction false} HexFails(t: string, m: nat, n: nat)
    requires m <= n <= |t| && HexNumber(t, m).None?
    ensures HexNumber(t, n).None?
  {
    if m < n {
      HexFails(t, m, n - 1);
    }
  }

  /** Multiplying or dividing by ten `e` times. */
  method TimesTen(x: real, e: nat, down: bool) returns (y: real)
    ensures y == if down then x / TenTo(e) else x * TenTo(e)
  {
    y := x;
    for k := 0 to e
      invariant y == if down then x / TenTo(k) else x * TenTo(k)
    {
      NextPower(x, TenTo(k));
      y := if down then y / 10.0 else y * 10.0;
    }
  }

  lemma NextPower(x: real, t: real)
    requires t > 0.0
    ensures x / t / 10.0 == x / (10.0 * t) && x * t * 10.0 == x * (10.0 * t)
  {
  }

  /** What the digit loop has made of the number `n`. */
  ghost predicate Accumulated(n: nat, ival: i64, big: real, overflow: bool) {
    if overflow then n > MAX64 && big == n as real else n == ival
  }

  lemma Assembled(neg: bool, n: nat, t: string, ival: i64, big: real, overflow: bool, tail: bool, dval: real, v: Value)
    requires Accumulated(n, ival, big, overflow) && (tail <==> TailLength(t) > 0)
    requires var x := if overflow then big else ival as real; dval == if tail then TailValue(x, t) else x
    requires v == if overflow || tail then Double(if neg then -dval else dval) else Int(if neg then -(ival as int) else ival)
    ensures v == NumberValue(neg, n, t)
  {
    hide TailLength, TailValue;
  }

  lemma DigitsAs(neg: bool, u: string)
    ensures var n := Span(u);
      ReadDigits(neg, u) ==
        if n == 0 then Bad else Ok(NumberValue(neg, Number(u[..n]), u[n..]), u[n..][TailLength(u[n..])..])
    ensures Span(u) == 0 <==> |u| == 0 || !IsDigit(u[0])
  {
    hide Number, TailLength, NumberValue;
  }

  lemma NoExponent(x: real, t: string)
    ensures TailLength(t) == 0 ==> TailValue(x, t) == x
  {
    hide PointPart, ExponentPart;
  }

  lemma NoDecimals()
    ensures Decimals(0, 0) == 0.0 && Decimals(1, 1) == 0.1
  {
    assert TenTo(1) == 10.0 * TenTo(0);
  }

  lemma NextDecimal(n: nat, d: nat, k: nat)
    ensures Decimals(n, k) + d as real * Decimals(1, k + 1) == Decimals(10 * n + d, k + 1)
    ensures Decimals(1, k + 1) * 0.1 == Decimals(1, k + 2)
  {
    var t := TenTo(k);
    assert TenTo(k + 1) == 10.0 * t && TenTo(k + 2) == 10.0 * (10.0 * t);
    Tenths(n as real, d as real, t);
    assert (10 * n + d) as real == 10.0 * (n as real) + d as real;
  }

  lemma Tenths(n: real, d: real, t: real)
    requires t > 0.0
    ensures n / t + d * (1.0 / (10.0 * t)) == (10.0 * n + d) / (10.0 * t)
    ensures (1.0 / (10.0 * t)) * 0.1 == 1.0 / (10.0 * (10.0 * t))
  {
  }

  /** The first `k` characters are digits a loop has gone over. */
  ghost predicate Counted(t: string, k: nat) {
    k <= |t| && Digits(t[..k]) && k <= Span(t)
  }

  lemma NoDigitYet(t: string)
    ensures Counted(t, 0) && Number(t[..0]) == 0
  {
  }

  lemma NextDigit(t: string, k: nat)
    requires Counted(t, k) && k < |t| && IsDigit(t[k])
    ensures Counted(t, k + 1) && Number(t[..k + 1]) == 10 * Number(t[..k]) + Digit(t[k])
  {
    assert t[..k + 1][..k] == t[..k];
  }

  lemma LastDigit(t: string, k: nat)
    requires Counted(t, k) && (k < |t| ==> !IsDigit(t[k]))
    ensures k == Span(t)
  {
  }

  /** `Json::parse`. */
  method ParseText(src: string) returns (r: Option<Value>)
    ensures r == Parse(src)
  {
    if |src| == 0 {
      return None;
    }
    var parser := new Parser(src);
    var ok, v := parser.ParseValue();
    if !ok {
      return None;
    }
    parser.SkipSpaces();
    if parser.p < |src| {
      return None;
    }
    r := Some(v);
  }
}
