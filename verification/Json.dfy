/**
 * The JSON reader of the client (include/keylight/json.hpp) and the text its writers produce
 * (include/keylight/client.hpp:1744-1756, 1826-1846). A byte is modelled by the character with
 * its code; only ASCII characters mean anything to the reader.
 */
module Json {
  import opened Collections
  import opened Limbs

  // ---------------------------------------------------------------- values

  /** Members keep insertion order; no two have the same name. */
  datatype Value =
    | Null
    | Bool(b: bool)
    | Int(i: i64)
    | Double(d: real)
    | String(s: string)
    | Array(elems: seq<Value>)
    | Object(members: seq<Member>)

  datatype Member = Member(name: string, value: Value)

  function Find(m: seq<Member>, name: string): (i: nat)
    ensures i <= |m|
    ensures i < |m| ==> m[i].name == name
    ensures forall k :: 0 <= k < i ==> m[k].name != name
  {
    if |m| == 0 || m[0].name == name then 0 else 1 + Find(m[1..], name)
  }

  /** `obj_map[name] = value`: the first position of a repeated name stays, with the last value. */
  function Put(m: seq<Member>, name: string, value: Value): (n: seq<Member>) {
    var i := Find(m, name);
    if i < |m| then m[i := Member(name, value)] else m + [Member(name, value)]
  }

  /** `operator[]`. */
  function Get(v: Value, name: string): (r: Value) {
    if v.Object? && Find(v.members, name) < |v.members| then v.members[Find(v.members, name)].value else Null
  }

  function Has(v: Value, name: string): bool {
    v.Object? && Find(v.members, name) < |v.members|
  }

  function Size(v: Value): nat {
    match v
    case Array(e) => |e|
    case Object(m) => |m|
    case _ => 0
  }

  function AsString(v: Value): string {
    if v.String? then v.s else ""
  }

  const MAX64: int := 0x7fff_ffff_ffff_ffff
  const MIN64: int := -0x8000_0000_0000_0000

  /** `as_int`; a double saturates and otherwise truncates toward zero. */
  function AsInt(v: Value): (i: i64) {
    match v
    case Int(i) => i
    case Double(d) =>
      if d >= 9223372036854775808.0 then MAX64
      else if d < -9223372036854775808.0 then MIN64
      else if d >= 0.0 then d.Floor else -((-d).Floor)
    case _ => 0
  }

  /** A double within the 64-bit range is cut off toward zero; one outside becomes the nearer end. */
  lemma AsIntTruncates(d: real)
    ensures var i := AsInt(Double(d)) as int;
      && (0.0 <= d < 9223372036854775808.0 ==> i as real <= d < (i + 1) as real)
      && (-9223372036854775808.0 <= d < 0.0 ==> (i - 1) as real < d <= i as real)
      && (d >= 9223372036854775808.0 ==> i == 0x7fff_ffff_ffff_ffff)
      && (d < -9223372036854775808.0 ==> i == -0x8000_0000_0000_0000)
  {
    if d < 0.0 {
      assert (-d).Floor as real <= -d < ((-d).Floor + 1) as real;
    }
  }

  function AsBool(v: Value): bool {
    v.Bool? && v.b
  }

  // ---------------------------------------------------------------- numbers

  predicate IsDigit(c: char) {
    '0' <= c <= '9'
  }

  function Digit(c: char): (d: nat)
    requires IsDigit(c)
    ensures d < 10
  {
    c as int - '0' as int
  }

  function DigitChar(d: nat): (c: char)
    requires d < 10
    ensures IsDigit(c) && Digit(c) == d
  {
    ('0' as int + d) as char
  }

  /** How many digits `t` starts with. */
  function Span(t: string): (n: nat)
    ensures n <= |t| && forall k :: 0 <= k < n ==> IsDigit(t[k])
    ensures n < |t| ==> !IsDigit(t[n])
  {
    if |t| > 0 && IsDigit(t[0]) then 1 + Span(t[1..]) else 0
  }

  ghost predicate Digits(t: string) {
    forall k :: 0 <= k < |t| ==> IsDigit(t[k])
  }

  /** The number a string of digits denotes. */
  function Number(t: string): (n: nat)
    requires Digits(t)
  {
    if |t| == 0 then 0 else 10 * Number(t[..|t| - 1]) + Digit(t[|t| - 1])
  }

  /** `std::to_string`. */
  function Decimal(n: nat): (t: string)
    ensures |t| > 0 && Digits(t)
  {
    if n < 10 then [DigitChar(n)] else Decimal(n / 10) + [DigitChar(n % 10)]
  }

  function ToString(i: i64): (t: string) {
    if i < 0 then "-" + Decimal(-(i as int)) else Decimal(i)
  }

  lemma {:induction false} DecimalNumber(n: nat)
    ensures Number(Decimal(n)) == n
  {
    var t := Decimal(n);
    if n >= 10 {
      DecimalNumber(n / 10);
      assert t[..|t| - 1] == Decimal(n / 10);
    }
  }

  lemma {:induction false} SpanDigits(t: string, post: string)
    requires Digits(t) && (|post| > 0 ==> !IsDigit(post[0]))
    ensures Span(t + post) == |t|
  {
    if |t| > 0 {
      assert (t + post)[1..] == t[1..] + post;
      SpanDigits(t[1..], post);
    } else {
      assert t + post == post;
    }
  }

  // ---------------------------------------------------------------- reading

  datatype Parsed<T> = Ok(value: T, rest: string) | Bad

  predicate IsSpace(c: char) {
    c == ' ' || c == '\t' || c == '\n' || c == '\r'
  }

  function SkipWs(t: string): (r: string)
    ensures |r| <= |t|
    ensures |r| > 0 ==> !IsSpace(r[0])
  {
    if |t| > 0 && IsSpace(t[0]) then SkipWs(t[1..]) else t
  }

  /** What a backslash and this character stand for. */
  function Unescape(c: char): (r: Option<char>) {
    if c == '"' || c == '\\' || c == '/' then Some(c)
    else if c == 'b' then Some(8 as char)
    else if c == 'f' then Some(12 as char)
    else if c == 'n' then Some('\n')
    else if c == 'r' then Some('\r')
    else if c == 't' then Some('\t')
    else None
  }

  function HexDigit(c: char): (d: Option<nat>)
    ensures d.Some? ==> d.value < 16
  {
    if IsDigit(c) then Some(c as int - '0' as int)
    else if 'a' <= c <= 'f' then Some(c as int - 'a' as int + 10)
    else if 'A' <= c <= 'F' then Some(c as int - 'A' as int + 10)
    else None
  }

  /** The number the first `n` characters spell in hexadecimal. */
  function HexNumber(t: string, n: nat): (v: Option<nat>)
    requires n <= |t|
  {
    if n == 0 then Some(0)
    else
      var high, low := HexNumber(t, n - 1), HexDigit(t[n - 1]);
      if high.Some? && low.Some? then Some(16 * high.value + low.value) else None
  }

  lemma {:induction false} HexBound(t: string, n: nat)
    requires n <= |t| && HexNumber(t, n).Some?
    ensures HexNumber(t, n).value < Pow(16, n)
  {
    if n > 0 {
      HexBound(t, n - 1);
    }
  }

  /** Four hexadecimal digits. */
  function Hex4(t: string): (v: Option<nat>)
    ensures v.Some? ==> |t| >= 4 && v.value < 0x1_0000
  {
    if |t| < 4 then None
    else
      assert HexNumber(t, 4).Some? ==> HexNumber(t, 4).value < 0x1_0000 by {
        if HexNumber(t, 4).Some? {
          HexBound(t, 4);
          assert Pow(16, 2) == 256 && Pow(16, 4) == 0x1_0000;
        }
      }
      HexNumber(t, 4)
  }

  function Byte(n: nat): (c: char)
    requires n < 256
  {
    n as char
  }

  /** UTF-8 (RFC 3629, section 3). */
  function Utf8(cp: nat): (s: string)
    requires cp < 0x11_0000
  {
    if cp < 0x80 then [Byte(cp)]
    else if cp < 0x800 then [Byte(0xC0 + cp / 64), Byte(0x80 + cp % 64)]
    else if cp < 0x1_0000 then [Byte(0xE0 + cp / 4096), Byte(0x80 + cp / 64 % 64), Byte(0x80 + cp % 64)]
    else [Byte(0xF0 + cp / 0x4_0000), Byte(0x80 + cp / 4096 % 64), Byte(0x80 + cp / 64 % 64), Byte(0x80 + cp % 64)]
  }

  /** What follows a backslash and `u`: one code unit, or a surrogate pair (RFC 8259, section 7). */
  function ReadUnicode(t: string): (r: Parsed<string>)
    ensures r.Ok? ==> |r.rest| < |t|
  {
    match Hex4(t)
    case None => Bad
    case Some(cp) =>
      if 0xD800 <= cp <= 0xDBFF then
        if |t| < 10 || t[4] != '\\' || t[5] != 'u' then Bad
        else match Hex4(t[6..])
          case None => Bad
          case Some(low) =>
            if low < 0xDC00 || low > 0xDFFF then Bad
            else Ok(Utf8(0x1_0000 + 0x400 * (cp - 0xD800) + (low - 0xDC00)), t[10..])
      else Ok(Utf8(cp), t[4..])
  }

  /** A string, past its opening quote. */
  function ReadString(t: string): (r: Parsed<string>)
    ensures r.Ok? ==> |r.rest| < |t|
  {
    if |t| == 0 then Bad
    else if t[0] == '"' then Ok("", t[1..])
    else if t[0] == '\\' then
      if |t| < 2 then Bad
      else if t[1] == 'u' then
        match ReadUnicode(t[2..])
        case Bad => Bad
        case Ok(s, rest) => Prepend(s, ReadString(rest))
      else match Unescape(t[1])
        case None => Bad
        case Some(c) => Prepend([c], ReadString(t[2..]))
    else Prepend([t[0]], ReadString(t[1..]))
  }

  function Prepend(s: string, r: Parsed<string>): (p: Parsed<string>) {
    match r
    case Ok(v, rest) => Ok(s + v, rest)
    case Bad => Bad
  }

  /** An integer: exact as long as it fits 64 bits, a double beyond that. */
  function IntegerValue(neg: bool, n: nat): (v: Value) {
    if n <= MAX64 then Int(if neg then -(n as int) else n) else Double(if neg then -(n as real) else n as real)
  }

  function TenTo(n: nat): (x: real)
    ensures x > 0.0
  {
    if n == 0 then 1.0 else 10.0 * TenTo(n - 1)
  }

  /** `n` as the first `k` digits after a point. */
  function Decimals(n: nat, k: nat): (x: real) {
    n as real / TenTo(k)
  }

  /** A point and the digits after it, if `t` starts with a point. */
  function PointPart(t: string): (n: nat)
    ensures n <= |t| && (n == 0 <==> |t| == 0 || t[0] != '.')
    ensures n > 0 ==> Digits(t[1..n])
  {
    if |t| > 0 && t[0] == '.' then
      assert t[1..][..Span(t[1..])] == t[1..1 + Span(t[1..])];
      1 + Span(t[1..])
    else 0
  }

  predicate IsSign(c: char) {
    c == '+' || c == '-'
  }

  /** How many characters of an exponent come before its digits. */
  function ExponentHead(t: string): (n: nat)
    ensures n <= |t| && (n == 0 <==> |t| == 0 || (t[0] != 'e' && t[0] != 'E'))
  {
    if |t| == 0 || (t[0] != 'e' && t[0] != 'E') then 0
    else if |t| > 1 && IsSign(t[1]) then 2 else 1
  }

  /** An exponent: its digits may be missing. */
  function ExponentPart(t: string): (n: nat)
    ensures ExponentHead(t) <= n <= |t| && (n == 0 <==> ExponentHead(t) == 0)
    ensures n > 0 ==> Digits(t[ExponentHead(t)..n])
  {
    var h := ExponentHead(t);
    if h == 0 then 0
    else
      assert t[h..][..Span(t[h..])] == t[h..h + Span(t[h..])];
      h + Span(t[h..])
  }

  /** `x` times ten to the exponent, or over it. */
  function Scaled(x: real, t: string, n: nat): (y: real)
    requires n == ExponentPart(t)
  {
    if n == 0 then x
    else
      var power := TenTo(Number(t[ExponentHead(t)..n]));
      if t[1..ExponentHead(t)] == "-" then x / power else x * power
  }

  /** How much of `t` is a fraction and an exponent. */
  function TailLength(t: string): (n: nat)
    ensures n <= |t| && (n == 0 <==> |t| == 0 || (t[0] != '.' && t[0] != 'e' && t[0] != 'E'))
  {
    PointPart(t) + ExponentPart(t[PointPart(t)..])
  }

  /** `x` with the fraction and the exponent `t` starts with. */
  function TailValue(x: real, t: string): (y: real) {
    var f := PointPart(t);
    Scaled(if f == 0 then x else x + Decimals(Number(t[1..f]), f - 1), t[f..], ExponentPart(t[f..]))
  }

  /** With a fraction or an exponent it is a double whatever its digits. */
  function NumberValue(neg: bool, n: nat, t: string): (v: Value) {
    if TailLength(t) == 0 then IntegerValue(neg, n)
    else Double(if neg then -TailValue(n as real, t) else TailValue(n as real, t))
  }

  function ReadDigits(neg: bool, t: string): (r: Parsed<Value>)
    ensures r.Ok? ==> |r.rest| < |t|
  {
    var n := Span(t);
    if n == 0 then Bad else Ok(NumberValue(neg, Number(t[..n]), t[n..]), t[n..][TailLength(t[n..])..])
  }

  function ReadNumber(t: string): (r: Parsed<Value>)
    ensures r.Ok? ==> |r.rest| < |t|
  {
    if |t| > 0 && t[0] == '-' then ReadDigits(true, t[1..]) else ReadDigits(false, t)
  }

  function ReadWord(t: string, word: string, v: Value): (r: Parsed<Value>)
    requires |word| > 0
    ensures r.Ok? ==> |r.rest| < |t|
  {
    if word <= t then Ok(v, t[|word|..]) else Bad
  }

  function ReadValue(t: string): (r: Parsed<Value>)
    ensures r.Ok? ==> |r.rest| < |t|
    decreases |t|, 1
  {
    var t := SkipWs(t);
    if |t| == 0 then Bad
    else if t[0] == '"' then
      match ReadString(t[1..])
      case Ok(s, rest) => Ok(String(s), rest)
      case Bad => Bad
    else if t[0] == '{' then
      var u := SkipWs(t[1..]);
      if |u| > 0 && u[0] == '}' then Ok(Object([]), u[1..]) else ReadMembers(u, [])
    else if t[0] == '[' then
      var u := SkipWs(t[1..]);
      if |u| > 0 && u[0] == ']' then Ok(Array([]), u[1..]) else ReadElems(u, [])
    else if t[0] == 't' then ReadWord(t, "true", Bool(true))
    else if t[0] == 'f' then ReadWord(t, "false", Bool(false))
    else if t[0] == 'n' then ReadWord(t, "null", Null)
    else if t[0] == '-' || IsDigit(t[0]) then ReadNumber(t)
    else Bad
  }

  /** The loop over members, `m` read so far. */
  function ReadMembers(t: string, m: seq<Member>): (r: Parsed<Value>)
    ensures r.Ok? ==> |r.rest| < |t|
    decreases |t|, 0
  {
    var t := SkipWs(t);
    if |t| == 0 || t[0] != '"' then Bad
    else match ReadString(t[1..])
      case Bad => Bad
      case Ok(name, rest) =>
        var u := SkipWs(rest);
        if |u| == 0 || u[0] != ':' then Bad
        else match ReadValue(SkipWs(u[1..]))
          case Bad => Bad
          case Ok(v, rest) =>
            var u := SkipWs(rest);
            if |u| == 0 then Bad
            else if u[0] == '}' then Ok(Object(Put(m, name, v)), u[1..])
            else if u[0] == ',' then ReadMembers(u[1..], Put(m, name, v))
            else Bad
  }

  /** The loop over elements, `a` read so far. */
  function ReadElems(t: string, a: seq<Value>): (r: Parsed<Value>)
    ensures r.Ok? ==> |r.rest| < |t|
    decreases |t|, 2
  {
    match ReadValue(SkipWs(t))
    case Bad => Bad
    case Ok(v, rest) =>
      var u := SkipWs(rest);
      if |u| == 0 then Bad
      else if u[0] == ']' then Ok(Array(a + [v]), u[1..])
      else if u[0] == ',' then ReadElems(u[1..], a + [v])
      else Bad
  }

  /** `Json::parse`. */
  function Parse(t: string): (r: Option<Value>) {
    match ReadValue(t)
    case Bad => None
    case Ok(v, rest) => if SkipWs(rest) == "" then Some(v) else None
  }

  // ---------------------------------------------------------------- writing

  function EscapeChar(c: char): (e: string) {
    if c == '"' then "\\\""
    else if c == '\\' then "\\\\"
    else if c == '\n' then "\\n"
    else if c == '\r' then "\\r"
    else if c == '\t' then "\\t"
    else [c]
  }

  function Escape(s: string): (e: string) {
    if |s| == 0 then "" else EscapeChar(s[0]) + Escape(s[1..])
  }

  /** `json_str`. */
  function Quote(s: string): (q: string) {
    "\"" + Escape(s) + "\""
  }

  /** Any tree of strings, 64-bit integers, booleans, arrays and objects, as the client writes it. */
  function Text(v: Value): (t: string)
    requires Writable(v)
    decreases v
  {
    match v
    case String(s) => Quote(s)
    case Int(i) => ToString(i)
    case Bool(b) => if b then "true" else "false"
    case Array(e) => "[" + ElemsText(e) + "]"
    case Object(m) => "{" + MembersText(m) + "}"
  }

  function ElemsText(e: seq<Value>): (t: string)
    requires AllWritable(e)
    decreases e
  {
    if |e| == 0 then "" else if |e| == 1 then Text(e[0]) else Text(e[0]) + "," + ElemsText(e[1..])
  }

  function MembersText(m: seq<Member>): (t: string)
    requires MembersWritable(m)
    decreases m
  {
    if |m| == 0 then ""
    else
      var t := Quote(m[0].name) + ":" + Text(m[0].value);
      if |m| == 1 then t else t + "," + MembersText(m[1..])
  }

  predicate Writable(v: Value)
    decreases v, 0
  {
    match v
    case Null => false
    case Double(_) => false
    case Array(e) => AllWritable(e)
    case Object(m) => Distinct(m) && MembersWritable(m)
    case _ => true
  }

  predicate AllWritable(e: seq<Value>)
    decreases e
  {
    |e| > 0 ==> Writable(e[0]) && AllWritable(e[1..])
  }

  predicate MembersWritable(m: seq<Member>)
    decreases m
  {
    |m| > 0 ==> Writable(m[0].value) && MembersWritable(m[1..])
  }

  predicate Distinct(m: seq<Member>) {
    forall i, j :: 0 <= i < j < |m| ==> m[i].name != m[j].name
  }

  /** The parts with commas between them, as the loops that append build them. */
  function Joined(parts: seq<string>): (t: string) {
    if |parts| == 0 then ""
    else if |parts| == 1 then parts[0]
    else Joined(parts[..|parts| - 1]) + "," + parts[|parts| - 1]
  }

  lemma {:induction false} JoinedFront(parts: seq<string>)
    requires |parts| > 1
    ensures Joined(parts) == parts[0] + "," + Joined(parts[1..])
  {
    var n := |parts| - 1;
    if n > 1 {
      JoinedFront(parts[..n]);
      assert parts[..n][1..] == parts[1..][..n - 1];
      assert Joined(parts[1..]) == Joined(parts[1..][..n - 1]) + "," + parts[n];
    }
  }

  lemma JoinedAppend(parts: seq<string>, p: string)
    ensures Joined(parts + [p]) == if |parts| == 0 then p else Joined(parts) + "," + p
  {
    assert (parts + [p])[..|parts|] == parts;
  }

  function ElemParts(e: seq<Value>): (p: seq<string>)
    requires AllWritable(e)
    ensures |p| == |e|
  {
    if |e| == 0 then [] else [Text(e[0])] + ElemParts(e[1..])
  }

  function MemberPart(m: Member): (p: string)
    requires Writable(m.value)
  {
    Quote(m.name) + ":" + Text(m.value)
  }

  function MemberParts(m: seq<Member>): (p: seq<string>)
    requires MembersWritable(m)
    ensures |p| == |m|
  {
    if |m| == 0 then [] else [MemberPart(m[0])] + MemberParts(m[1..])
  }

  lemma {:induction false} ElemsTextJoined(e: seq<Value>)
    requires AllWritable(e)
    ensures ElemsText(e) == Joined(ElemParts(e))
  {
    if |e| > 0 {
      ElemsTextJoined(e[1..]);
      var p := ElemParts(e);
      assert p[1..] == ElemParts(e[1..]);
      if |e| > 1 {
        JoinedFront(p);
      }
    }
  }

  lemma {:induction false} MembersTextJoined(m: seq<Member>)
    requires MembersWritable(m)
    ensures MembersText(m) == Joined(MemberParts(m))
  {
    if |m| > 0 {
      MembersTextJoined(m[1..]);
      var p := MemberParts(m);
      assert p[1..] == MemberParts(m[1..]);
      if |m| > 1 {
        JoinedFront(p);
      }
    }
  }

  // ---------------------------------------------------------------- the reader undoes the writer

  /** RFC 8259 section 7: how a text can spell one character or code point of a string. */
  datatype Piece =
    | Raw(c: char)
    | Short(e: char)                     // a backslash and one of eight characters
    | Unit(digits: string)               // a backslash, u and four hexadecimal digits
    | Pair(high: string, low: string)    // two of those for a surrogate pair

  /** What the short escapes stand for, by character code. */
  function ShortCode(e: char): (code: Option<nat>) {
    match e
    case '"' => Some(0x22)
    case '\\' => Some(0x5C)
    case '/' => Some(0x2F)
    case 'b' => Some(0x08)
    case 'f' => Some(0x0C)
    case 'n' => Some(0x0A)
    case 'r' => Some(0x0D)
    case 't' => Some(0x09)
    case _ => None
  }

  /** A hexadecimal digit, in either case, by its place in the table. */
  ghost predicate IsHex(c: char, v: nat) {
    v < 16 && (c == "0123456789abcdef"[v] || c == "0123456789ABCDEF"[v])
  }

  /** Four hexadecimal digits spell `n`. */
  ghost predicate SpellsUnit(d: string, n: nat) {
    && |d| == 4 && n < 0x1_0000
    && IsHex(d[0], n / 4096) && IsHex(d[1], n / 256 % 16) && IsHex(d[2], n / 16 % 16) && IsHex(d[3], n % 16)
  }

  /** The piece spells the bytes `s`. The reader takes control characters as they are, and a lone second half of a pair. */
  ghost predicate Spells(p: Piece, s: string) {
    match p
    case Raw(c) => c != '"' && c != '\\' && s == [c]
    case Short(e) => ShortCode(e).Some? && s == [ShortCode(e).value as char]
    case Unit(d) => exists n: nat :: SpellsUnit(d, n) && !(0xD800 <= n <= 0xDBFF) && s == Utf8(n)
    case Pair(h, l) => exists m: nat, n: nat :: SpellsPair(h, l, m, n, s)
  }

  ghost predicate SpellsPair(h: string, l: string, m: nat, n: nat, s: string) {
    && SpellsUnit(h, m) && SpellsUnit(l, n) && 0xD800 <= m <= 0xDBFF && 0xDC00 <= n <= 0xDFFF
    && s == Utf8(0x1_0000 + (m - 0xD800) * 0x400 + (n - 0xDC00))
  }

  function PieceText(p: Piece): (t: string) {
    match p
    case Raw(c) => [c]
    case Short(e) => ['\\', e]
    case Unit(d) => "\\u" + d
    case Pair(h, l) => "\\u" + h + "\\u" + l
  }

  function PiecesText(p: seq<Piece>): (t: string) {
    if |p| == 0 then "" else PieceText(p[0]) + PiecesText(p[1..])
  }

  /** The pieces, one after the other, spell `s`. */
  ghost predicate AllSpell(p: seq<Piece>, s: string) {
    if |p| == 0 then s == ""
    else exists k: nat :: FirstSpells(p, s, k)
  }

  ghost predicate FirstSpells(p: seq<Piece>, s: string, k: nat) {
    |p| > 0 && k <= |s| && Spells(p[0], s[..k]) && AllSpell(p[1..], s[k..])
  }

  lemma HexIs(c: char, v: nat)
    ensures IsHex(c, v) <==> HexDigit(c) == Some(v)
  {
    if v < 10 {
      assert "0123456789abcdef"[v] == DigitChar(v) && "0123456789ABCDEF"[v] == DigitChar(v);
    } else if v < 16 {
      assert "0123456789abcdef"[v] == ('a' as int + v - 10) as char;
      assert "0123456789ABCDEF"[v] == ('A' as int + v - 10) as char;
    }
  }

  lemma HexNext(t: string, k: nat, v: nat, d: nat)
    requires k < |t| && HexNumber(t, k) == Some(v) && HexDigit(t[k]) == Some(d)
    ensures HexNumber(t, k + 1) == Some(16 * v + d)
  {
  }

  lemma HexDigitsOf(n: nat)
    ensures n == 16 * (16 * (16 * (n / 4096) + n / 256 % 16) + n / 16 % 16) + n % 16
  {
    assert n / 16 / 16 == n / 256 && n / 256 / 16 == n / 4096;
  }

  lemma FourHex(d: string, a: nat, b: nat, c: nat, e: nat, post: string)
    requires |d| == 4 && IsHex(d[0], a) && IsHex(d[1], b) && IsHex(d[2], c) && IsHex(d[3], e)
    ensures HexNumber(d + post, 4) == Some(16 * (16 * (16 * a + b) + c) + e)
  {
    HexIs(d[0], a);
    HexIs(d[1], b);
    HexIs(d[2], c);
    HexIs(d[3], e);
    var t := d + post;
    assert HexNumber(t, 0) == Some(0);
    hide HexDigit, IsHex, HexNumber;
    HexNext(t, 0, 0, a);
    HexNext(t, 1, a, b);
    HexNext(t, 2, 16 * a + b, c);
    HexNext(t, 3, 16 * (16 * a + b) + c, e);
  }

  lemma UnitReads(d: string, n: nat, post: string)
    requires SpellsUnit(d, n)
    ensures Hex4(d + post) == Some(n) && (d + post)[4..] == post
  {
    hide IsHex, HexNumber;
    FourHex(d, n / 4096, n / 256 % 16, n / 16 % 16, n % 16, post);
    HexDigitsOf(n);
  }

  lemma ShortReads(e: char, tail: string)
    requires ShortCode(e).Some?
    ensures ReadString(['\\', e] + tail) == Prepend([ShortCode(e).value as char], ReadString(tail))
  {
    var t := ['\\', e] + tail;
    assert t[2..] == tail;
  }

  lemma RawReads(c: char, tail: string)
    requires c != '"' && c != '\\'
    ensures ReadString([c] + tail) == Prepend([c], ReadString(tail))
  {
    assert ([c] + tail)[1..] == tail;
  }

  lemma EscapedReads(t: string, s: string, tail: string)
    requires ReadUnicode(t) == Ok(s, tail)
    ensures ReadString("\\u" + t) == Prepend(s, ReadString(tail))
  {
    hide ReadUnicode;
    assert ("\\u" + t)[2..] == t;
  }

  /** Reading a piece gives what it spells. */
  lemma PieceReads(p: Piece, s: string, tail: string)
    requires Spells(p, s)
    ensures ReadString(PieceText(p) + tail) == Prepend(s, ReadString(tail))
  {
    match p
    case Raw(c) => RawReads(c, tail);
    case Short(e) => ShortReads(e, tail);
    case Unit(d) =>
      hide Utf8, Hex4, SpellsUnit, ReadString;
      var n: nat :| SpellsUnit(d, n) && !(0xD800 <= n <= 0xDBFF) && s == Utf8(n);
      UnitReads(d, n, tail);
      assert PieceText(p) + tail == "\\u" + (d + tail);
      EscapedReads(d + tail, s, tail);
    case Pair(h, l) =>
      PairReads(h, l, s, tail);
  }

  lemma PairReads(h: string, l: string, s: string, tail: string)
    requires Spells(Pair(h, l), s)
    ensures ReadString(PieceText(Pair(h, l)) + tail) == Prepend(s, ReadString(tail))
  {
    hide Utf8, Hex4, SpellsUnit, ReadString;
    var m: nat, n: nat :| SpellsPair(h, l, m, n, s);
    var rest := "\\u" + (l + tail);
    UnitReads(h, m, rest);
    UnitReads(l, n, tail);
    var t := h + rest;
    assert |h| == 4 && |l| == 4 by { UnitLength(h, m); UnitLength(l, n); }
    assert t[6..] == l + tail && t[10..] == tail && t[4] == '\\' && t[5] == 'u';
    assert ReadUnicode(t) == Ok(s, tail);
    assert PieceText(Pair(h, l)) + tail == "\\u" + t;
    EscapedReads(t, s, tail);
  }

  lemma UnitLength(d: string, n: nat)
    requires SpellsUnit(d, n)
    ensures |d| == 4
  {
  }

  lemma ClosingReads(post: string)
    ensures ReadString("\"" + post) == Ok("", post)
  {
    assert ("\"" + post)[1..] == post;
  }

  lemma PiecesFirst(p: seq<Piece>, post: string)
    requires |p| > 0
    ensures PiecesText(p) + post == PieceText(p[0]) + (PiecesText(p[1..]) + post)
  {
  }

  /** Every spelling of a string reads as that string. */
  lemma {:induction false} SpellingReads(p: seq<Piece>, s: string, post: string)
    requires AllSpell(p, s)
    ensures ReadString(PiecesText(p) + "\"" + post) == Ok(s, post)
    decreases |p|
  {
    hide ReadString, PieceText, Spells;
    if |p| == 0 {
      assert PiecesText(p) + "\"" + post == "\"" + post;
      ClosingReads(post);
    } else {
      var k: nat :| FirstSpells(p, s, k);
      SpellingReads(p[1..], s[k..], post);
      PiecesFirst(p, "\"" + post);
      hide PiecesText, AllSpell;
      var tail := PiecesText(p[1..]) + "\"" + post;
      assert PiecesText(p[1..]) + ("\"" + post) == tail;
      PieceReads(p[0], s[..k], tail);
      assert s[..k] + s[k..] == s;
      assert PiecesText(p) + "\"" + post == PiecesText(p) + ("\"" + post);
    }
  }

  lemma HexLast(t: string, k: nat) returns (v: nat, d: nat)
    requires k < |t| && HexNumber(t, k + 1).Some?
    ensures HexNumber(t, k) == Some(v) && IsHex(t[k], d) && HexNumber(t, k + 1) == Some(16 * v + d)
  {
    v, d := HexNumber(t, k).value, HexDigit(t[k]).value;
    HexIs(t[k], d);
  }

  lemma HexFour(t: string) returns (a: nat, b: nat, c: nat, d: nat)
    requires |t| >= 4 && HexNumber(t, 4).Some?
    ensures IsHex(t[0], a) && IsHex(t[1], b) && IsHex(t[2], c) && IsHex(t[3], d)
    ensures HexNumber(t, 4) == Some(16 * (16 * (16 * a + b) + c) + d)
  {
    assert HexNumber(t, 0) == Some(0);
    hide HexNumber, HexDigit, IsHex;
    var u, v, w, x;
    u, d := HexLast(t, 3);
    v, c := HexLast(t, 2);
    w, b := HexLast(t, 1);
    x, a := HexLast(t, 0);
    assert w == a && v == 16 * a + b && u == 16 * (16 * a + b) + c;
  }

  /** The four digits a unit was read from spell it. */
  lemma HexRead(t: string)
    requires Hex4(t).Some?
    ensures |t| >= 4 && SpellsUnit(t[..4], Hex4(t).value)
  {
    hide HexNumber, HexDigit, IsHex, SpellsUnit;
    var a, b, c, d := HexFour(t);
    ToUnit(t[..4], a, b, c, d);
  }

  lemma ToUnit(t: string, a: nat, b: nat, c: nat, d: nat)
    requires |t| == 4 && IsHex(t[0], a) && IsHex(t[1], b) && IsHex(t[2], c) && IsHex(t[3], d)
    ensures SpellsUnit(t, 16 * (16 * (16 * a + b) + c) + d)
  {
    FourDigits(a, b, c, d);
  }

  lemma FourDigits(a: nat, b: nat, c: nat, d: nat)
    requires a < 16 && b < 16 && c < 16 && d < 16
    ensures var n := 16 * (16 * (16 * a + b) + c) + d;
      n < 0x1_0000 && n / 4096 == a && n / 256 % 16 == b && n / 16 % 16 == c && n % 16 == d
  {
  }

  lemma PairParts(t: string)
    requires ReadUnicode(t).Ok? && 0xD800 <= Hex4(t).value <= 0xDBFF
    ensures |t| >= 10 && t[4] == '\\' && t[5] == 'u' && ReadUnicode(t).rest == t[10..]
    ensures Hex4(t[6..]).Some? && 0xDC00 <= Hex4(t[6..]).value <= 0xDFFF
    ensures ReadUnicode(t).value == Utf8(0x1_0000 + (Hex4(t).value - 0xD800) * 0x400 + (Hex4(t[6..]).value - 0xDC00))
  {
    hide Hex4, Utf8;
  }

  lemma PairRead(t: string)
    requires ReadUnicode(t).Ok? && 0xD800 <= Hex4(t).value <= 0xDBFF
    ensures |t| >= 10 && Spells(Pair(t[..4], t[6..10]), ReadUnicode(t).value)
    ensures "\\u" + t == PieceText(Pair(t[..4], t[6..10])) + ReadUnicode(t).rest
  {
    PairParts(t);
    HexRead(t);
    HexRead(t[6..]);
    hide Hex4, Utf8, SpellsUnit, Spells, ReadUnicode;
    assert t[6..][..4] == t[6..10];
    PairSpells(t[..4], t[6..10], Hex4(t).value, Hex4(t[6..]).value, ReadUnicode(t).value);
    Cut(t);
  }

  lemma Cut(t: string)
    requires |t| >= 10 && t[4] == '\\' && t[5] == 'u'
    ensures "\\u" + t == PieceText(Pair(t[..4], t[6..10])) + t[10..]
  {
    assert t[4..6] == "\\u";
    assert t == t[..4] + "\\u" + t[6..10] + t[10..];
  }

  lemma PairSpells(h: string, l: string, m: nat, n: nat, s: string)
    requires SpellsPair(h, l, m, n, s)
    ensures Spells(Pair(h, l), s)
  {
  }

  lemma UnitRead(t: string)
    requires ReadUnicode(t).Ok? && !(0xD800 <= Hex4(t).value <= 0xDBFF)
    ensures |t| >= 4 && Spells(Unit(t[..4]), ReadUnicode(t).value)
    ensures "\\u" + t == PieceText(Unit(t[..4])) + ReadUnicode(t).rest
  {
    HexRead(t);
    hide Hex4, Utf8, SpellsUnit;
    assert t == t[..4] + t[4..];
  }

  /** What an escape was read as, it spells. */
  lemma EscapeRead(t: string) returns (p: Piece)
    requires ReadUnicode(t).Ok?
    ensures Spells(p, ReadUnicode(t).value) && "\\u" + t == PieceText(p) + ReadUnicode(t).rest
  {
    assert Hex4(t).Some?;
    if 0xD800 <= Hex4(t).value <= 0xDBFF {
      PairRead(t);
      p := Pair(t[..4], t[6..10]);
    } else {
      UnitRead(t);
      p := Unit(t[..4]);
    }
  }

  /** The first piece of a text that reads as a string, and what is left of both. */
  lemma FirstPiece(t: string) returns (p: Piece, k: nat)
    requires ReadString(t).Ok? && t[0] != '"'
    ensures k <= |ReadString(t).value| && Spells(p, ReadString(t).value[..k])
    ensures |PieceText(p)| <= |t| && t[..|PieceText(p)|] == PieceText(p) && |PieceText(p)| > 0
    ensures ReadString(t[|PieceText(p)|..]) == Ok(ReadString(t).value[k..], ReadString(t).rest)
  {
    var v := ReadString(t).value;
    if t[0] != '\\' {
      p, k := Raw(t[0]), 1;
      assert v == [t[0]] + v[1..];
    } else if t[1] == 'u' {
      hide Spells;
      p := EscapeRead(t[2..]);
      var x := ReadUnicode(t[2..]).value;
      k := |x|;
      assert t == "\\u" + t[2..];
      assert v[..k] == x;
      UnicodeSplit(t, p, k);
    } else {
      p, k := Short(t[1]), 1;
      assert v == [Unescape(t[1]).value] + v[1..];
      assert t[..2] == ['\\', t[1]];
    }
  }

  lemma UnicodeSplit(t: string, p: Piece, k: nat)
    requires |t| > 1 && t[0] == '\\' && t[1] == 'u' && ReadString(t).Ok? && ReadUnicode(t[2..]).Ok?
    requires t == PieceText(p) + ReadUnicode(t[2..]).rest && k == |ReadUnicode(t[2..]).value|
    ensures t[|PieceText(p)|..] == ReadUnicode(t[2..]).rest && t[..|PieceText(p)|] == PieceText(p)
    ensures k <= |ReadString(t).value|
    ensures ReadString(t[|PieceText(p)|..]) == Ok(ReadString(t).value[k..], ReadString(t).rest)
  {
    hide PieceText, ReadUnicode;
  }

  lemma SpellFirst(x: Piece, q: seq<Piece>, s: string, k: nat)
    requires k <= |s| && Spells(x, s[..k]) && AllSpell(q, s[k..])
    ensures AllSpell([x] + q, s) && PiecesText([x] + q) == PieceText(x) + PiecesText(q)
  {
    hide Spells;
    var p := [x] + q;
    assert p[1..] == q;
    assert FirstSpells(p, s, k);
  }

  lemma SpellNothing(t: string)
    requires |t| > 0 && t[0] == '"'
    ensures ReadString(t) == Ok("", t[1..]) && AllSpell([], "") && t == PiecesText([]) + ("\"" + t[1..])
  {
  }

  /** And whatever reads as a string was a spelling of it. */
  lemma {:induction false} ReadIsSpelling(t: string) returns (p: seq<Piece>)
    requires ReadString(t).Ok?
    ensures AllSpell(p, ReadString(t).value) && t == PiecesText(p) + ("\"" + ReadString(t).rest)
    decreases |t|
  {
    if t[0] == '"' {
      p := [];
      SpellNothing(t);
    } else {
      var x, k := FirstPiece(t);
      hide *;
      var tail := t[|PieceText(x)|..];
      var q := ReadIsSpelling(tail);
      p := [x] + q;
      SpellFirst(x, q, ReadString(t).value, k);
      Prefixed(t, PieceText(x), tail, PiecesText(q), "\"" + ReadString(t).rest);
    }
  }

  lemma Prefixed(t: string, x: string, tail: string, q: string, rest: string)
    requires |x| <= |t| && t[..|x|] == x && tail == t[|x|..]
    ensures tail == q + rest ==> t == (x + q) + rest
  {
    assert t == x + tail;
    if tail == q + rest {
      assert x + (q + rest) == (x + q) + rest;
    }
  }

  /** What the writer makes of a character. */
  function PieceOf(c: char): (p: Piece) {
    if c == '"' || c == '\\' then Short(c)
    else if c == '\n' then Short('n')
    else if c == '\r' then Short('r')
    else if c == '\t' then Short('t')
    else Raw(c)
  }

  function PiecesOf(s: string): (p: seq<Piece>) {
    if |s| == 0 then [] else [PieceOf(s[0])] + PiecesOf(s[1..])
  }

  lemma PieceOfSpells(c: char)
    ensures PieceText(PieceOf(c)) == EscapeChar(c) && Spells(PieceOf(c), [c])
  {
  }

  lemma {:induction false} EscapeSpells(s: string)
    ensures PiecesText(PiecesOf(s)) == Escape(s) && AllSpell(PiecesOf(s), s)
  {
    if |s| > 0 {
      EscapeSpells(s[1..]);
      PieceOfSpells(s[0]);
      hide Spells, PieceText, EscapeChar, PieceOf;
      var p := PiecesOf(s);
      assert p[1..] == PiecesOf(s[1..]) && s[..1] == [s[0]];
      assert FirstSpells(p, s, 1);
    }
  }

  /** In particular reading undoes the writer's escaping. */
  lemma EscapeReads(s: string, post: string)
    ensures ReadString(Escape(s) + "\"" + post) == Ok(s, post)
  {
    EscapeSpells(s);
    SpellingReads(PiecesOf(s), s, post);
  }

  lemma QuoteReads(s: string, post: string)
    ensures |Quote(s)| > 0 && Quote(s)[0] == '"'
    ensures ReadString((Quote(s) + post)[1..]) == Ok(s, post)
  {
    assert (Quote(s) + post)[1..] == Escape(s) + "\"" + post;
    EscapeReads(s, post);
  }

  // ---------------------------------------------------------------- escapes of code points

  function HexChar(d: nat): (c: char)
    requires d < 16
    ensures HexDigit(c) == Some(d)
  {
    if d < 10 then DigitChar(d) else ('a' as int + d - 10) as char
  }

  function Hex4Text(n: nat): (t: string)
    requires n < 0x1_0000
    ensures |t| == 4
  {
    [HexChar(n / 4096), HexChar(n / 256 % 16), HexChar(n / 16 % 16), HexChar(n % 16)]
  }

  lemma Hex4Reads(n: nat, post: string)
    requires n < 0x1_0000
    ensures Hex4(Hex4Text(n) + post) == Some(n)
  {
    hide HexDigit, HexChar;
    var t := Hex4Text(n) + post;
    assert HexNumber(t, 1) == Some(n / 4096);
    assert HexNumber(t, 2) == Some(n / 256);
    assert HexNumber(t, 3) == Some(n / 16);
  }

  /** The escape of a code point past its first backslash and `u`: a surrogate pair beyond 16 bits. */
  function UnicodeText(cp: nat): (t: string)
    requires cp < 0x11_0000
  {
    if cp < 0x1_0000 then Hex4Text(cp)
    else
      var c := cp - 0x1_0000;
      Hex4Text(0xD800 + c / 0x400) + "\\u" + Hex4Text(0xDC00 + c % 0x400)
  }

  /** Reading the escape of a code point gives its UTF-8, unless it is the first half of a pair. */
  lemma UnicodeReads(cp: nat, post: string)
    requires cp < 0x11_0000 && !(0xD800 <= cp <= 0xDBFF)
    ensures ReadUnicode(UnicodeText(cp) + post) == Ok(Utf8(cp), post)
  {
    hide Hex4, Hex4Text, Utf8;
    var t := UnicodeText(cp) + post;
    if cp < 0x1_0000 {
      Hex4Reads(cp, post);
      assert t[4..] == post;
    } else {
      var c := cp - 0x1_0000;
      var high, low := 0xD800 + c / 0x400, 0xDC00 + c % 0x400;
      assert t == Hex4Text(high) + ("\\u" + (Hex4Text(low) + post));
      Hex4Reads(high, "\\u" + (Hex4Text(low) + post));
      Hex4Reads(low, post);
      assert t[6..] == Hex4Text(low) + post && t[10..] == post;
      assert 0x1_0000 + 0x400 * (high - 0xD800) + (low - 0xDC00) == cp;
    }
  }

  /** The code point a UTF-8 sequence spells. */
  ghost function CodePoint(s: string): (cp: int) {
    if |s| == 1 then s[0] as int
    else if |s| == 2 then 64 * (s[0] as int - 0xC0) + (s[1] as int - 0x80)
    else if |s| == 3 then 4096 * (s[0] as int - 0xE0) + 64 * (s[1] as int - 0x80) + (s[2] as int - 0x80)
    else if |s| == 4 then
      0x4_0000 * (s[0] as int - 0xF0) + 4096 * (s[1] as int - 0x80) + 64 * (s[2] as int - 0x80) + (s[3] as int - 0x80)
    else -1
  }

  /** Nothing is lost: the bytes spell the code point. */
  lemma Utf8Spells(cp: nat)
    requires cp < 0x11_0000
    ensures CodePoint(Utf8(cp)) == cp
  {
    assert cp / 64 / 64 == cp / 4096 && cp / 4096 / 64 == cp / 0x4_0000;
  }

  /** No digit, point or exponent follows. */
  predicate EndsNumber(post: string) {
    |post| > 0 ==> !IsDigit(post[0]) && post[0] != '.' && post[0] != 'e' && post[0] != 'E'
  }

  lemma DigitsRead(neg: bool, t: string, post: string)
    requires Digits(t) && |t| > 0 && EndsNumber(post)
    ensures ReadDigits(neg, t + post) == Ok(IntegerValue(neg, Number(t)), post)
  {
    hide Number, IntegerValue, Span, TailValue;
    SpanDigits(t, post);
    assert (t + post)[..|t|] == t && (t + post)[|t|..] == post && post[0..] == post;
  }

  lemma NoSpace(t: string)
    requires |t| > 0 && !IsSpace(t[0])
    ensures SkipWs(t) == t
  {
  }

  /** How the text of a value begins. */
  lemma TextStarts(v: Value)
    requires Writable(v)
    ensures |Text(v)| > 0 && !IsSpace(Text(v)[0])
    ensures v.String? <==> Text(v)[0] == '"'
    ensures v.Object? <==> Text(v)[0] == '{'
    ensures v.Array? <==> Text(v)[0] == '['
    ensures v.Int? <==> Text(v)[0] == '-' || IsDigit(Text(v)[0])
    ensures v.Array? ==> |v.elems| > 0 ==> |Text(v)| > 1
  {
    if v.Int? {
      assert IsDigit(Decimal(if v.i < 0 then -(v.i as int) else v.i)[0]);
    }
  }

  /** The value read back: the same tree, but for the most negative integer as a double. */
  function Back(v: Value): (w: Value)
    decreases v, 0
  {
    match v
    case Int(i) => if i == MIN64 then Double(MIN64 as real) else v
    case Array(e) => Array(BackElems(e))
    case Object(m) => Object(BackMembers(m))
    case _ => v
  }

  function BackElems(e: seq<Value>): (f: seq<Value>)
    ensures |f| == |e|
    decreases e
  {
    if |e| == 0 then [] else [Back(e[0])] + BackElems(e[1..])
  }

  function BackMembers(m: seq<Member>): (n: seq<Member>)
    ensures |n| == |m| && forall k :: 0 <= k < |m| ==> n[k].name == m[k].name
    decreases m
  {
    if |m| == 0 then [] else [Member(m[0].name, Back(m[0].value))] + BackMembers(m[1..])
  }

  /** What may follow the text of `v`. */
  predicate MayFollow(v: Value, post: string) {
    v.Int? ==> EndsNumber(post)
  }

  lemma AppendNew(done: seq<Member>, name: string, v: Value)
    requires forall k :: 0 <= k < |done| ==> done[k].name != name
    ensures Put(done, name, v) == done + [Member(name, v)]
  {
  }

  /** Every 64-bit integer reads back, the most negative one by saturation. */
  lemma IntReads(i: i64, post: string)
    requires EndsNumber(post)
    ensures ReadNumber(ToString(i) + post) == Ok(Back(Int(i)), post)
    ensures AsInt(Back(Int(i))) == i
  {
    hide ReadDigits, Decimal, Number;
    var n: nat := if i < 0 then -(i as int) else i;
    DecimalNumber(n);
    DigitsRead(i < 0, Decimal(n), post);
    var t := ToString(i) + post;
    if i < 0 {
      assert t[0] == '-' && t[1..] == Decimal(n) + post;
    } else {
      assert t == Decimal(n) + post && IsDigit(t[0]);
    }
  }

  lemma WordReads(word: string, v: Value, post: string)
    requires |word| > 0
    ensures ReadWord(word + post, word, v) == Ok(v, post)
  {
    assert word <= word + post && (word + post)[|word|..] == post;
  }

  /** `ReadValue` on text that starts with what it is about to read. */
  lemma LeafReads(v: Value, post: string)
    requires Writable(v) && MayFollow(v, post) && !v.Array? && !v.Object?
    ensures ReadValue(Text(v) + post) == Ok(Back(v), post)
  {
    hide ReadString, ReadNumber, ReadWord, ToString, Quote;
    TextStarts(v);
    NoSpace(Text(v) + post);
    match v
    case String(s) => QuoteReads(s, post);
    case Int(i) => IntReads(i, post);
    case Bool(b) => WordReads(if b then "true" else "false", v, post);
  }

  /** Reading what was written gives the value and stops where it ended, whatever comes next. */
  lemma {:induction false} TextReads(v: Value, post: string)
    requires Writable(v) && MayFollow(v, post)
    ensures ReadValue(Text(v) + post) == Ok(Back(v), post)
    decreases v, 1
  {
    match v
    case Array(e) => ArrayReads(e, post);
    case Object(m) => ObjectReads(m, post);
    case _ => LeafReads(v, post);
  }

  lemma OpenBracket(u: string)
    requires |u| > 0 && !IsSpace(u[0])
    ensures ReadValue("[" + u) == if u[0] == ']' then Ok(Array([]), u[1..]) else ReadElems(u, [])
  {
    hide ReadElems;
    NoSpace("[" + u);
    NoSpace(u);
    assert ("[" + u)[1..] == u;
  }

  lemma OpenBrace(u: string)
    requires |u| > 0 && !IsSpace(u[0])
    ensures ReadValue("{" + u) == if u[0] == '}' then Ok(Object([]), u[1..]) else ReadMembers(u, [])
  {
    hide ReadMembers;
    NoSpace("{" + u);
    NoSpace(u);
    assert ("{" + u)[1..] == u;
  }

  lemma {:induction false} ArrayReads(e: seq<Value>, post: string)
    requires AllWritable(e)
    ensures ReadValue(Text(Array(e)) + post) == Ok(Back(Array(e)), post)
    decreases Array(e), 0
  {
    var u := ElemsText(e) + "]" + post;
    assert Text(Array(e)) + post == "[" + u;
    if |e| == 0 {
      hide ReadElems, ReadValue;
      NothingInside(u, "]", post);
      OpenBracket(u);
    } else {
      hide ReadElems, ElemsText, AllWritable, ReadValue, BackElems;
      ElemsStart(e);
      OpenBracket(u);
      ElemsRead(e, [], post);
      assert [] + BackElems(e) == BackElems(e);
    }
  }

  lemma {:induction false} ObjectReads(m: seq<Member>, post: string)
    requires Distinct(m) && MembersWritable(m)
    ensures ReadValue(Text(Object(m)) + post) == Ok(Back(Object(m)), post)
    decreases Object(m), 0
  {
    var u := MembersText(m) + "}" + post;
    assert Text(Object(m)) + post == "{" + u;
    if |m| == 0 {
      hide ReadMembers, ReadValue;
      NothingInside(u, "}", post);
      OpenBrace(u);
    } else {
      hide ReadMembers, MembersText, MembersWritable, ReadValue, BackMembers, Distinct;
      MembersStart(m);
      OpenBrace(u);
      assert [] + m == m;
      MembersRead(m, [], post);
      assert [] + BackMembers(m) == BackMembers(m);
    }
  }

  lemma NothingInside(u: string, close: string, post: string)
    requires |close| == 1 && u == "" + close + post
    ensures u == close + post && u[0] == close[0] && u[1..] == post
  {
  }

  lemma ElemsStart(e: seq<Value>)
    requires |e| > 0 && AllWritable(e)
    ensures |ElemsText(e)| > 0 && !IsSpace(ElemsText(e)[0]) && ElemsText(e)[0] != ']'
  {
    TextStarts(e[0]);
    FirstNotBracket(e[0]);
  }

  lemma FirstNotBracket(v: Value)
    requires Writable(v)
    ensures |Text(v)| > 0 && Text(v)[0] != ']'
  {
    TextStarts(v);
  }

  lemma MembersStart(m: seq<Member>)
    requires |m| > 0 && MembersWritable(m)
    ensures |MembersText(m)| > 0 && MembersText(m)[0] == '"'
  {
  }

  /** One element, up to the comma or bracket after it. */
  lemma ElemReads(v: Value, tail: string, a: seq<Value>)
    requires Writable(v) && |tail| > 0 && (tail[0] == ',' || tail[0] == ']')
    ensures ReadElems(Text(v) + tail, a)
      == if tail[0] == ']' then Ok(Array(a + [Back(v)]), tail[1..]) else ReadElems(tail[1..], a + [Back(v)])
    decreases v, 2
  {
    hide ReadValue, Text, Writable;
    TextStarts(v);
    NoSpace(Text(v) + tail);
    TextReads(v, tail);
    NoSpace(tail);
  }

  lemma {:induction false} ElemsRead(e: seq<Value>, a: seq<Value>, post: string)
    requires |e| > 0 && AllWritable(e)
    ensures ReadElems(ElemsText(e) + "]" + post, a) == Ok(Array(a + BackElems(e)), post)
    decreases e, 0
  {
    hide ReadElems, Text, Writable;
    var tail := if |e| == 1 then "]" + post else "," + (ElemsText(e[1..]) + "]" + post);
    assert ElemsText(e) + "]" + post == Text(e[0]) + tail;
    ElemReads(e[0], tail, a);
    if |e| == 1 {
      assert tail[1..] == post && BackElems(e) == [Back(e[0])] + BackElems(e[1..]) == [Back(e[0])];
    } else {
      assert tail[1..] == ElemsText(e[1..]) + "]" + post;
      ElemsRead(e[1..], a + [Back(e[0])], post);
      assert a + [Back(e[0])] + BackElems(e[1..]) == a + BackElems(e);
    }
  }

  /** What follows the first value of a member list. */
  function MembersTail(m: seq<Member>, post: string): (t: string)
    requires |m| > 0 && MembersWritable(m)
    ensures |t| > 0 && (t[0] == ',' || t[0] == '}')
    ensures t[0] == '}' <==> |m| == 1
    ensures t[1..] == if |m| == 1 then post else MembersText(m[1..]) + "}" + post
  {
    if |m| == 1 then "}" + post else "," + (MembersText(m[1..]) + "}" + post)
  }

  lemma Associate(x: string, y: string, z: string)
    ensures (x + y) + z == x + (y + z)
  {
  }

  lemma MembersSplit(m: seq<Member>, post: string)
    requires |m| > 0 && MembersWritable(m)
    ensures MembersText(m) + "}" + post == Quote(m[0].name) + (":" + (Text(m[0].value) + MembersTail(m, post)))
  {
    var a, b, close := Quote(m[0].name), Text(m[0].value), "}" + post;
    if |m| > 1 {
      var c := MembersText(m[1..]);
      assert MembersText(m) == a + ":" + b + "," + c;
      assert MembersTail(m, post) == "," + (c + "}" + post);
      hide Quote, Text, MembersText, MembersTail;
      Associate(a + ":" + b + "," + c, "}", post);
      Associate(c, "}", post);
      Regroup(a, ":", b, ",", c + close);
      Associate(a + ":" + b + ",", c, close);
    } else {
      assert MembersText(m) == a + ":" + b;
      assert MembersTail(m, post) == close;
      hide Quote, Text, MembersText, MembersTail;
      Associate(a + ":" + b, "}", post);
      Associate(a + ":", b, close);
      Associate(a, ":", b + close);
    }
  }

  lemma Regroup(a: string, b: string, c: string, d: string, e: string)
    ensures a + b + c + d + e == a + (b + (c + (d + e)))
  {
    Associate(a + b + c, d, e);
    Associate(a + b, c, d + e);
    Associate(a, b, c + (d + e));
  }

  lemma MembersStep(m: seq<Member>, done: seq<Member>, post: string)
    requires |m| > 0 && Distinct(done + m) && MembersWritable(m)
    ensures var more := done + [Member(m[0].name, Back(m[0].value))];
      ReadMembers(MembersText(m) + "}" + post, done)
      == if |m| == 1 then Ok(Object(more), post) else ReadMembers(MembersText(m[1..]) + "}" + post, more)
    decreases m[0].value, 3
  {
    hide ReadMembers, Text, Writable, Quote, Put, Distinct, MembersText, MembersTail, Back;
    MembersSplit(m, post);
    MemberReads(m[0].name, m[0].value, MembersTail(m, post), done);
    NameIsNew(done, m);
    AppendNew(done, m[0].name, Back(m[0].value));
  }

  lemma {:induction false} MembersRead(m: seq<Member>, done: seq<Member>, post: string)
    requires |m| > 0 && Distinct(done + m) && MembersWritable(m)
    ensures ReadMembers(MembersText(m) + "}" + post, done) == Ok(Object(done + BackMembers(m)), post)
    decreases m, 0
  {
    hide ReadMembers, Distinct, MembersText, Back, BackMembers, Text, Writable;
    var first := Member(m[0].name, Back(m[0].value));
    MembersStep(m, done, post);
    BackMembersAfter(m, done);
    if |m| > 1 {
      DistinctMoved(done, m, first.value);
      MembersRead(m[1..], done + [first], post);
    }
  }

  lemma Grouped<T>(a: seq<T>, b: seq<T>, c: seq<T>)
    ensures a + (b + c) == a + b + c
    ensures |c| == 0 ==> a + b + c == a + b
  {
  }

  lemma BackMembersSplit(m: seq<Member>)
    requires |m| > 0
    ensures BackMembers(m) == [Member(m[0].name, Back(m[0].value))] + BackMembers(m[1..])
  {
    hide Back;
  }

  lemma BackMembersAfter(m: seq<Member>, done: seq<Member>)
    requires |m| > 0
    ensures var more := done + [Member(m[0].name, Back(m[0].value))];
      done + BackMembers(m) == if |m| == 1 then more else more + BackMembers(m[1..])
  {
    hide Back, BackMembers;
    BackMembersSplit(m);
    Grouped(done, [Member(m[0].name, Back(m[0].value))], BackMembers(m[1..]));
  }

  lemma NameIsNew(done: seq<Member>, m: seq<Member>)
    requires |m| > 0 && Distinct(done + m)
    ensures forall k :: 0 <= k < |done| ==> done[k].name != m[0].name
  {
    forall k | 0 <= k < |done|
      ensures done[k].name != m[0].name
    {
      assert (done + m)[k].name != (done + m)[|done|].name;
    }
  }

  lemma DistinctMoved(done: seq<Member>, m: seq<Member>, v: Value)
    requires |m| > 0 && Distinct(done + m)
    ensures Distinct(done + [Member(m[0].name, v)] + m[1..])
  {
    var d := done + [Member(m[0].name, v)] + m[1..];
    assert forall k :: 0 <= k < |d| ==> d[k].name == (done + m)[k].name;
  }

  /** One member, up to the comma or brace after it. */
  lemma MemberReads(name: string, v: Value, tail: string, done: seq<Member>)
    requires Writable(v) && |tail| > 0 && (tail[0] == ',' || tail[0] == '}')
    ensures ReadMembers(Quote(name) + (":" + (Text(v) + tail)), done)
      == if tail[0] == '}' then Ok(Object(Put(done, name, Back(v))), tail[1..])
         else ReadMembers(tail[1..], Put(done, name, Back(v)))
    decreases v, 2
  {
    hide ReadValue, Text, Writable, ReadString, Quote, Put;
    var after := ":" + (Text(v) + tail);
    var t := Quote(name) + after;
    QuoteReads(name, after);
    NoSpace(t);
    NoSpace(after);
    assert after[1..] == Text(v) + tail;
    TextStarts(v);
    NoSpace(Text(v) + tail);
    TextReads(v, tail);
    NoSpace(tail);
  }

  /** Parsing the text of any writable tree gives the tree. */
  lemma ParseText(v: Value)
    requires Writable(v)
    ensures Parse(Text(v)) == Some(Back(v))
  {
    TextReads(v, "");
    assert Text(v) + "" == Text(v);
  }
}
