/**
 * The language the client's JSON reader accepts (include/keylight/json.hpp:184-342): documents with their
 * spelling kept, and what they mean. The grammar is that of RFC 8259 with the reader's own leniency, which
 * takes leading zeros, control characters in strings, and fractions and exponents without digits.
 */
module Spellings {
  import opened Collections
  import opened Json

  datatype Exponent = Exponent(mark: char, sign: string, digits: string)

  datatype Doc =
    | Nil
    | Flag(b: bool)
    | Num(neg: bool, whole: string, fraction: Option<string>, exponent: Option<Exponent>)
    | Str(pieces: seq<Piece>, s: string)
    | List(gap: string, items: seq<Item>)
    | Record(gap: string, fields: seq<Field>)

  /** An element with the space around it. */
  datatype Item = Item(before: string, doc: Doc, after: string)

  datatype Field = Field(before: string, pieces: seq<Piece>, name: string, close: string, open: string, doc: Doc,
                         after: string)

  predicate Space(t: string) {
    forall k :: 0 <= k < |t| ==> t[k] in " \t\n\r"
  }

  ghost predicate ExponentFormed(e: Exponent) {
    e.mark in "eE" && e.sign in ["", "+", "-"] && Digits(e.digits)
  }

  ghost predicate Formed(d: Doc)
    decreases d, 0
  {
    match d
    case Nil => true
    case Flag(_) => true
    case Num(_, whole, fraction, exponent) =>
      && |whole| > 0 && Digits(whole)
      && (fraction.Some? ==> Digits(fraction.value)) && (exponent.Some? ==> ExponentFormed(exponent.value))
    case Str(p, s) => AllSpell(p, s)
    case List(gap, items) => Space(gap) && ItemsFormed(items)
    case Record(gap, fields) => Space(gap) && FieldsFormed(fields)
  }

  ghost predicate ItemsFormed(a: seq<Item>)
    decreases a
  {
    |a| > 0 ==> Space(a[0].before) && Formed(a[0].doc) && Space(a[0].after) && ItemsFormed(a[1..])
  }

  ghost predicate FieldsFormed(a: seq<Field>)
    decreases a
  {
    |a| > 0 ==> FieldFormed(a[0]) && Formed(a[0].doc) && FieldsFormed(a[1..])
  }

  ghost predicate FieldFormed(f: Field) {
    Space(f.before) && AllSpell(f.pieces, f.name) && Space(f.close) && Space(f.open) && Space(f.after)
  }

  // ---------------------------------------------------------------- the text of a document

  function FractionText(f: Option<string>): (t: string) {
    match f
    case None => ""
    case Some(d) => "." + d
  }

  function ExponentText(e: Option<Exponent>): (t: string) {
    match e
    case None => ""
    case Some(x) => [x.mark] + x.sign + x.digits
  }

  function NumText(neg: bool, whole: string, fraction: Option<string>, exponent: Option<Exponent>): (t: string) {
    (if neg then "-" else "") + whole + FractionText(fraction) + ExponentText(exponent)
  }

  /** The text of the document, followed by `post`. */
  function Onto(d: Doc, post: string): (t: string)
    decreases d, 0
  {
    match d
    case Nil => "null" + post
    case Flag(b) => (if b then "true" else "false") + post
    case Num(neg, whole, fraction, exponent) => NumText(neg, whole, fraction, exponent) + post
    case Str(p, _) => "\"" + (PiecesText(p) + ("\"" + post))
    case List(gap, items) => "[" + (if |items| == 0 then gap + ("]" + post) else ItemsOnto(items, post))
    case Record(gap, fields) => "{" + (if |fields| == 0 then gap + ("}" + post) else FieldsOnto(fields, post))
  }

  function ItemsOnto(a: seq<Item>, post: string): (t: string)
    requires |a| > 0
    decreases a
  {
    a[0].before + Onto(a[0].doc, a[0].after + (if |a| == 1 then "]" + post else "," + ItemsOnto(a[1..], post)))
  }

  function FieldsOnto(a: seq<Field>, post: string): (t: string)
    requires |a| > 0
    decreases a
  {
    var rest := if |a| == 1 then "}" + post else "," + FieldsOnto(a[1..], post);
    var value := Onto(a[0].doc, a[0].after + rest);
    NameOnto(a[0], value)
  }

  /** The name of a member, with the colon and the space around them, before its value. */
  function NameOnto(f: Field, value: string): (t: string) {
    f.before + ("\"" + (PiecesText(f.pieces) + ("\"" + (f.close + (":" + (f.open + value))))))
  }

  // ---------------------------------------------------------------- what a document means

  /** Digits before and after a point, as one number over a power of ten. */
  function Mantissa(whole: string, fraction: string): (x: real)
    requires Digits(whole) && Digits(fraction)
  {
    Number(whole + fraction) as real / TenTo(|fraction|)
  }

  function Magnitude(whole: string, fraction: Option<string>, exponent: Option<Exponent>): (x: real)
    requires Digits(whole) && (fraction.Some? ==> Digits(fraction.value))
    requires exponent.Some? ==> ExponentFormed(exponent.value)
  {
    var m := Mantissa(whole, if fraction.Some? then fraction.value else "");
    if exponent.None? then m
    else if exponent.value.sign == "-" then m / TenTo(Number(exponent.value.digits))
    else m * TenTo(Number(exponent.value.digits))
  }

  /** A 64-bit integer when only digits are written and their number fits; a double otherwise. */
  function NumMeaning(neg: bool, whole: string, fraction: Option<string>, exponent: Option<Exponent>): (v: Value)
    requires Digits(whole) && (fraction.Some? ==> Digits(fraction.value))
    requires exponent.Some? ==> ExponentFormed(exponent.value)
  {
    var n := Number(whole);
    if fraction.None? && exponent.None? && n < 0x8000_0000_0000_0000 then Int(if neg then -(n as int) else n)
    else
      var x := Magnitude(whole, fraction, exponent);
      Double(if neg then -x else x)
  }

  ghost function Meaning(d: Doc): (v: Value)
    requires Formed(d)
    decreases d, 0
  {
    match d
    case Nil => Null
    case Flag(b) => Bool(b)
    case Num(neg, whole, fraction, exponent) => NumMeaning(neg, whole, fraction, exponent)
    case Str(_, s) => String(s)
    case List(_, items) => Array(Meanings(items))
    case Record(_, fields) => Object(PutAll([], Members(fields)))
  }

  ghost function Meanings(a: seq<Item>): (v: seq<Value>)
    requires ItemsFormed(a)
    decreases a
  {
    if |a| == 0 then [] else [Meaning(a[0].doc)] + Meanings(a[1..])
  }

  ghost function Members(a: seq<Field>): (m: seq<Member>)
    requires FieldsFormed(a)
    decreases a
  {
    if |a| == 0 then [] else [Member(a[0].name, Meaning(a[0].doc))] + Members(a[1..])
  }

  function PutAll(m: seq<Member>, f: seq<Member>): (n: seq<Member>)
    decreases |f|
  {
    if |f| == 0 then m else PutAll(Put(m, f[0].name, f[0].value), f[1..])
  }

  // ---------------------------------------------------------------- repeated names

  /** Where `name` stands last, or -1. */
  function Last(f: seq<Member>, name: string): (i: int)
    ensures -1 <= i < |f| && (i >= 0 ==> f[i].name == name)
    ensures forall k :: i < k < |f| ==> f[k].name != name
  {
    if |f| == 0 then -1 else if f[|f| - 1].name == name then |f| - 1 else Last(f[..|f| - 1], name)
  }

  ghost predicate NoneTwice(n: seq<Member>) {
    forall i, j :: 0 <= i < j < |n| ==> n[i].name != n[j].name
  }

  ghost predicate LastGiven(f: seq<Member>, n: seq<Member>) {
    forall i :: 0 <= i < |n| ==> Last(f, n[i].name) >= 0 && n[i] == f[Last(f, n[i].name)]
  }

  ghost predicate NoneLost(f: seq<Member>, n: seq<Member>) {
    forall k :: 0 <= k < |f| ==> Find(n, f[k].name) < |n|
  }

  ghost predicate FirstOrder(f: seq<Member>, n: seq<Member>) {
    forall i, j :: 0 <= i < j < |n| ==> Find(f, n[i].name) < Find(f, n[j].name)
  }

  /** `n` holds one member for every name in `f`, in the order the names first appear, with the last value given. */
  ghost predicate Collapsed(f: seq<Member>, n: seq<Member>) {
    NoneTwice(n) && LastGiven(f, n) && NoneLost(f, n) && FirstOrder(f, n)
  }

  lemma FindAppended(f: seq<Member>, x: Member, name: string)
    ensures Find(f, name) < |f| ==> Find(f + [x], name) == Find(f, name)
    ensures Find(f, name) == |f| ==> Find(f + [x], name) == if name == x.name then |f| else |f| + 1
  {
    var g, i := f + [x], Find(f, name);
    var j := Find(g, name);
    if i < |f| {
      assert g[i].name == name;
    } else {
      assert g[|f|] == x;
    }
  }

  lemma LastAppended(f: seq<Member>, x: Member, name: string)
    ensures Last(f + [x], name) == if name == x.name then |f| else Last(f, name)
  {
    assert (f + [x])[..|f|] == f;
  }

  lemma PutKeepsApart(n: seq<Member>, x: Member)
    requires NoneTwice(n)
    ensures NoneTwice(Put(n, x.name, x.value))
  {
  }

  lemma PutGivesLast(f: seq<Member>, n: seq<Member>, x: Member)
    requires LastGiven(f, n) && NoneTwice(n)
    ensures LastGiven(f + [x], Put(n, x.name, x.value))
  {
    var p := Put(n, x.name, x.value);
    forall i | 0 <= i < |p|
      ensures Last(f + [x], p[i].name) >= 0 && p[i] == (f + [x])[Last(f + [x], p[i].name)]
    {
      LastAppended(f, x, p[i].name);
    }
  }

  lemma PutLosesNone(f: seq<Member>, n: seq<Member>, x: Member)
    requires NoneLost(f, n)
    ensures NoneLost(f + [x], Put(n, x.name, x.value))
  {
    var g, p := f + [x], Put(n, x.name, x.value);
    forall k | 0 <= k < |g|
      ensures Find(p, g[k].name) < |p|
    {
      if k < |f| {
        assert p[Find(n, f[k].name)].name == f[k].name;
      } else {
        assert p[Find(n, x.name)].name == x.name;
      }
    }
  }

  lemma PutKeepsOrder(f: seq<Member>, n: seq<Member>, x: Member)
    requires LastGiven(f, n) && NoneLost(f, n) && FirstOrder(f, n)
    ensures FirstOrder(f + [x], Put(n, x.name, x.value))
  {
    var g, p := f + [x], Put(n, x.name, x.value);
    forall i, j | 0 <= i < j < |p|
      ensures Find(g, p[i].name) < Find(g, p[j].name)
    {
      FirstBefore(f, n, x, i);
      if j < |n| {
        FirstBefore(f, n, x, j);
      } else {
        FindAppended(f, x, x.name);
        assert Find(f, x.name) < |f| ==> Find(n, x.name) < |n|;
      }
    }
  }

  lemma FirstBefore(f: seq<Member>, n: seq<Member>, x: Member, i: nat)
    requires LastGiven(f, n) && i < |n|
    ensures Put(n, x.name, x.value)[i].name == n[i].name
    ensures Find(f, n[i].name) < |f| && Find(f + [x], n[i].name) == Find(f, n[i].name)
  {
    assert f[Last(f, n[i].name)].name == n[i].name;
    FindAppended(f, x, n[i].name);
  }

  lemma PutCollapses(f: seq<Member>, n: seq<Member>, x: Member)
    requires Collapsed(f, n)
    ensures Collapsed(f + [x], Put(n, x.name, x.value))
  {
    hide NoneTwice, LastGiven, NoneLost, FirstOrder, Put;
    PutKeepsApart(n, x);
    PutGivesLast(f, n, x);
    PutLosesNone(f, n, x);
    PutKeepsOrder(f, n, x);
  }

  lemma {:induction false} PutAllCollapses(done: seq<Member>, m: seq<Member>, f: seq<Member>)
    requires Collapsed(done, m)
    ensures Collapsed(done + f, PutAll(m, f))
    decreases |f|
  {
    hide Collapsed, Put;
    if |f| > 0 {
      var x := f[0];
      PutCollapses(done, m, x);
      PutAllCollapses(done + [x], Put(m, x.name, x.value), f[1..]);
      Moved(done, f);
    } else {
      assert done + f == done;
    }
  }

  lemma Moved<T>(done: seq<T>, f: seq<T>)
    requires |f| > 0
    ensures done + [f[0]] + f[1..] == done + f
  {
  }

  /** A repeated name keeps its first place and its last value. */
  lemma RepeatedNames(f: seq<Member>)
    ensures Collapsed(f, PutAll([], f))
  {
    assert Collapsed([], []);
    hide Collapsed, Put;
    PutAllCollapses([], [], f);
    assert [] + f == f;
  }

  // ---------------------------------------------------------------- reading a spelling

  lemma {:induction false} SkipAll(ws: string, t: string)
    requires Space(ws)
    ensures SkipWs(ws + t) == SkipWs(t)
  {
    if |ws| == 0 {
      assert ws + t == t;
    } else {
      assert (ws + t)[1..] == ws[1..] + t;
      SkipAll(ws[1..], t);
    }
  }

  lemma {:induction false} SkipAgain(t: string)
    ensures SkipWs(SkipWs(t)) == SkipWs(t)
  {
    if |t| > 0 && IsSpace(t[0]) {
      SkipAgain(t[1..]);
    }
  }

  /** What may stand after a number without going on with it. */
  predicate Stops(post: string) {
    |post| == 0 || (!IsDigit(post[0]) && post[0] != '.' && post[0] != 'e' && post[0] != 'E' && !IsSign(post[0]))
  }

  // ---------------------------------------------------------------- numbers

  lemma NumberLast(t: string)
    requires |t| > 0 && Digits(t)
    ensures Number(t) as real == 10.0 * Number(t[..|t| - 1]) as real + Digit(t[|t| - 1]) as real
  {
    Distributed(Number(t[..|t| - 1]), Digit(t[|t| - 1]));
  }

  lemma Distributed(n: nat, d: nat)
    ensures (10 * n + d) as real == 10.0 * n as real + d as real
  {
  }

  function Spread(x: real, p: real, y: real): (z: real) {
    x * p + y
  }

  lemma Shifted(x: real, p: real, y: real, d: real)
    ensures 10.0 * Spread(x, p, y) + d == Spread(x, 10.0 * p, 10.0 * y + d)
  {
  }

  lemma Unspread(x: real)
    ensures Spread(x, 1.0, 0.0) == x
  {
  }

  lemma {:induction false} NumberJoin(a: string, b: string)
    requires Digits(a) && Digits(b)
    ensures Number(a + b) as real == Spread(Number(a) as real, TenTo(|b|), Number(b) as real)
  {
    hide Spread;
    if |b| == 0 {
      assert a + b == a;
      Unspread(Number(a) as real);
    } else {
      var c, d := b[..|b| - 1], b[|b| - 1];
      assert (a + b)[..|a + b| - 1] == a + c;
      NumberJoin(a, c);
      NumberLast(a + b);
      NumberLast(b);
      assert TenTo(|b|) == 10.0 * TenTo(|c|);
      hide Number, TenTo, Digits, Digit;
      Shifted(Number(a) as real, TenTo(|c|), Number(c) as real, Digit(d) as real);
    }
  }

  lemma Over(n: real, p: real, m: real)
    requires p > 0.0
    ensures Spread(n, p, m) / p == n + m / p
  {
  }

  lemma MantissaSplits(whole: string, fraction: string)
    requires Digits(whole) && Digits(fraction)
    ensures Mantissa(whole, fraction) == Number(whole) as real + Decimals(Number(fraction), |fraction|)
  {
    NumberJoin(whole, fraction);
    hide Number, TenTo, Digits, Spread;
    Over(Number(whole) as real, TenTo(|fraction|), Number(fraction) as real);
  }

  lemma MantissaWhole(whole: string)
    requires Digits(whole)
    ensures Mantissa(whole, "") == Number(whole) as real
  {
    assert whole + "" == whole;
  }

  /** An exponent that was cut out of `u` is read as written. */
  lemma ExponentCut(e: Option<Exponent>, u: string)
    requires u[..ExponentPart(u)] == ExponentText(e) && (e.Some? ==> ExponentFormed(e.value))
    ensures e.None? <==> ExponentPart(u) == 0
    ensures e.Some? ==> u[1..ExponentHead(u)] == e.value.sign && u[ExponentHead(u)..ExponentPart(u)] == e.value.digits
  {
    if e.Some? {
      var x, n := e.value, ExponentPart(u);
      assert u[0] == x.mark && |u[..n]| == n == 1 + |x.sign| + |x.digits|;
      if |x.sign| > 0 {
        assert u[..n][1] == x.sign[0];
      } else if |x.digits| > 0 {
        assert u[..n][1] == x.digits[0];
      }
      assert ExponentHead(u) == 1 + |x.sign|;
      assert u[1..ExponentHead(u)] == u[..n][1..ExponentHead(u)];
      assert u[ExponentHead(u)..n] == u[..n][ExponentHead(u)..];
    }
  }

  lemma FractionCut(f: Option<string>, t: string)
    requires t[..PointPart(t)] == FractionText(f)
    ensures f.None? <==> PointPart(t) == 0
    ensures f.Some? ==> t[1..PointPart(t)] == f.value && PointPart(t) - 1 == |f.value|
  {
    if f.Some? {
      assert |t[..PointPart(t)]| == PointPart(t);
      assert t[1..PointPart(t)] == t[..PointPart(t)][1..];
    }
  }

  /** The parts as they were written. */
  ghost predicate TailIs(f: Option<string>, e: Option<Exponent>, t: string) {
    && t[..PointPart(t)] == FractionText(f)
    && t[PointPart(t)..][..ExponentPart(t[PointPart(t)..])] == ExponentText(e)
  }

  lemma TailScaled(whole: string, f: Option<string>, e: Option<Exponent>, t: string)
    requires |whole| > 0 && Digits(whole) && TailIs(f, e, t)
    requires (f.Some? ==> Digits(f.value)) && (e.Some? ==> ExponentFormed(e.value))
    ensures TailValue(Number(whole) as real, t) == Magnitude(whole, f, e)
    ensures TailLength(t) == 0 <==> f.None? && e.None?
  {
    hide PointPart, ExponentPart, ExponentHead, Mantissa, Number, TenTo, Decimals;
    FractionCut(f, t);
    ExponentCut(e, t[PointPart(t)..]);
    if f.Some? {
      MantissaSplits(whole, f.value);
    } else {
      MantissaWhole(whole);
    }
    hide Digits, FractionText, ExponentText, TailIs;
  }

  lemma Undivided(whole: string)
    requires Digits(whole)
    ensures Magnitude(whole, None, None) == Number(whole) as real
  {
    hide Number, Mantissa, Digits;
    MantissaWhole(whole);
  }

  lemma TailMeans(neg: bool, whole: string, f: Option<string>, e: Option<Exponent>, t: string)
    requires |whole| > 0 && Digits(whole) && TailIs(f, e, t)
    requires (f.Some? ==> Digits(f.value)) && (e.Some? ==> ExponentFormed(e.value))
    ensures NumberValue(neg, Number(whole), t) == NumMeaning(neg, whole, f, e)
  {
    hide Magnitude, TailValue, TailLength, TailIs, Number, Digits;
    TailScaled(whole, f, e, t);
    Undivided(whole);
  }

  lemma PointReads(f: Option<string>, rest: string)
    requires f.Some? ==> Digits(f.value)
    requires |rest| > 0 ==> !IsDigit(rest[0]) && rest[0] != '.'
    ensures PointPart(FractionText(f) + rest) == |FractionText(f)|
  {
    if f.Some? {
      assert (FractionText(f) + rest)[1..] == f.value + rest;
      SpanDigits(f.value, rest);
    } else {
      assert FractionText(f) + rest == rest;
    }
  }

  lemma HeadReads(x: Exponent, post: string)
    requires ExponentFormed(x) && Stops(post)
    ensures ExponentHead([x.mark] + x.sign + x.digits + post) == 1 + |x.sign|
  {
    var u := [x.mark] + x.sign + x.digits + post;
    if |x.sign| > 0 {
      assert u[1] == x.sign[0];
    } else if |x.digits| > 0 {
      assert u[1] == x.digits[0];
    } else if |post| > 0 {
      assert u[1] == post[0];
    }
  }

  lemma ExponentReads(e: Option<Exponent>, post: string)
    requires (e.Some? ==> ExponentFormed(e.value)) && Stops(post)
    ensures ExponentPart(ExponentText(e) + post) == |ExponentText(e)|
  {
    if e.Some? {
      var x := e.value;
      var u := [x.mark] + x.sign + x.digits + post;
      HeadReads(x, post);
      assert u[1 + |x.sign|..] == x.digits + post;
      SpanDigits(x.digits, post);
    } else {
      assert ExponentText(e) + post == post;
    }
  }

  lemma ExponentStarts(e: Option<Exponent>, post: string)
    requires (e.Some? ==> ExponentFormed(e.value)) && Stops(post)
    ensures var t := ExponentText(e) + post; |t| > 0 ==> !IsDigit(t[0]) && t[0] != '.'
  {
    if e.None? {
      assert ExponentText(e) + post == post;
    }
  }

  lemma Pieced(a: string, b: string, c: string)
    ensures var t := a + (b + c);
      t[..|a|] == a && t[|a|..] == b + c && t[|a|..][..|b|] == b && t[|a| + |b|..] == c
  {
  }

  lemma NoDigitFirst(f: Option<string>, u: string)
    requires |u| > 0 ==> !IsDigit(u[0])
    ensures var t := FractionText(f) + u; |t| > 0 ==> !IsDigit(t[0])
  {
    assert "" + u == u;
  }

  lemma TailReads(f: Option<string>, e: Option<Exponent>, post: string)
    requires (f.Some? ==> Digits(f.value)) && (e.Some? ==> ExponentFormed(e.value)) && Stops(post)
    ensures var t := FractionText(f) + (ExponentText(e) + post);
      TailIs(f, e, t) && t[TailLength(t)..] == post && (|t| > 0 ==> !IsDigit(t[0]))
  {
    hide PointPart, ExponentPart, Stops, ExponentFormed, ExponentText, FractionText;
    ExponentReads(e, post);
    ExponentStarts(e, post);
    PointReads(f, ExponentText(e) + post);
    Pieced(FractionText(f), ExponentText(e), post);
    NoDigitFirst(f, ExponentText(e) + post);
  }

  lemma DigitsReadAs(neg: bool, whole: string, t: string)
    requires |whole| > 0 && Digits(whole) && (|t| > 0 ==> !IsDigit(t[0]))
    ensures ReadDigits(neg, whole + t) == Ok(NumberValue(neg, Number(whole), t), t[TailLength(t)..])
  {
    hide Number, NumberValue, TailLength;
    SpanDigits(whole, t);
    assert (whole + t)[..|whole|] == whole && (whole + t)[|whole|..] == t;
  }

  lemma SignReads(neg: bool, u: string)
    requires |u| > 0 && IsDigit(u[0])
    ensures ReadNumber(if neg then "-" + u else u) == ReadDigits(neg, u)
  {
    hide ReadDigits;
    assert ("-" + u)[1..] == u;
  }

  lemma Regrouped(a: string, b: string, c: string, d: string, post: string)
    ensures a + b + c + d + post == a + (b + (c + (d + post)))
  {
  }

  lemma NumReads(neg: bool, whole: string, f: Option<string>, e: Option<Exponent>, post: string)
    requires |whole| > 0 && Digits(whole) && Stops(post)
    requires (f.Some? ==> Digits(f.value)) && (e.Some? ==> ExponentFormed(e.value))
    ensures ReadNumber(NumText(neg, whole, f, e) + post) == Ok(NumMeaning(neg, whole, f, e), post)
  {
    var t := FractionText(f) + (ExponentText(e) + post);
    var u := whole + t;
    TailReads(f, e, post);
    TailMeans(neg, whole, f, e, t);
    DigitsReadAs(neg, whole, t);
    assert u[0] == whole[0];
    SignReads(neg, u);
    Regrouped(if neg then "-" else "", whole, FractionText(f), ExponentText(e), post);
    hide *;
    assert "" + u == u;
  }

  lemma FractionRead(t: string) returns (f: Option<string>)
    ensures t[..PointPart(t)] == FractionText(f) && (f.Some? ==> Digits(f.value))
  {
    var p := PointPart(t);
    if p == 0 {
      f := None;
    } else {
      f := Some(t[1..p]);
      assert t[..p] == "." + t[1..p];
    }
  }

  lemma SignRead(u: string)
    requires ExponentHead(u) > 0
    ensures u[0] in "eE" && u[1..ExponentHead(u)] in ["", "+", "-"]
  {
    if ExponentHead(u) > 1 {
      assert u[1..ExponentHead(u)] == [u[1]] == (if u[1] == '+' then "+" else "-");
    } else {
      assert u[1..ExponentHead(u)] == "";
    }
  }

  lemma ExponentRead(u: string) returns (e: Option<Exponent>)
    ensures u[..ExponentPart(u)] == ExponentText(e) && (e.Some? ==> ExponentFormed(e.value))
  {
    var q, h := ExponentPart(u), ExponentHead(u);
    if q == 0 {
      e := None;
    } else {
      SignRead(u);
      hide ExponentPart, ExponentHead;
      e := Some(Exponent(u[0], u[1..h], u[h..q]));
      assert u[..q] == [u[0]] + u[1..h] + u[h..q];
    }
  }

  lemma TailRead(t: string) returns (f: Option<string>, e: Option<Exponent>)
    ensures (f.Some? ==> Digits(f.value)) && (e.Some? ==> ExponentFormed(e.value))
    ensures TailIs(f, e, t) && t == FractionText(f) + ExponentText(e) + t[TailLength(t)..]
  {
    hide PointPart, ExponentPart, FractionText, ExponentText, ExponentFormed, Digits;
    f := FractionRead(t);
    var p := PointPart(t);
    e := ExponentRead(t[p..]);
    var q := ExponentPart(t[p..]);
    assert t == t[..p] + t[p..][..q] + t[p + q..];
  }

  lemma DigitsRead(neg: bool, u: string) returns (whole: string, f: Option<string>, e: Option<Exponent>)
    requires ReadDigits(neg, u).Ok?
    ensures |whole| > 0 && Digits(whole)
    ensures (f.Some? ==> Digits(f.value)) && (e.Some? ==> ExponentFormed(e.value))
    ensures u == whole + (FractionText(f) + ExponentText(e) + ReadDigits(neg, u).rest)
    ensures NumMeaning(neg, whole, f, e) == ReadDigits(neg, u).value
  {
    var n := Span(u);
    whole := u[..n];
    hide TailIs, NumberValue, NumMeaning, TailLength, FractionText, ExponentText, Number, Span;
    f, e := TailRead(u[n..]);
    TailMeans(neg, whole, f, e, u[n..]);
    Rejoined(u, n);
  }

  lemma Rejoined(t: string, n: nat)
    requires n <= |t|
    ensures t == t[..n] + t[n..]
  {
  }

  lemma Regathered(t: string, sign: string, a: string, b: string, c: string, d: string)
    requires t == sign + (a + (b + c + d))
    ensures t == sign + a + b + c + d
  {
  }

  lemma MinusRead(t: string) returns (neg: bool, u: string)
    ensures ReadNumber(t) == ReadDigits(neg, u) && t == (if neg then "-" else "") + u
  {
    neg := |t| > 0 && t[0] == '-';
    u := if neg then t[1..] else t;
  }

  lemma NumRead(t: string) returns (neg: bool, whole: string, f: Option<string>, e: Option<Exponent>)
    requires ReadNumber(t).Ok?
    ensures |whole| > 0 && Digits(whole)
    ensures (f.Some? ==> Digits(f.value)) && (e.Some? ==> ExponentFormed(e.value))
    ensures t == NumText(neg, whole, f, e) + ReadNumber(t).rest && NumMeaning(neg, whole, f, e) == ReadNumber(t).value
  {
    var u;
    neg, u := MinusRead(t);
    hide NumMeaning, ReadDigits, ReadNumber, FractionText, ExponentText, Digits, ExponentFormed;
    whole, f, e := DigitsRead(neg, u);
    Regathered(t, if neg then "-" else "", whole, FractionText(f), ExponentText(e), ReadNumber(t).rest);
  }

  // ---------------------------------------------------------------- documents

  lemma ValueSkips(t: string)
    ensures ReadValue(SkipWs(t)) == ReadValue(t)
  {
    SkipAgain(t);
    hide ReadElems, ReadMembers, ReadString, ReadNumber, ReadWord, SkipWs, IsSpace;
  }

  /** A document starts with a character that is neither space nor a closing bracket. */
  lemma DocStarts(d: Doc, post: string)
    requires Formed(d)
    ensures |Onto(d, post)| > 0 && !IsSpace(Onto(d, post)[0]) && Onto(d, post)[0] !in "]}"
  {
    if d.Num? {
      var t := NumText(d.neg, d.whole, d.fraction, d.exponent);
      assert t[0] == if d.neg then '-' else d.whole[0];
      assert Onto(d, post)[0] == t[0];
    }
  }

  lemma SpaceThen(ws: string, t: string)
    requires Space(ws) && |t| > 0 && !IsSpace(t[0])
    ensures SkipWs(ws + t) == t
  {
    SkipAll(ws, t);
  }

  lemma ElemStep(t: string, acc: seq<Value>, v: Value, after: string, rest: string)
    requires ReadValue(t) == Ok(v, after + rest) && Space(after) && |rest| > 0 && !IsSpace(rest[0])
    ensures ReadElems(t, acc) ==
      if rest[0] == ']' then Ok(Array(acc + [v]), rest[1..])
      else if rest[0] == ',' then ReadElems(rest[1..], acc + [v]) else Bad
  {
    hide ReadValue;
    ValueSkips(t);
    SpaceThen(after, rest);
  }

  lemma StringReads(p: seq<Piece>, s: string, post: string)
    requires AllSpell(p, s)
    ensures ReadString(PiecesText(p) + ("\"" + post)) == Ok(s, post)
  {
    hide *;
    SpellingReads(p, s, post);
    assert PiecesText(p) + ("\"" + post) == PiecesText(p) + "\"" + post;
  }

  lemma NameReads(f: Field, value: string)
    requires FieldFormed(f)
    ensures var t := SkipWs(NameOnto(f, value));
      && |t| > 0 && t[0] == '"'
      && ReadString(t[1..]) == Ok(f.name, f.close + (":" + (f.open + value)))
  {
    hide ReadString, PiecesText, AllSpell;
    var rest := f.close + (":" + (f.open + value));
    var u := PiecesText(f.pieces) + ("\"" + rest);
    SpaceThen(f.before, "\"" + u);
    assert ("\"" + u)[1..] == u;
    StringReads(f.pieces, f.name, rest);
  }

  lemma FieldStep(f: Field, m: seq<Member>, v: Value, value: string, rest: string)
    requires FieldFormed(f) && ReadValue(value) == Ok(v, f.after + rest) && |rest| > 0 && !IsSpace(rest[0])
    ensures ReadMembers(NameOnto(f, value), m) ==
      if rest[0] == '}' then Ok(Object(Put(m, f.name, v)), rest[1..])
      else if rest[0] == ',' then ReadMembers(rest[1..], Put(m, f.name, v)) else Bad
  {
    NameReads(f, value);
    var c := ":" + (f.open + value);
    SpaceThen(f.close, c);
    assert c[1..] == f.open + value;
    SkipAll(f.open, value);
    ValueSkips(value);
    SpaceThen(f.after, rest);
    hide ReadValue, ReadString, NameOnto, Put, FieldFormed;
  }

  lemma StopsAfter(after: string, rest: string)
    requires Space(after) && |rest| > 0 && rest[0] in ",]}"
    ensures Stops(after + rest)
  {
    var t := after + rest;
    if |after| > 0 {
      assert t[0] == after[0];
    } else {
      assert t[0] == rest[0];
    }
  }

  /** Every spelling of a document, after any space, reads as what it means and leaves what follows. */
  lemma {:induction false} DocReads(d: Doc, ws: string, post: string)
    requires Formed(d) && Space(ws) && Stops(post)
    ensures ReadValue(ws + Onto(d, post)) == Ok(Meaning(d), post)
    decreases d, 3
  {
    hide ReadValue, Meaning, Stops, Space, Formed, Onto;
    ValueReads(d, post);
    DocStarts(d, post);
    SpaceThen(ws, Onto(d, post));
    ValueSkips(ws + Onto(d, post));
  }

  lemma {:induction false} ValueReads(d: Doc, post: string)
    requires Formed(d) && Stops(post)
    ensures ReadValue(Onto(d, post)) == Ok(Meaning(d), post)
    decreases d, 2
  {
    match d
    case Nil => WordReads("null", Null, post);
    case Flag(b) => WordReads(if b then "true" else "false", Bool(b), post);
    case Num(neg, whole, f, e) => NumValueReads(neg, whole, f, e, post);
    case Str(p, s) => StrReads(p, s, post);
    case List(gap, items) =>
      if |items| == 0 {
        NoItems(gap, post);
      } else {
        ItemsRead(items, [], post);
        ListReads(gap, items, post);
      }
    case Record(gap, fields) =>
      if |fields| == 0 {
        NoFields(gap, post);
      } else {
        FieldsRead(fields, [], post);
        RecordReads(gap, fields, post);
      }
  }

  lemma NumberAhead(t: string)
    requires |t| > 0 && (t[0] == '-' || IsDigit(t[0]))
    ensures ReadValue(t) == ReadNumber(t)
  {
    hide ReadElems, ReadMembers, ReadString, ReadNumber, ReadWord;
  }

  lemma NumStarts(neg: bool, whole: string, f: Option<string>, e: Option<Exponent>, post: string)
    requires |whole| > 0
    ensures |NumText(neg, whole, f, e)| > 0
    ensures (NumText(neg, whole, f, e) + post)[0] == if neg then '-' else whole[0]
  {
  }

  lemma NumValueReads(neg: bool, whole: string, f: Option<string>, e: Option<Exponent>, post: string)
    requires Formed(Num(neg, whole, f, e)) && Stops(post)
    ensures ReadValue(Onto(Num(neg, whole, f, e), post)) == Ok(Meaning(Num(neg, whole, f, e)), post)
  {
    hide ReadNumber, NumMeaning, NumText, ReadValue;
    NumReads(neg, whole, f, e, post);
    NumStarts(neg, whole, f, e, post);
    NumberAhead(NumText(neg, whole, f, e) + post);
  }

  lemma StrReads(p: seq<Piece>, s: string, post: string)
    requires AllSpell(p, s)
    ensures ReadValue(Onto(Str(p, s), post)) == Ok(String(s), post)
  {
    hide ReadString, AllSpell, PiecesText;
    var u := PiecesText(p) + ("\"" + post);
    StringReads(p, s, post);
    assert ("\"" + u)[1..] == u;
  }

  /** Past an opening bracket: what `SkipWs` leaves decides. */
  lemma OpensList(u: string)
    ensures ReadValue("[" + u) == var w := SkipWs(u);
      if |w| > 0 && w[0] == ']' then Ok(Array([]), w[1..]) else ReadElems(u, [])
  {
    NoSpace("[" + u);
    assert ("[" + u)[1..] == u;
    ElemsSkip(u, []);
    hide ReadElems, ReadMembers, ReadString, ReadNumber, SkipWs;
  }

  lemma ElemsSkip(u: string, acc: seq<Value>)
    ensures ReadElems(SkipWs(u), acc) == ReadElems(u, acc)
  {
    hide ReadValue;
    SkipAgain(u);
  }

  lemma OpensRecord(u: string)
    ensures ReadValue("{" + u) == var w := SkipWs(u);
      if |w| > 0 && w[0] == '}' then Ok(Object([]), w[1..]) else ReadMembers(u, [])
  {
    NoSpace("{" + u);
    assert ("{" + u)[1..] == u;
    MembersSkip(u, []);
    hide ReadElems, ReadMembers, ReadString, ReadNumber, SkipWs;
  }

  lemma MembersSkip(u: string, m: seq<Member>)
    ensures ReadMembers(SkipWs(u), m) == ReadMembers(u, m)
  {
    hide ReadValue;
    SkipAgain(u);
  }

  lemma NoItems(gap: string, post: string)
    requires Space(gap)
    ensures ReadValue(Onto(List(gap, []), post)) == Ok(Array([]), post)
  {
    SpaceThen(gap, "]" + post);
    OpensList(gap + ("]" + post));
    hide ReadValue;
  }

  lemma NoFields(gap: string, post: string)
    requires Space(gap)
    ensures ReadValue(Onto(Record(gap, []), post)) == Ok(Object([]), post)
  {
    SpaceThen(gap, "}" + post);
    OpensRecord(gap + ("}" + post));
    hide ReadValue;
  }

  lemma ListReads(gap: string, items: seq<Item>, post: string)
    requires |items| > 0 && Formed(List(gap, items))
    requires ReadElems(ItemsOnto(items, post), []) == Ok(Array([] + Meanings(items)), post)
    ensures ReadValue(Onto(List(gap, items), post)) == Ok(Meaning(List(gap, items)), post)
  {
    var u := ItemsOnto(items, post);
    var rest := if |items| == 1 then "]" + post else "," + ItemsOnto(items[1..], post);
    DocStarts(items[0].doc, items[0].after + rest);
    SpaceThen(items[0].before, Onto(items[0].doc, items[0].after + rest));
    OpensList(u);
    assert [] + Meanings(items) == Meanings(items);
    hide ReadValue, ReadElems, Meanings, ItemsFormed;
  }

  lemma RecordReads(gap: string, fields: seq<Field>, post: string)
    requires |fields| > 0 && Formed(Record(gap, fields))
    requires ReadMembers(FieldsOnto(fields, post), []) == Ok(Object(PutAll([], Members(fields))), post)
    ensures ReadValue(Onto(Record(gap, fields), post)) == Ok(Meaning(Record(gap, fields)), post)
  {
    var rest := if |fields| == 1 then "}" + post else "," + FieldsOnto(fields[1..], post);
    NameReads(fields[0], Onto(fields[0].doc, fields[0].after + rest));
    OpensRecord(FieldsOnto(fields, post));
    hide ReadValue, ReadMembers, Members, FieldsFormed, NameOnto, Onto;
  }

  lemma {:induction false} ItemsRead(a: seq<Item>, acc: seq<Value>, post: string)
    requires |a| > 0 && ItemsFormed(a)
    ensures ReadElems(ItemsOnto(a, post), acc) == Ok(Array(acc + Meanings(a)), post)
    decreases a, 0
  {
    var rest := if |a| == 1 then "]" + post else "," + ItemsOnto(a[1..], post);
    var v := Meaning(a[0].doc);
    assert rest[0] in ",]}" && !IsSpace(rest[0]);
    StopsAfter(a[0].after, rest);
    DocReads(a[0].doc, a[0].before, a[0].after + rest);
    ElemStep(ItemsOnto(a, post), acc, v, a[0].after, rest);
    if |a| > 1 {
      assert rest[1..] == ItemsOnto(a[1..], post);
      ItemsRead(a[1..], acc + [v], post);
    }
    Grouped(acc, [v], Meanings(a[1..]));
    hide ReadValue, ReadElems, Meaning, Formed, Onto, Stops, Space;
  }

  lemma {:induction false} FieldsRead(a: seq<Field>, m: seq<Member>, post: string)
    requires |a| > 0 && FieldsFormed(a)
    ensures ReadMembers(FieldsOnto(a, post), m) == Ok(Object(PutAll(m, Members(a))), post)
    decreases a, 0
  {
    var rest := if |a| == 1 then "}" + post else "," + FieldsOnto(a[1..], post);
    var v, value := Meaning(a[0].doc), Onto(a[0].doc, a[0].after + rest);
    assert rest[0] in ",]}" && !IsSpace(rest[0]);
    StopsAfter(a[0].after, rest);
    DocReads(a[0].doc, "", a[0].after + rest);
    assert "" + value == value;
    FieldStep(a[0], m, v, value, rest);
    if |a| > 1 {
      assert rest[1..] == FieldsOnto(a[1..], post);
      FieldsRead(a[1..], Put(m, a[0].name, v), post);
    }
    assert Members(a)[1..] == Members(a[1..]);
    hide ReadValue, ReadMembers, Meaning, Formed, Onto, Stops, Space, NameOnto, Put, FieldFormed;
  }

  // ---------------------------------------------------------------- whatever reads was a spelling

  lemma {:induction false} SpaceRead(t: string) returns (ws: string)
    ensures Space(ws) && t == ws + SkipWs(t)
  {
    if |t| > 0 && IsSpace(t[0]) {
      var r := SpaceRead(t[1..]);
      ws := [t[0]] + r;
      assert t == [t[0]] + t[1..];
      Associate([t[0]], r, SkipWs(t));
    } else {
      ws := "";
    }
  }

  lemma {:induction false} DocRead(t: string) returns (ws: string, d: Doc)
    requires ReadValue(t).Ok?
    ensures Space(ws) && Formed(d) && Meaning(d) == ReadValue(t).value && t == ws + Onto(d, ReadValue(t).rest)
    decreases |t|, 2
  {
    hide ReadValue, Meaning, Space, Formed, Onto;
    ws := SpaceRead(t);
    ValueSkips(t);
    SkipAgain(t);
    d := ValueRead(SkipWs(t));
  }

  lemma WordRead(t: string, word: string, v: Value)
    requires |word| > 0 && ReadWord(t, word, v).Ok?
    ensures ReadWord(t, word, v).value == v && t == word + ReadWord(t, word, v).rest
  {
  }

  lemma {:induction false} ValueRead(t: string) returns (d: Doc)
    requires SkipWs(t) == t && ReadValue(t).Ok?
    ensures Formed(d) && Meaning(d) == ReadValue(t).value && t == Onto(d, ReadValue(t).rest)
    decreases |t|, 1
  {
    hide ReadValue, ReadNumber, NumText, NumMeaning, Meaning, Formed, Onto;
    FirstChar(t);
    if t[0] == '"' {
      d := StrRead(t);
    } else if t[0] == '[' {
      d := ListRead(t);
    } else if t[0] == '{' {
      d := RecordRead(t);
    } else if t[0] == '-' || IsDigit(t[0]) {
      d := NumDocRead(t);
    } else {
      d := WordsRead(t);
    }
  }

  lemma FirstChar(t: string)
    requires SkipWs(t) == t && ReadValue(t).Ok?
    ensures |t| > 0
  {
    hide ReadElems, ReadMembers, ReadString, ReadNumber, ReadWord;
  }

  lemma NumDocRead(t: string) returns (d: Doc)
    requires |t| > 0 && (t[0] == '-' || IsDigit(t[0])) && ReadValue(t).Ok?
    ensures Formed(d) && Meaning(d) == ReadValue(t).value && t == Onto(d, ReadValue(t).rest)
  {
    hide ReadValue, ReadNumber, NumText, NumMeaning;
    NumberAhead(t);
    var neg, whole, f, e := NumRead(t);
    d := Num(neg, whole, f, e);
  }

  lemma WordsRead(t: string) returns (d: Doc)
    requires SkipWs(t) == t && ReadValue(t).Ok? && t[0] !in "\"[{-" && !IsDigit(t[0])
    ensures Formed(d) && Meaning(d) == ReadValue(t).value && t == Onto(d, ReadValue(t).rest)
  {
    hide ReadString, ReadNumber, ReadElems, ReadMembers, ReadWord;
    if t[0] == 't' {
      WordRead(t, "true", Bool(true));
      d := Flag(true);
    } else if t[0] == 'f' {
      WordRead(t, "false", Bool(false));
      d := Flag(false);
    } else {
      WordRead(t, "null", Null);
      d := Nil;
    }
  }

  lemma StrRead(t: string) returns (d: Doc)
    requires SkipWs(t) == t && ReadValue(t).Ok? && t[0] == '"'
    ensures Formed(d) && Meaning(d) == ReadValue(t).value && t == Onto(d, ReadValue(t).rest)
  {
    hide ReadString, AllSpell, PiecesText;
    var p := ReadIsSpelling(t[1..]);
    d := Str(p, ReadString(t[1..]).value);
    assert t == "\"" + t[1..];
  }

  lemma {:induction false} ListRead(t: string) returns (d: Doc)
    requires SkipWs(t) == t && ReadValue(t).Ok? && t[0] == '['
    ensures Formed(d) && Meaning(d) == ReadValue(t).value && t == Onto(d, ReadValue(t).rest)
    decreases |t|, 0
  {
    hide ReadValue, ReadElems, Meanings, ItemsOnto, ItemsFormed, Space;
    var u := t[1..];
    assert t == "[" + u;
    OpensList(u);
    var w := SkipWs(u);
    if |w| > 0 && w[0] == ']' {
      var gap := SpaceRead(u);
      d := List(gap, []);
      assert w == "]" + w[1..];
      NothingMeant();
    } else {
      var a := ElemsRead(u, []);
      d := List("", a);
      assert [] + Meanings(a) == Meanings(a);
      NoSpaceAtAll();
    }
  }

  lemma NoSpaceAtAll()
    ensures Space("")
  {
  }

  lemma NothingMeant()
    ensures ItemsFormed([]) && Meanings([]) == [] && FieldsFormed([]) && Members([]) == []
  {
  }

  lemma {:induction false} RecordRead(t: string) returns (d: Doc)
    requires SkipWs(t) == t && ReadValue(t).Ok? && t[0] == '{'
    ensures Formed(d) && Meaning(d) == ReadValue(t).value && t == Onto(d, ReadValue(t).rest)
    decreases |t|, 0
  {
    hide ReadValue, ReadMembers, Members, FieldsOnto, FieldsFormed, Space;
    var u := t[1..];
    assert t == "{" + u;
    OpensRecord(u);
    var w := SkipWs(u);
    if |w| > 0 && w[0] == '}' {
      var gap := SpaceRead(u);
      d := Record(gap, []);
      assert w == "}" + w[1..];
      NothingMeant();
    } else {
      var a := MembersReadBack(u, []);
      d := Record("", a);
      NoSpaceAtAll();
    }
  }

  /** The loop over elements went through one element at least. */
  lemma FirstElem(t: string, acc: seq<Value>)
    requires ReadElems(t, acc).Ok?
    ensures ReadValue(t).Ok? && |SkipWs(ReadValue(t).rest)| > 0
    ensures var w := SkipWs(ReadValue(t).rest);
      ReadElems(t, acc) ==
        if w[0] == ']' then Ok(Array(acc + [ReadValue(t).value]), w[1..])
        else if w[0] == ',' then ReadElems(w[1..], acc + [ReadValue(t).value]) else Bad
  {
    hide ReadValue;
    ValueSkips(t);
  }

  lemma ItemsCons(x: Item, a: seq<Item>, post: string)
    requires |a| > 0
    ensures ItemsOnto([x] + a, post) == x.before + Onto(x.doc, x.after + ("," + ItemsOnto(a, post)))
  {
    assert ([x] + a)[1..] == a;
    hide Onto;
  }

  lemma ItemsMean(x: Item, a: seq<Item>)
    requires Space(x.before) && Formed(x.doc) && Space(x.after) && ItemsFormed(a)
    ensures ItemsFormed([x] + a) && Meanings([x] + a) == [Meaning(x.doc)] + Meanings(a)
  {
    assert ([x] + a)[1..] == a;
    hide Space, Formed, Meaning;
  }

  lemma {:induction false} ElemsRead(t: string, acc: seq<Value>) returns (a: seq<Item>)
    requires ReadElems(t, acc).Ok?
    ensures |a| > 0 && ItemsFormed(a) && t == ItemsOnto(a, ReadElems(t, acc).rest)
    ensures ReadElems(t, acc).value == Array(acc + Meanings(a))
    decreases |t|, 3
  {
    FirstElem(t, acc);
    var v, rest := ReadValue(t).value, ReadValue(t).rest;
    var ws, d := DocRead(t);
    var after := SpaceRead(rest);
    var w := SkipWs(rest);
    var x := Item(ws, d, after);
    NothingMeant();
    hide ReadValue, ReadElems, Meaning, Formed, Onto, Space, ItemsFormed, Meanings;
    if w[0] == ']' {
      a := [x];
      ItemsMean(x, []);
      assert [x] + [] == [x] && [v] + [] == [v] && w == "]" + w[1..];
    } else {
      var b := ElemsRead(w[1..], acc + [v]);
      a := [x] + b;
      ItemsMean(x, b);
      ItemsCons(x, b, ReadElems(t, acc).rest);
      assert w == "," + w[1..];
      Grouped(acc, [v], Meanings(b));
    }
  }

  lemma NameRead(t: string, m: seq<Member>) returns (f: Field, value: string)
    requires ReadMembers(t, m).Ok?
    ensures FieldFormed(f) && t == NameOnto(f, value)
    ensures |value| < |t| && SkipWs(value) == value && ReadValue(value).Ok?
    ensures |SkipWs(ReadValue(value).rest)| > 0
    ensures var w, n := SkipWs(ReadValue(value).rest), Put(m, f.name, ReadValue(value).value);
      ReadMembers(t, m) ==
        if w[0] == '}' then Ok(Object(n), w[1..]) else if w[0] == ',' then ReadMembers(w[1..], n) else Bad
  {
    hide ReadValue, ReadString, PiecesText, AllSpell, Put;
    var u := SkipWs(t);
    var rest := ReadString(u[1..]).rest;
    var c := SkipWs(rest);
    value := SkipWs(c[1..]);
    var before := SpaceRead(t);
    var p := ReadIsSpelling(u[1..]);
    var close := SpaceRead(rest);
    var open := SpaceRead(c[1..]);
    SkipAgain(c[1..]);
    f := Field(before, p, ReadString(u[1..]).value, close, open, Nil, "");
    NameJoined(t, before, u, PiecesText(p), rest, close, c, open, value);
  }

  lemma NameJoined(t: string, before: string, u: string, p: string, rest: string, close: string, c: string,
                   open: string, value: string)
    requires t == before + u && |u| > 0 && u[0] == '"' && u[1..] == p + ("\"" + rest)
    requires rest == close + c && |c| > 0 && c[0] == ':' && c[1..] == open + value
    ensures t == before + ("\"" + (p + ("\"" + (close + (":" + (open + value))))))
  {
    assert c == ":" + c[1..];
    assert u == "\"" + u[1..];
  }

  lemma FieldsCons(x: Field, a: seq<Field>, post: string)
    requires |a| > 0
    ensures FieldsOnto([x] + a, post) == NameOnto(x, Onto(x.doc, x.after + ("," + FieldsOnto(a, post))))
  {
    assert ([x] + a)[1..] == a;
    hide Onto, NameOnto;
  }

  lemma FieldsMean(x: Field, a: seq<Field>)
    requires FieldFormed(x) && Formed(x.doc) && FieldsFormed(a)
    ensures FieldsFormed([x] + a) && Members([x] + a) == [Member(x.name, Meaning(x.doc))] + Members(a)
  {
    assert ([x] + a)[1..] == a;
    hide FieldFormed, Formed, Meaning;
  }

  lemma PutFirst(m: seq<Member>, name: string, v: Value, f: seq<Member>)
    ensures PutAll(m, [Member(name, v)] + f) == PutAll(Put(m, name, v), f)
  {
    assert ([Member(name, v)] + f)[1..] == f;
    hide Put;
  }

  lemma Finished(f: Field, d: Doc, after: string)
    requires FieldFormed(f) && Space(after)
    ensures FieldFormed(f.(doc := d, after := after))
  {
    hide Space, AllSpell;
  }

  lemma {:induction false} MembersReadBack(t: string, m: seq<Member>) returns (a: seq<Field>)
    requires ReadMembers(t, m).Ok?
    ensures |a| > 0 && FieldsFormed(a) && t == FieldsOnto(a, ReadMembers(t, m).rest)
    ensures ReadMembers(t, m).value == Object(PutAll(m, Members(a)))
    decreases |t|, 3
  {
    var f, value := NameRead(t, m);
    var v, rest := ReadValue(value).value, ReadValue(value).rest;
    var d := ValueRead(value);
    var after := SpaceRead(rest);
    var w := SkipWs(rest);
    var x := f.(doc := d, after := after);
    Finished(f, d, after);
    NothingMeant();
    hide ReadValue, ReadMembers, Meaning, Formed, Onto, Space, FieldsFormed, Members, Put, PutAll, FieldFormed;
    assert t == NameOnto(x, Onto(d, after + w));
    if w[0] == '}' {
      a := [x];
      LastField(t, m, x, w, v);
    } else {
      var b := MembersReadBack(w[1..], Put(m, x.name, v));
      a := [x] + b;
      MoreFields(t, m, x, w, v, b, ReadMembers(t, m).rest);
    }
  }

  lemma LastField(t: string, m: seq<Member>, x: Field, w: string, v: Value)
    requires FieldFormed(x) && Formed(x.doc) && Meaning(x.doc) == v
    requires |w| > 0 && w[0] == '}' && t == NameOnto(x, Onto(x.doc, x.after + w))
    ensures FieldsFormed([x]) && t == FieldsOnto([x], w[1..]) && PutAll(m, Members([x])) == Put(m, x.name, v)
  {
    hide Meaning, Formed, Onto, Put, FieldFormed, NameOnto, FieldsFormed, Members;
    NothingMeant();
    FieldsMean(x, []);
    PutFirst(m, x.name, v, []);
    PutNothing(Put(m, x.name, v));
    assert [x] + [] == [x] && w == "}" + w[1..];
    assert [Member(x.name, v)] + [] == [Member(x.name, v)];
  }

  lemma MoreFields(t: string, m: seq<Member>, x: Field, w: string, v: Value, b: seq<Field>, rest: string)
    requires FieldFormed(x) && Formed(x.doc) && Meaning(x.doc) == v && |b| > 0 && FieldsFormed(b)
    requires |w| > 0 && w[0] == ',' && t == NameOnto(x, Onto(x.doc, x.after + w)) && w[1..] == FieldsOnto(b, rest)
    ensures FieldsFormed([x] + b) && t == FieldsOnto([x] + b, rest)
    ensures PutAll(m, Members([x] + b)) == PutAll(Put(m, x.name, v), Members(b))
  {
    hide *;
    FieldsMean(x, b);
    PutFirst(m, x.name, v, Members(b));
    FieldsCons(x, b, rest);
    assert w == "," + w[1..];
  }

  lemma PutNothing(m: seq<Member>)
    ensures PutAll(m, []) == m
  {
  }

  // ---------------------------------------------------------------- the language, exactly

  /** `t` is a document with space around it that means `v`. */
  ghost predicate Spelt(t: string, v: Value) {
    exists ws, d, after :: SpeltBy(t, v, ws, d, after)
  }

  ghost predicate SpeltBy(t: string, v: Value, ws: string, d: Doc, after: string) {
    Space(ws) && Space(after) && Formed(d) && Meaning(d) == v && t == ws + Onto(d, after)
  }

  /** The reader accepts a text with a value exactly if the text spells a document that means it. */
  lemma ParseExactly(t: string, v: Value)
    ensures Parse(t) == Some(v) <==> Spelt(t, v)
  {
    if Parse(t) == Some(v) {
      var ws, d := DocRead(t);
      var after := SpaceRead(ReadValue(t).rest);
      assert after + "" == after;
      hide *;
      assert SpeltBy(t, v, ws, d, after);
    }
    if Spelt(t, v) {
      var ws, d, after :| SpeltBy(t, v, ws, d, after);
      assert Stops(after);
      DocReads(d, ws, after);
      assert after + "" == after;
      SkipAll(after, "");
    }
  }
}
