/** The amounts of a data row: the ATC, NORMAL and DIF. ALIQUOTA columns,
    found by key and read as numbers, Brazilian-formatted text included. */
module Amounts {
  import opened Wrappers
  import opened Text
  import opened Values

  // ---------------------------------------------------------------------
  // Python's float() on decimal text
  // ---------------------------------------------------------------------

  /** How many decimal digits `s` starts with. */
  function DigitPrefixLength(s: string): (n: nat)
    ensures n <= |s| && AllDigits(s[..n]) && (n < |s| ==> !IsDigit(s[n]))
  {
    if s != [] && IsDigit(s[0]) then
      var n := 1 + DigitPrefixLength(s[1..]);
      assert s[..n] == [s[0]] + s[1..][..n - 1];
      n
    else 0
  }

  /** The exponent part of a float literal: nothing, or `e`/`E`, an optional
      sign and at least one digit. */
  function ParseExponent(s: string): Option<int> {
    if s == [] then Some(0)
    else if s[0] != 'e' && s[0] != 'E' then None
    else
      var t := s[1..];
      var u := if t != [] && (t[0] == '-' || t[0] == '+') then t[1..] else t;
      if u != [] && AllDigits(u) then
        Some(if t[0] == '-' then -(DigitsValue(u) as int) else DigitsValue(u) as int)
      else None
  }

  /** `units / 10^scale` times `10^e`. */
  function Scaled(units: int, scale: nat, e: int): Decimal {
    if e >= 0 then Decimal(units * Pow10(e), scale) else Decimal(units, scale - e)
  }

  /** The number an integer part, a fraction part and an exponent part
      denote, when there is at least one digit and the exponent reads. */
  function Mantissa(whole: string, fraction: string, exponent: string): Option<Decimal>
    requires AllDigits(whole) && AllDigits(fraction)
  {
    if |whole| + |fraction| == 0 then None
    else
      match ParseExponent(exponent)
      case None => None
      case Some(e) => Some(Scaled(DigitsValue(whole + fraction), |fraction|, e))
  }

  /** What follows the integer digits: optionally a point and fraction
      digits, then the exponent part. */
  function AfterWhole(whole: string, rest: string): Option<Decimal>
    requires AllDigits(whole)
  {
    if rest != [] && rest[0] == '.' then
      var f := DigitPrefixLength(rest[1..]);
      Mantissa(whole, rest[1..][..f], rest[1..][f..])
    else Mantissa(whole, [], rest)
  }

  /** An unsigned float literal: digits, optionally a point and more digits,
      at least one digit in all, then an optional exponent. */
  function ParseUnsigned(u: string): Option<Decimal> {
    var a := DigitPrefixLength(u);
    AfterWhole(u[..a], u[a..])
  }

  /** Python's `float(s)` for finite decimal literals: surrounding
      whitespace, an optional sign and an unsigned literal. */
  function ParseFloat(s: string): Option<Decimal> {
    ParseSigned(Strip(s))
  }

  /** An optional sign and an unsigned literal. */
  function ParseSigned(t: string): Option<Decimal> {
    if t != [] && (t[0] == '-' || t[0] == '+') then
      match ParseUnsigned(t[1..])
      case None => None
      case Some(d) => Some(if t[0] == '-' then Decimal(-d.units, d.scale) else d)
    else ParseUnsigned(t)
  }

  /** The characters a float literal is made of. */
  predicate LiteralChar(c: char) {
    IsDigit(c) || c == '.' || c == '-' || c == '+' || c == 'e' || c == 'E'
  }

  /** The text of a Brazilian-formatted amount made ready for `float`:
      stripped, thousands dots removed and the decimal comma made a point. */
  function BrazilianText(s: string): string {
    ReplaceChar(Without(Strip(s), {'.'}), ',', '.')
  }

  /** The number a row value stands for: ints and floats as they are, text
      read as a Brazilian-formatted amount, anything else (or text that
      does not read as a number) none. */
  function AmountOf(c: Cell): (r: Option<Decimal>)
    ensures c.Int? ==> r == Some(Decimal(c.i, 0))
    ensures c.Float? ==> r == Some(c.d)
    ensures c.Empty? || c.DateTime? ==> r.None?
  {
    match c
    case Int(i) => Some(Decimal(i, 0))
    case Float(d) => Some(d)
    case Str(s) => ParseFloat(BrazilianText(s))
    case _ => None
  }

  // ---------------------------------------------------------------------
  // reading literals
  // ---------------------------------------------------------------------

  lemma {:induction false} DigitPrefixOf(a: string, rest: string)
    requires AllDigits(a) && (rest == [] || !IsDigit(rest[0]))
    ensures DigitPrefixLength(a + rest) == |a|
    decreases |a|
  {
    if a != [] {
      assert (a + rest)[1..] == a[1..] + rest;
      DigitPrefixOf(a[1..], rest);
    } else {
      assert a + rest == rest;
    }
  }

  /** A text starting with the digits `a` and going on with a non-digit
      reads from there on. */
  lemma SplitWhole(a: string, rest: string)
    requires AllDigits(a) && (rest == [] || !IsDigit(rest[0]))
    ensures ParseUnsigned(a + rest) == AfterWhole(a, rest)
  {
    DigitPrefixOf(a, rest);
    assert (a + rest)[..|a|] == a && (a + rest)[|a|..] == rest;
  }

  /** `a.f` with digit strings `a` and `f`, not both empty, reads as the
      decimal with digits `af` and `|f|` fractional digits. */
  lemma ReadsPointed(a: string, f: string)
    requires AllDigits(a) && AllDigits(f) && |a| + |f| > 0
    ensures ParseUnsigned(a + "." + f) == Some(Decimal(DigitsValue(a + f), |f|))
  {
    assert a + "." + f == a + ("." + f);
    SplitWhole(a, "." + f);
    ReadsFraction(a, "." + f, f);
  }

  lemma ReadsFraction(a: string, rest: string, f: string)
    requires AllDigits(a) && AllDigits(f) && |a| + |f| > 0 && rest == "." + f
    ensures AfterWhole(a, rest) == Some(Decimal(DigitsValue(a + f), |f|))
  {
    assert rest[1..] == f;
    DigitPrefixOf(f, []);
    assert f + [] == f;
    assert f[..|f|] == f && f[|f|..] == [];
  }

  /** A digit string reads as the whole number it denotes. */
  lemma ReadsWhole(a: string)
    requires AllDigits(a) && a != []
    ensures ParseUnsigned(a) == Some(Decimal(DigitsValue(a), 0))
  {
    SplitWhole(a, []);
    assert a + [] == a;
  }

  /** Text made only of the characters of float literals. */
  predicate LiteralText(s: string) {
    forall i :: 0 <= i < |s| ==> LiteralChar(s[i])
  }

  predicate HasDigit(s: string) {
    exists i :: 0 <= i < |s| && IsDigit(s[i])
  }

  lemma LiteralAppend(a: string, b: string)
    requires LiteralText(a) && LiteralText(b)
    ensures LiteralText(a + b)
  {
    assert forall i :: |a| <= i < |a + b| ==> (a + b)[i] == b[i - |a|];
  }

  /** Whatever `float` accepts is made of literal characters and holds a
      digit. */
  lemma ParsedChars(s: string)
    requires ParseFloat(s).Some?
    ensures LiteralText(Strip(s)) && HasDigit(Strip(s))
  {
    SignedChars(Strip(s));
  }

  lemma SignedChars(t: string)
    requires ParseSigned(t).Some?
    ensures LiteralText(t) && HasDigit(t)
  {
    if t != [] && (t[0] == '-' || t[0] == '+') {
      var u := t[1..];
      UnsignedChars(u);
      SignChars(t, u);
    } else {
      UnsignedChars(t);
    }
  }

  lemma SignChars(t: string, u: string)
    requires t != [] && (t[0] == '-' || t[0] == '+') && u == t[1..]
    requires LiteralText(u) && HasDigit(u)
    ensures LiteralText(t) && HasDigit(t)
  {
    assert t == t[..1] + u;
    LiteralAppend(t[..1], u);
    var j :| 0 <= j < |u| && IsDigit(u[j]);
    assert t[1 + j] == u[j];
  }

  lemma UnsignedChars(u: string)
    requires ParseUnsigned(u).Some?
    ensures LiteralText(u) && HasDigit(u)
  {
    var a := DigitPrefixLength(u);
    var whole, rest := u[..a], u[a..];
    AfterWholeChars(whole, rest);
    JoinedChars(whole, rest, u);
  }

  lemma JoinedChars(whole: string, rest: string, u: string)
    requires u == whole + rest && AllDigits(whole) && LiteralText(rest) && (whole != [] || HasDigit(rest))
    ensures LiteralText(u) && HasDigit(u)
  {
    LiteralAppend(whole, rest);
    if whole != [] {
      assert u[0] == whole[0];
    } else {
      assert u == rest;
    }
  }

  lemma AfterWholeChars(whole: string, rest: string)
    requires AllDigits(whole) && AfterWhole(whole, rest).Some?
    ensures LiteralText(rest) && (whole != [] || HasDigit(rest))
  {
    if rest != [] && rest[0] == '.' {
      PointParts(whole, rest);
    } else {
      ExponentChars(rest);
    }
  }

  lemma PointParts(whole: string, rest: string)
    requires AllDigits(whole) && rest != [] && rest[0] == '.' && AfterWhole(whole, rest).Some?
    ensures LiteralText(rest) && (whole != [] || HasDigit(rest))
  {
    var r := rest[1..];
    var f := DigitPrefixLength(r);
    var fr, ex := r[..f], r[f..];
    assert r == fr + ex;
    PointChars(whole, fr, ex, rest);
  }

  lemma PointChars(whole: string, fr: string, ex: string, rest: string)
    requires AllDigits(whole) && AllDigits(fr) && Mantissa(whole, fr, ex).Some?
    requires rest != [] && rest[0] == '.' && rest[1..] == fr + ex
    ensures LiteralText(rest) && (whole != [] || HasDigit(rest))
  {
    ExponentChars(ex);
    LiteralAppend(fr, ex);
    assert rest == rest[..1] + (fr + ex);
    LiteralAppend(rest[..1], fr + ex);
    if whole == [] {
      assert rest[1] == fr[0];
    }
  }

  lemma ExponentChars(s: string)
    requires ParseExponent(s).Some?
    ensures LiteralText(s)
  {
    if s != [] {
      var t := s[1..];
      var k := if t != [] && (t[0] == '-' || t[0] == '+') then 2 else 1;
      forall i | 0 <= i < |s|
        ensures LiteralChar(s[i])
      {
        if i >= k {
          assert s[i] == s[k..][i - k];
        }
      }
    }
  }

  // ---------------------------------------------------------------------
  // float(str(x)) == x
  // ---------------------------------------------------------------------

  lemma {:induction false} DigitsValueAppend(a: string, b: string)
    requires AllDigits(a) && AllDigits(b)
    ensures AllDigits(a + b) && DigitsValue(a + b) == DigitsValue(a) * Pow10(|b|) + DigitsValue(b)
    decreases |b|
  {
    if b == [] {
      assert a + b == a;
    } else {
      var ab := a + b;
      var b' := b[..|b| - 1];
      var d := DigitValue(b[|b| - 1]);
      assert ab[..|ab| - 1] == a + b';
      assert ab[|ab| - 1] == b[|b| - 1];
      DigitsValueAppend(a, b');
      assert DigitsValue(ab) == DigitsValue(a + b') * 10 + d;
      assert DigitsValue(b) == DigitsValue(b') * 10 + d;
      Shift(DigitsValue(a), Pow10(|b'|), DigitsValue(b'), d);
    }
  }

  lemma Shift(x: int, p: int, y: int, d: int)
    ensures (x * p + y) * 10 + d == x * (10 * p) + (y * 10 + d)
  {
  }

  /** Dropping trailing zeros from a fraction: what is left followed by
      some zeros gives the fraction back, or the fraction was empty and
      became a single zero. */
  lemma {:induction false} TrimFractionZeros(f: string) returns (z: nat)
    requires AllDigits(f)
    ensures AllDigits(TrimFraction(f))
    ensures f == [] ==> TrimFraction(f) == "0"
    ensures f != [] ==> f == TrimFraction(f) + Repeat('0', z)
    decreases |f|
  {
    if f == [] {
      z := 0;
    } else if |f| > 1 && f[|f| - 1] == '0' {
      var f' := f[..|f| - 1];
      var z' := TrimFractionZeros(f');
      z := z' + 1;
      assert Repeat('0', z) == Repeat('0', z') + "0";
      assert f == f' + "0";
    } else {
      z := 0;
      assert f == f + Repeat('0', 0);
    }
  }

  /** Python's printed form of a float reads back as the same number. */
  lemma ReadsDecimalText(d: Decimal)
    ensures ParseFloat(DecimalText(d)).Some?
    ensures SameValue(ParseFloat(DecimalText(d)).value, d)
  {
    var x, f := DecimalTextShape(d);
    var body, p := PrintedBody(x, f);
    ReadsSignedValue(DecimalText(d), body, p, DigitsValue(x + f), d);
  }

  /** The unsigned part of a printed decimal, `x.f` with the fraction's
      trailing zeros dropped, reads as the number with digits `xf` and
      `|f|` fractional digits. */
  lemma PrintedBody(x: string, f: string) returns (body: string, p: Decimal)
    requires x != [] && AllDigits(x) && AllDigits(f)
    ensures body == x + "." + TrimFraction(f)
    ensures body != [] && IsDigit(body[0]) && IsDigit(body[|body| - 1])
    ensures ParseUnsigned(body) == Some(p)
    ensures AllDigits(x + f) && SameValue(p, Decimal(DigitsValue(x + f), |f|))
  {
    var g := TrimFraction(f);
    p := FractionValue(x, f, g);
    BodyEnds(x, g);
    body := x + "." + g;
  }

  /** A literal for the magnitude of `d`, with a minus sign in front when
      `d` is negative, reads as `d`. */
  lemma ReadsSignedValue(r: string, body: string, p: Decimal, v: int, d: Decimal)
    requires body != [] && IsDigit(body[0]) && IsDigit(body[|body| - 1])
    requires r == if d.units < 0 then "-" + body else body
    requires ParseUnsigned(body) == Some(p)
    requires v == (if d.units < 0 then -d.units else d.units) && SameValue(p, Decimal(v, d.scale))
    ensures ParseFloat(r).Some? && SameValue(ParseFloat(r).value, d)
  {
    ReadsSigned(r, body, p, d.units < 0);
    SignedSame(p, v, d);
  }

  /** A magnitude with the sign of `d` put back is `d`. */
  lemma SignedSame(p: Decimal, v: int, d: Decimal)
    requires v == (if d.units < 0 then -d.units else d.units) && SameValue(p, Decimal(v, d.scale))
    ensures SameValue(if d.units < 0 then Decimal(-p.units, p.scale) else p, d)
  {
    if d.units < 0 {
      NegatedSame(p, d);
    }
  }

  lemma BodyEnds(x: string, g: string)
    requires x != [] && IsDigit(x[0]) && g != [] && IsDigit(g[|g| - 1])
    ensures var body := x + "." + g; body != [] && IsDigit(body[0]) && IsDigit(body[|body| - 1])
  {
    var body := x + "." + g;
    assert body[0] == x[0] && body[|body| - 1] == g[|g| - 1];
  }

  /** A literal, with a minus sign in front when negative, reads as the
      literal's number, negated when negative. */
  lemma ReadsSigned(r: string, body: string, p: Decimal, negative: bool)
    requires body != [] && IsDigit(body[0]) && IsDigit(body[|body| - 1])
    requires r == if negative then "-" + body else body
    requires ParseUnsigned(body) == Some(p)
    ensures ParseFloat(r) == Some(if negative then Decimal(-p.units, p.scale) else p)
  {
    assert r[|r| - 1] == body[|body| - 1];
    FloatUnpadded(r);
    SignedRead(r, body, p, negative);
  }

  /** The printed form of a decimal: a sign for a negative number, the
      integer digits, a point and the fraction digits with trailing zeros
      dropped, all digits together denoting the magnitude. */
  lemma DecimalTextShape(d: Decimal) returns (x: string, f: string)
    ensures x != [] && AllDigits(x) && AllDigits(f) && |f| == d.scale
    ensures AllDigits(x + f) && DigitsValue(x + f) == if d.units < 0 then -d.units else d.units
    ensures DecimalText(d) == if d.units < 0 then "-" + (x + "." + TrimFraction(f)) else x + "." + TrimFraction(f)
  {
    var a: nat := if d.units < 0 then -d.units else d.units;
    var t := PaddedDigits(a, d.scale + 1);
    var k := |t| - d.scale;
    x, f := SplitDigits(t, k);
    SameText(DecimalText(d), d, t, k);
  }

  /** Cutting a digit string in two. */
  lemma SplitDigits(t: string, k: nat) returns (x: string, f: string)
    requires AllDigits(t) && k <= |t|
    ensures x == t[..k] && f == t[k..] && x + f == t
    ensures AllDigits(x) && AllDigits(f)
  {
    x, f := t[..k], t[k..];
    assert x + f == t;
    assert forall i :: 0 <= i < |f| ==> f[i] == t[k + i];
  }

  lemma SameText(r: string, d: Decimal, t: string, k: nat)
    requires r == DecimalText(d)
    requires t == ZFill(NatText(if d.units < 0 then -d.units else d.units), d.scale + 1)
    requires k == |t| - d.scale
    ensures r == if d.units < 0 then "-" + (t[..k] + "." + TrimFraction(t[k..])) else t[..k] + "." + TrimFraction(t[k..])
  {
  }

  /** Text without surrounding whitespace is read as it stands. */
  lemma FloatUnpadded(r: string)
    requires r != [] && !IsSpace(r[0]) && !IsSpace(r[|r| - 1])
    ensures ParseFloat(r) == ParseSigned(r)
  {
    StripNoop(r);
  }

  /** A literal with or without a minus sign in front. */
  lemma SignedRead(r: string, body: string, p: Decimal, negative: bool)
    requires body != [] && IsDigit(body[0])
    requires r == if negative then "-" + body else body
    requires ParseUnsigned(body) == Some(p)
    ensures ParseSigned(r) == Some(if negative then Decimal(-p.units, p.scale) else p)
  {
    if negative {
      assert r[1..] == body;
    }
  }

  lemma NegatedSame(p: Decimal, d: Decimal)
    requires d.units < 0 && SameValue(p, Decimal(-d.units, d.scale))
    ensures SameValue(Decimal(-p.units, p.scale), d)
  {
  }

  /** `str(n).zfill(w)` is a digit string of at least `w` digits denoting
      `n`. */
  lemma PaddedDigits(n: nat, w: nat) returns (t: string)
    ensures t == ZFill(NatText(n), w)
    ensures AllDigits(t) && |t| >= w && DigitsValue(t) == n
  {
    var s := NatText(n);
    NatTextRoundTrip(n);
    if |s| < w {
      DigitsValueLeadingZeros(w - |s|, s);
    }
    t := ZFill(s, w);
  }

  /** `x.f` printed with the fraction's trailing zeros dropped reads as the
      same number as the digits `xf` with `|f|` fractional digits. */
  lemma FractionValue(x: string, f: string, g: string) returns (p: Decimal)
    requires x != [] && AllDigits(x) && AllDigits(f) && g == TrimFraction(f)
    ensures ParseUnsigned(x + "." + g) == Some(p) && g != [] && IsDigit(g[|g| - 1])
    ensures AllDigits(x + f) && SameValue(p, Decimal(DigitsValue(x + f), |f|))
  {
    var z := TrimFractionZeros(f);
    ReadsPointed(x, g);
    p := Decimal(DigitsValue(x + g), |g|);
    DigitsValueAppend(x, f);
    DigitsValueAppend(x, g);
    if f == [] {
      assert x + f == x;
      TrimmedEmpty(x);
    } else {
      TrimmedZeros(x, f, g, z);
    }
  }

  /** Digits followed by `z` zeros, with `z` more fractional digits, are
      the same number. */
  lemma TrimmedZeros(x: string, f: string, g: string, z: nat)
    requires AllDigits(x) && AllDigits(g) && f == g + Repeat('0', z)
    ensures AllDigits(x + g) && AllDigits(x + f)
    ensures SameValue(Decimal(DigitsValue(x + g), |g|), Decimal(DigitsValue(x + f), |f|))
  {
    TrailingZerosValue(x + g, z);
    DigitsAppend(x, g);
    assert x + f == (x + g) + Repeat('0', z);
    assert |f| == |g| + z;
    ShiftedSame(DigitsValue(x + g), DigitsValue(x + f), |g|, z, |f|);
  }

  lemma TrailingZerosValue(s: string, z: nat)
    requires AllDigits(s)
    ensures AllDigits(s + Repeat('0', z)) && DigitsValue(s + Repeat('0', z)) == DigitsValue(s) * Pow10(z)
  {
    ZerosValue(z);
    DigitsValueAppend(s, Repeat('0', z));
  }

  /** `v / 10^m` and `(v * 10^z) / 10^(m + z)` are the same number. */
  lemma ShiftedSame(v: int, w: int, m: nat, z: nat, n: nat)
    requires w == v * Pow10(z) && n == m + z
    ensures SameValue(Decimal(v, m), Decimal(w, n))
  {
    PowSum(m, z);
    ScaleBy(v, Pow10(m), Pow10(z));
  }

  lemma {:induction false} PowSum(m: nat, z: nat)
    ensures Pow10(m + z) == Pow10(m) * Pow10(z)
    decreases z
  {
    if z > 0 {
      PowSum(m, z - 1);
    }
  }

  lemma TrimmedEmpty(x: string)
    requires AllDigits(x)
    ensures AllDigits(x + "0") && SameValue(Decimal(DigitsValue(x + "0"), 1), Decimal(DigitsValue(x), 0))
  {
    var x0 := x + "0";
    assert x0[..|x0| - 1] == x;
    DigitsAppend(x, "0");
  }

  lemma ScaleBy(v: int, p: int, q: int)
    ensures (v * q) * p == v * (p * q)
  {
  }

  // ---------------------------------------------------------------------
  // Brazilian amounts
  // ---------------------------------------------------------------------

  /** The digits of a number written with thousands dots: its groups,
      one after the other. */
  function Concat(groups: seq<string>): string {
    if groups == [] then [] else groups[0] + Concat(groups[1..])
  }

  /** Removing the dots from digit groups joined with dots leaves the
      groups one after the other. */
  lemma {:induction false} WithoutDotsJoined(groups: seq<string>)
    requires groups != [] && forall i :: 0 <= i < |groups| ==> AllDigits(groups[i])
    ensures Without(JoinOn(groups, '.'), {'.'}) == Concat(groups)
    ensures AllDigits(Concat(groups))
    decreases |groups|
  {
    var first := groups[0];
    if |groups| == 1 {
      WithoutNoop(first, {'.'});
      assert Concat(groups) == first + Concat([]);
    } else {
      var rest := groups[1..];
      WithoutDotsJoined(rest);
      WithoutDotsStep(first, JoinOn(rest, '.'), Concat(rest));
    }
  }

  lemma WithoutDotsStep(first: string, j: string, c: string)
    requires AllDigits(first) && AllDigits(c) && Without(j, {'.'}) == c
    ensures Without(first + "." + j, {'.'}) == first + c
    ensures AllDigits(first + c)
  {
    WithoutNoop(first, {'.'});
    WithoutAppend(first + ".", j, {'.'});
    WithoutAppend(first, ".", {'.'});
    assert Without(".", {'.'}) == [] by {
      assert "."[1..] == [];
    }
    DigitsAppend(first, c);
  }

  lemma DigitsAppend(a: string, b: string)
    requires AllDigits(a) && AllDigits(b)
    ensures AllDigits(a + b)
  {
    assert forall i :: |a| <= i < |a + b| ==> (a + b)[i] == b[i - |a|];
  }

  /** An amount written the Brazilian way, `1.234,56`, reads as the number
      whose digits are the groups and the fraction together. */
  lemma ReadsBrazilian(groups: seq<string>, f: string)
    requires groups != [] && groups[0] != []
    requires forall i :: 0 <= i < |groups| ==> AllDigits(groups[i])
    requires AllDigits(f)
    ensures AllDigits(Concat(groups) + f)
    ensures AmountOf(Str(JoinOn(groups, '.') + "," + f)) == Some(Decimal(DigitsValue(Concat(groups) + f), |f|))
  {
    var c := BrazilianGroups(groups, f);
    AmountOfPointed(JoinOn(groups, '.') + "," + f, c, f);
  }

  /** Preparing `g1.g2...,f` gives the groups one after the other, a point
      and the fraction. */
  lemma BrazilianGroups(groups: seq<string>, f: string) returns (c: string)
    requires groups != [] && groups[0] != []
    requires forall i :: 0 <= i < |groups| ==> AllDigits(groups[i])
    requires AllDigits(f)
    ensures c == Concat(groups) && c != [] && AllDigits(c)
    ensures BrazilianText(JoinOn(groups, '.') + "," + f) == c + "." + f
  {
    WithoutDotsJoined(groups);
    c := Concat(groups);
    assert c[0] == groups[0][0];
    var j := JoinOn(groups, '.');
    var s := j + "," + f;
    assert s[0] == j[0] == groups[0][0] && s[|s| - 1] != ' ';
    BrazilianUnpadded(s);
    BrazilianOfGroups(j, c, f);
  }

  /** Text that prepares to `c.f` is the amount with digits `cf`. */
  lemma AmountOfPointed(s: string, c: string, f: string)
    requires c != [] && AllDigits(c) && AllDigits(f) && BrazilianText(s) == c + "." + f
    ensures AllDigits(c + f)
    ensures AmountOf(Str(s)) == Some(Decimal(DigitsValue(c + f), |f|))
  {
    FloatOfPointed(c, f);
    DigitsAppend(c, f);
  }

  /** Removing the dots from `j,f`, where `j` without its dots is `c`, and
      making the comma a point gives `c.f`. */
  lemma BrazilianOfGroups(j: string, c: string, f: string)
    requires Without(j, {'.'}) == c && AllDigits(c) && AllDigits(f)
    ensures ReplaceChar(Without(j + "," + f, {'.'}), ',', '.') == c + "." + f
  {
    var tail := "," + f;
    assert j + "," + f == j + tail;
    WithoutAppend(j, tail, {'.'});
    FractionKeeps(f);
    assert c + tail == c + "," + f;
    CommaToPoint(c, f);
  }

  /** Text without surrounding whitespace is prepared as it stands. */
  lemma BrazilianUnpadded(s: string)
    requires s != [] && !IsSpace(s[0]) && !IsSpace(s[|s| - 1])
    ensures BrazilianText(s) == ReplaceChar(Without(s, {'.'}), ',', '.')
  {
    StripNoop(s);
  }

  lemma FractionKeeps(f: string)
    requires AllDigits(f)
    ensures Without("," + f, {'.'}) == "," + f
  {
    var tail := "," + f;
    assert forall i :: 0 <= i < |tail| ==> tail[i] != '.';
    WithoutNoop(tail, {'.'});
  }

  lemma CommaToPoint(c: string, f: string)
    requires AllDigits(c) && AllDigits(f)
    ensures ReplaceChar(c + "," + f, ',', '.') == c + "." + f
  {
  }

  /** `c.f` with a non-empty digit string `c` reads as the decimal with
      digits `cf` and `|f|` fractional digits. */
  lemma FloatOfPointed(c: string, f: string)
    requires c != [] && AllDigits(c) && AllDigits(f)
    ensures ParseFloat(c + "." + f) == Some(Decimal(DigitsValue(c + f), |f|))
  {
    var b := c + "." + f;
    assert b[0] == c[0] && b[|b| - 1] != ' ';
    FloatUnpadded(b);
    ReadsPointed(c, f);
  }

  // ---------------------------------------------------------------------
  // finding an amount by its column
  // ---------------------------------------------------------------------

  /** The ATC column: a key containing `atc`, in any case. */
  predicate IsAtcKey(k: string) {
    Contains(Lower(k), "atc")
  }

  /** The NORMAL column: a key that is `normal` once stripped and
      lower-cased. */
  predicate IsNormalKey(k: string) {
    Lower(Strip(k)) == "normal"
  }

  /** The DIF. ALIQUOTA column: a key containing both `dif` and `aliquota`,
      in any case. */
  predicate IsDifalKey(k: string) {
    Contains(Lower(k), "dif") && Contains(Lower(k), "aliquota")
  }

  /** Entry `i` is in a matching column and holds a readable amount. */
  predicate Readable(record: Dict<Cell>, matches: string -> bool, i: nat)
    requires i < |record|
  {
    matches(record[i].0) && AmountOf(record[i].1).Some?
  }

  /** The amount of the first entry, in insertion order, whose key matches
      and whose value reads as a number; entries that match but do not read
      are passed over. */
  function FirstAmount(record: Dict<Cell>, matches: string -> bool): Option<Decimal> {
    if record == [] then None
    else if Readable(record, matches, 0) then AmountOf(record[0].1)
    else FirstAmount(record[1..], matches)
  }

  /** The lookup loop shared by the ATC, NORMAL and DIF. ALIQUOTA columns. */
  method FindAmount(record: Dict<Cell>, matches: string -> bool) returns (r: Option<Decimal>)
    ensures r == FirstAmount(record, matches)
  {
    var i := 0;
    while i < |record|
      invariant 0 <= i <= |record|
      invariant FirstAmount(record[i..], matches) == FirstAmount(record, matches)
    {
      var (key, value) := record[i];
      assert record[i..][1..] == record[i + 1..];
      if matches(key) {
        var amount := AmountOf(value);
        if amount.Some? {
          return amount;
        }
      }
      i := i + 1;
    }
    return None;
  }

  /** No amount is found exactly when no entry is readable. */
  lemma {:induction false} FirstAmountNone(record: Dict<Cell>, matches: string -> bool)
    ensures FirstAmount(record, matches).None? <==> forall i :: 0 <= i < |record| ==> !Readable(record, matches, i)
    decreases |record|
  {
    if record != [] && !Readable(record, matches, 0) {
      var rest := record[1..];
      FirstAmountNone(rest, matches);
      forall i | 0 < i < |record|
        ensures Readable(record, matches, i) == Readable(rest, matches, i - 1)
      {
        assert record[i] == rest[i - 1];
      }
      if FirstAmount(rest, matches).Some? {
        var k :| 0 <= k < |rest| && Readable(rest, matches, k);
        assert Readable(record, matches, k + 1);
      }
    }
  }

  /** An amount found comes from the first readable entry. */
  lemma {:induction false} FirstAmountWitness(record: Dict<Cell>, matches: string -> bool) returns (i: nat)
    requires FirstAmount(record, matches).Some?
    ensures i < |record| && Readable(record, matches, i)
    ensures AmountOf(record[i].1) == FirstAmount(record, matches)
    ensures forall j :: 0 <= j < i ==> !Readable(record, matches, j)
    decreases |record|
  {
    if Readable(record, matches, 0) {
      i := 0;
    } else {
      var rest := record[1..];
      var k := FirstAmountWitness(rest, matches);
      i := k + 1;
      forall j | 0 < j < |record|
        ensures Readable(record, matches, j) == Readable(rest, matches, j - 1)
      {
        assert record[j] == rest[j - 1];
      }
    }
  }
}
