/** Score values: the decimal literals a score token may spell, their exact values,
    and the two-decimal rendering used in the weekly cells. */
module Decimals {
  import opened Wrappers
  import opened Text
  import opened Seqs

  /** The exact number `(neg ? -1 : 1) * mag / 10^scale`. The sign is kept apart
      from the magnitude because, as with Python floats, `-0` renders as `-0.00`. */
  datatype Decimal = Decimal(neg: bool, mag: nat, scale: nat)

  function Pow10(n: nat): (r: nat)
    ensures r >= 1
  {
    if n == 0 then 1 else 10 * Pow10(n - 1)
  }

  lemma {:induction false} Pow10Add(a: nat, b: nat)
    ensures Pow10(a + b) == Pow10(a) * Pow10(b)
    decreases a
  {
    if a > 0 {
      Pow10Add(a - 1, b);
      assert Pow10(a + b) == 10 * Pow10(a - 1 + b);
    }
  }

  function DigitValue(c: char): nat
    requires IsDigit(c)
  {
    (c as int) - ('0' as int)
  }

  function Digit(d: nat): (c: char)
    requires d < 10
    ensures IsDigit(c) && DigitValue(c) == d
  {
    (('0' as int) + d) as char
  }

  /** The value of a string of decimal digits, most significant first. */
  function DigitsValue(s: String): nat
    requires AllDigits(s)
  {
    if |s| == 0 then 0 else 10 * DigitsValue(s[..|s| - 1]) + DigitValue(s[|s| - 1])
  }

  lemma {:induction false} AllDigitsAppend(a: String, b: String)
    requires AllDigits(a) && AllDigits(b)
    ensures AllDigits(a + b)
  {
    forall i | 0 <= i < |a + b| ensures IsDigit((a + b)[i]) {
      if i >= |a| { assert (a + b)[i] == b[i - |a|]; }
    }
  }

  lemma {:induction false} DigitsValueAppend(a: String, b: String)
    requires AllDigits(a) && AllDigits(b)
    ensures AllDigits(a + b)
    ensures DigitsValue(a + b) == DigitsValue(a) * Pow10(|b|) + DigitsValue(b)
    decreases |b|
  {
    AllDigitsAppend(a, b);
    if |b| == 0 {
      assert a + b == a;
    } else {
      var b' := b[..|b| - 1];
      var last := DigitValue(b[|b| - 1]);
      assert DigitsValue(a + b) == 10 * DigitsValue(a + b') + last by {
        assert (a + b)[..|a + b| - 1] == a + b';
        assert (a + b)[|a + b| - 1] == b[|b| - 1];
      }
      DigitsValueAppend(a, b');
      ShiftDigit(DigitsValue(a), Pow10(|b'|), DigitsValue(b'), last);
    }
  }

  lemma {:induction false} ShiftDigit(va: int, pw: int, vb: int, last: int)
    ensures 10 * (va * pw + vb) + last == va * (10 * pw) + (10 * vb + last)
  {
  }

  /** The shortest decimal numeral of `n`; its digits spell `n` back. */
  function Numeral(n: nat): (s: String)
    ensures IsNumeral(s)
    ensures DigitsValue(s) == n
    ensures |s| == 1 || s[0] != '0'
    decreases n
  {
    if n < 10 then [Digit(n)]
    else
      var p := Numeral(n / 10);
      var s := p + [Digit(n % 10)];
      assert s[..|s| - 1] == p;
      s
  }

  // ---------------------------------------------------------------------------
  // Parsing a score token

  function Unsigned(s: String): String
  {
    if |s| > 0 && (s[0] == '+' || s[0] == '-') then s[1..] else s
  }

  predicate IsNegative(s: String)
  {
    |s| > 0 && s[0] == '-'
  }

  /** The literals accepted for a score: an optional sign followed by digits with at
      most one decimal point and at least one digit (`7`, `7.`, `.5`, `-6.25`). */
  predicate IsDecimalLiteral(s: String)
  {
    IsUnsignedLiteral(Unsigned(s))
  }

  predicate IsDot(c: char)
  {
    c == '.'
  }

  /** The literal grammar without its sign: digits with at most one point and
      at least one digit. */
  predicate IsUnsignedLiteral(u: String)
  {
    && u != [] && u != ['.']
    && (forall i :: 0 <= i < |u| ==> IsDigit(u[i]) || u[i] == '.')
    && multiset(u)['.'] <= 1
  }

  /** The number a score literal spells (Python `float(...)` on the decimal subset),
      or `None` when the token is not a literal. */
  function ParseDecimal(s: String): (r: Option<Decimal>)
    ensures r.Some? <==> IsDecimalLiteral(s)
    ensures r.Some? ==> r.value.neg == IsNegative(s)
  {
    match ParseUnsigned(Unsigned(s))
    case None => None
    case Some(v) => Some(v.(neg := IsNegative(s)))
  }

  /** The non-negative number an unsigned literal spells: the digits around the
      point, read as one integer, scaled by the number of digits after the point. */
  function ParseUnsigned(u: String): (r: Option<Decimal>)
    ensures r.Some? <==> IsUnsignedLiteral(u)
    ensures r.Some? ==> !r.value.neg
  {
    var k := Find(u, IsDot);
    var ip := u[..k];
    var fp := if k < |u| then u[k + 1..] else [];
    ParseParts(u, k, ip, fp);
    if AllDigits(ip) && AllDigits(fp) && |ip| + |fp| > 0 then
      DigitsValueAppend(ip, fp);
      Some(Decimal(false, DigitsValue(ip + fp), |fp|))
    else None
  }

  /** The split at the first point lines up with the literal grammar. */
  lemma {:induction false} ParseParts(u: String, k: nat, ip: String, fp: String)
    requires k == Find(u, IsDot)
    requires ip == u[..k] && fp == (if k < |u| then u[k + 1..] else [])
    ensures IsUnsignedLiteral(u) <==> AllDigits(ip) && AllDigits(fp) && |ip| + |fp| > 0
  {
    assert '.' !in ip;
    assert multiset(u)['.'] == (if k < |u| then 1 + multiset(fp)['.'] else 0) by {
      if k < |u| {
        SliceThree(u, k, k + 1);
        assert u[k..k + 1] == ['.'];
      } else {
        assert u == ip;
      }
    }
    if AllDigits(ip) && AllDigits(fp) && |ip| + |fp| > 0 {
      PartsMakeLiteral(u, k, ip, fp);
    }
    if IsUnsignedLiteral(u) {
      LiteralMakesParts(u, k, ip, fp);
    }
  }

  lemma {:induction false} PartsMakeLiteral(u: String, k: nat, ip: String, fp: String)
    requires k == Find(u, IsDot)
    requires ip == u[..k] && fp == (if k < |u| then u[k + 1..] else [])
    requires multiset(u)['.'] == (if k < |u| then 1 + multiset(fp)['.'] else 0)
    requires AllDigits(ip) && AllDigits(fp) && |ip| + |fp| > 0
    ensures IsUnsignedLiteral(u)
  {
    assert '.' !in fp;
    forall i | 0 <= i < |u| ensures IsDigit(u[i]) || u[i] == '.' {
      if i < k { assert u[i] == ip[i]; }
      else if i > k { assert u[i] == fp[i - k - 1]; }
    }
  }

  lemma {:induction false} LiteralMakesParts(u: String, k: nat, ip: String, fp: String)
    requires k == Find(u, IsDot)
    requires ip == u[..k] && fp == (if k < |u| then u[k + 1..] else [])
    requires multiset(u)['.'] == (if k < |u| then 1 + multiset(fp)['.'] else 0)
    requires IsUnsignedLiteral(u)
    ensures AllDigits(ip) && AllDigits(fp) && |ip| + |fp| > 0
  {
    forall i | 0 <= i < |ip| ensures IsDigit(ip[i]) {
      assert ip[i] == u[i];
    }
    if k < |u| {
      assert '.' !in fp;
      forall i | 0 <= i < |fp| ensures IsDigit(fp[i]) {
        assert fp[i] == u[k + 1 + i];
      }
    }
  }

  /** A sign in front of a literal that starts with a digit or a point is read as the sign. */
  lemma {:induction false} ParseSigned(sign: String, u: String)
    requires sign == [] || sign == ['-'] || sign == ['+']
    requires |u| > 0 && (IsDigit(u[0]) || u[0] == '.')
    ensures ParseDecimal(sign + u)
         == match ParseUnsigned(u) case None => None case Some(v) => Some(v.(neg := sign == ['-']))
  {
    var s := sign + u;
    assert Unsigned(s) == u && IsNegative(s) == (sign == ['-']) by {
      if sign == [] {
        assert s == u;
      } else {
        assert s[0] == sign[0] && s[1..] == u;
      }
    }
  }

  lemma {:induction false} ParseUnsignedFraction(ip: String, fp: String)
    requires AllDigits(ip) && AllDigits(fp) && |ip| + |fp| > 0
    ensures AllDigits(ip + fp)
    ensures ParseUnsigned(ip + ['.'] + fp) == Some(Decimal(false, DigitsValue(ip + fp), |fp|))
  {
    AllDigitsAppend(ip, fp);
    var u := ip + ['.'] + fp;
    var k := Find(u, IsDot);
    assert k == |ip| by {
      FindAbsent(ip, IsDot);
      FindAppend(ip, ['.'] + fp, IsDot);
      assert ip + (['.'] + fp) == u;
    }
    assert k < |u|;
    assert u[..k] == ip && u[k + 1..] == fp by {
      assert u == ip + ['.'] + fp;
    }
    ParsePoint(u, k, ip, fp);
  }

  /** `ParseUnsigned` on a literal whose first point is at `k`. */
  lemma {:induction false} ParsePoint(u: String, k: nat, ip: String, fp: String)
    requires k == Find(u, IsDot) && k < |u|
    requires u[..k] == ip && u[k + 1..] == fp
    requires AllDigits(ip) && AllDigits(fp) && |ip| + |fp| > 0
    ensures ParseUnsigned(u) == Some(Decimal(false, DigitsValue(ip + fp), |fp|))
  {
  }

  /** The value of a literal with a point: `I.F` is the integer `IF` scaled by `|F|`
      (whose value `DigitsValueAppend` gives as `I * 10^|F| + F`). */
  lemma {:induction false} ParseFraction(sign: String, ip: String, fp: String)
    requires sign == [] || sign == ['-'] || sign == ['+']
    requires AllDigits(ip) && AllDigits(fp) && |ip| + |fp| > 0
    ensures AllDigits(ip + fp)
    ensures ParseDecimal(sign + ip + ['.'] + fp) == Some(Decimal(sign == ['-'], DigitsValue(ip + fp), |fp|))
  {
    var u := ip + ['.'] + fp;
    assert sign + ip + ['.'] + fp == sign + u;
    assert IsDigit(u[0]) || u[0] == '.' by {
      if |ip| > 0 { assert u[0] == ip[0]; }
    }
    ParseSigned(sign, u);
    ParseUnsignedFraction(ip, fp);
  }

  /** The value of a literal without a point is the integer its digits spell. */
  lemma {:induction false} ParseInteger(sign: String, ip: String)
    requires sign == [] || sign == ['-'] || sign == ['+']
    requires IsNumeral(ip)
    ensures ParseDecimal(sign + ip) == Some(Decimal(sign == ['-'], DigitsValue(ip), 0))
  {
    ParseSigned(sign, ip);
    ParseUnsignedInteger(ip);
  }

  lemma {:induction false} ParseUnsignedInteger(ip: String)
    requires IsNumeral(ip)
    ensures ParseUnsigned(ip) == Some(Decimal(false, DigitsValue(ip), 0))
  {
    FindAbsent(ip, IsDot);
    assert ip[..|ip|] == ip;
    assert ip + [] == ip;
  }

  // ---------------------------------------------------------------------------
  // Rendering with two decimals (`f"{x:.2f}"`)

  function Dist(a: int, b: int): nat
  {
    if a >= b then a - b else b - a
  }

  /** `q` hundredths is the rounding of `mag / 10^scale`: the nearest whole number of
      hundredths, and the even one on an exact tie. */
  predicate RoundsTo(mag: nat, scale: nat, q: nat)
  {
    var err := 2 * Dist(q * Pow10(scale), 100 * mag);
    err <= Pow10(scale) && (err == Pow10(scale) ==> q % 2 == 0)
  }

  /** `|d|` in hundredths, rounded half to even. */
  function RoundHundredths(d: Decimal): (q: nat)
    ensures RoundsTo(d.mag, d.scale, q)
  {
    if d.scale <= 2 then
      RoundExact(d.mag, d.scale);
      d.mag * Pow10(2 - d.scale)
    else
      var p: int := Pow10(d.scale - 2);
      var q0: int := d.mag / p;
      var rem: int := d.mag % p;
      var q: int := if 2 * rem > p || (2 * rem == p && q0 % 2 == 1) then q0 + 1 else q0;
      RoundNear(d.mag, d.scale, p, q0, rem, q);
      q
  }

  lemma {:induction false} RoundExact(m: nat, s: nat)
    requires s <= 2
    ensures RoundsTo(m, s, m * Pow10(2 - s))
  {
    Pow10Add(2 - s, s);
    assert Pow10(2) == 100;
    var pa, pb := Pow10(2 - s), Pow10(s);
    assert (m * pa) * pb == m * (pa * pb);
  }

  lemma {:induction false} RoundNear(m: nat, s: nat, p: int, q0: int, rem: int, q: int)
    requires s > 2 && p == Pow10(s - 2) && q0 == m / p && rem == m % p
    requires q == if 2 * rem > p || (2 * rem == p && q0 % 2 == 1) then q0 + 1 else q0
    ensures q >= 0 && RoundsTo(m, s, q)
  {
    Pow10Add(2, s - 2);
    assert Pow10(2) == 100;
    assert Pow10(s) == 100 * p;
    RoundingError(m, p, q0, rem, q);
    assert q0 >= 0 by { DivNonNegative(m, p); }
  }

  lemma {:induction false} DivNonNegative(m: int, p: int)
    requires m >= 0 && p >= 1
    ensures m / p >= 0
  {
  }

  lemma {:induction false} RoundingError(m: int, p: int, q0: int, rem: int, q: int)
    requires m >= 0 && p >= 1 && q0 == m / p && rem == m % p
    requires q == if 2 * rem > p || (2 * rem == p && q0 % 2 == 1) then q0 + 1 else q0
    ensures 2 * Dist(q * (100 * p), 100 * m) <= 100 * p
    ensures 2 * Dist(q * (100 * p), 100 * m) == 100 * p ==> q % 2 == 0
  {
    var base := q0 * p;
    assert m == base + rem && 0 <= rem < p;
    var qp := q * p;
    assert qp == if q == q0 then base else base + p;
    assert q * (100 * p) == 100 * qp;
    ScaleDist(qp, m);
  }

  lemma {:induction false} ScaleDist(a: int, b: int)
    ensures Dist(100 * a, 100 * b) == 100 * Dist(a, b)
  {
  }

  /** The two decimals of a number of hundredths. */
  function Hundredths(q: nat): String
  {
    [Digit(q % 100 / 10), Digit(q % 10)]
  }

  /** Python's `f"{x:.2f}"`: sign, integer part, a point and exactly two decimals. */
  function FormatFixed2(d: Decimal): String
  {
    var q := RoundHundredths(d);
    (if d.neg then "-" else "") + Numeral(q / 100) + ['.'] + Hundredths(q)
  }

  /** The integer part followed by the two decimals spell the number of hundredths. */
  lemma {:induction false} HundredthsDigits(q: nat)
    ensures AllDigits(Numeral(q / 100) + Hundredths(q))
    ensures DigitsValue(Numeral(q / 100) + Hundredths(q)) == q
  {
    var fp := Hundredths(q);
    var a := fp[0];
    assert fp[..1] == [a] && [a][..0] == [];
    assert DigitsValue([a]) == q % 100 / 10;
    assert DigitsValue(fp) == 10 * DigitsValue([a]) + q % 10;
    DigitsValueAppend(Numeral(q / 100), fp);
    assert Pow10(2) == 100;
    SplitHundredths(q);
  }

  lemma {:induction false} SplitHundredths(q: int)
    requires q >= 0
    ensures (q / 100) * 100 + (10 * (q % 100 / 10) + q % 10) == q
  {
    var a, r := q / 100, q % 100;
    assert q == 100 * a + r && 0 <= r < 100;
    var b, c := r / 10, r % 10;
    assert r == 10 * b + c && 0 <= c < 10;
    assert q % 10 == c by {
      assert q == 10 * (10 * a + b) + c;
    }
  }

  /** Reading a rendered score back gives the rounded value with the same sign and
      two decimals, so the text shows the score to within half a hundredth. */
  lemma {:induction false} ParseFormatFixed2(d: Decimal)
    ensures ParseDecimal(FormatFixed2(d)) == Some(Decimal(d.neg, RoundHundredths(d), 2))
  {
    var q := RoundHundredths(d);
    var sign: String := if d.neg then "-" else "";
    var ip := Numeral(q / 100);
    var fp := Hundredths(q);
    ParseFraction(sign, ip, fp);
    HundredthsDigits(q);
  }

  /** A rendered score is one token: a sign, digits and a point, never whitespace
      nor a line break. */
  lemma {:induction false} FormatFixed2IsToken(d: Decimal)
    ensures |FormatFixed2(d)| >= 4
    ensures forall i :: 0 <= i < |FormatFixed2(d)| ==>
      IsDigit(FormatFixed2(d)[i]) || FormatFixed2(d)[i] == '.' || FormatFixed2(d)[i] == '-'
  {
    var q := RoundHundredths(d);
    var sign: String := if d.neg then "-" else "";
    var body := Numeral(q / 100) + ['.'] + Hundredths(q);
    assert FormatFixed2(d) == sign + body;
    assert forall i :: 0 <= i < |body| ==> IsDigit(body[i]) || body[i] == '.';
  }
}
