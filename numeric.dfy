/**
 * Coercion of one change cell to a number: `str(x).replace('%', '')` followed
 * by `pd.to_numeric(..., errors='coerce')`, with the number grammar cut down to
 * an optional sign, decimal digits and an optional decimal point, over exact
 * reals. A cell that does not parse is undefined (`None`), never an error.
 */
module Numeric {
  import opened Wrappers
  import opened Frames

  /** `s.replace('%', '')`: every percent sign removed, wherever it stands. */
  function StripPercent(s: string): (r: string)
    ensures forall c :: c in r <==> c in s && c != '%'
    ensures |r| <= |s|
    ensures '%' !in s ==> r == s
  {
    if s == [] then []
    else if s[0] == '%' then StripPercent(s[1..])
    else [s[0]] + StripPercent(s[1..])
  }

  /** Removing percent signs commutes with joining text. */
  lemma {:induction false} StripPercentAppend(a: string, b: string)
    ensures StripPercent(a + b) == StripPercent(a) + StripPercent(b)
  {
    if a == [] {
      assert a + b == b;
    } else {
      assert (a + b)[0] == a[0] && (a + b)[1..] == a[1..] + b;
      StripPercentAppend(a[1..], b);
    }
  }

  predicate IsDigit(c: char) {
    '0' <= c <= '9'
  }

  predicate AllDigits(s: string) {
    forall i :: 0 <= i < |s| ==> IsDigit(s[i])
  }

  /** The number a run of decimal digits denotes. */
  function DigitsValue(s: string): nat
    requires AllDigits(s)
  {
    if s == [] then 0
    else DigitsValue(s[..|s| - 1]) * 10 + (s[|s| - 1] as int - '0' as int)
  }

  /** Length of the run of digits `s` begins with. */
  function LeadingDigits(s: string): (k: nat)
    ensures k <= |s| && AllDigits(s[..k])
    ensures k < |s| ==> !IsDigit(s[k])
  {
    if s == [] || !IsDigit(s[0]) then 0
    else 1 + LeadingDigits(s[1..])
  }

  function Pow10(k: nat): (p: nat)
    ensures p >= 1
  {
    if k == 0 then 1 else 10 * Pow10(k - 1)
  }

  /** An unsigned decimal: digits, or digits '.' digits with at least one digit
      on either side of the point ("12", "12.", ".5", "12.50"). */
  function ParseUnsigned(s: string): (r: Option<real>)
    ensures r.Some? ==> r.value >= 0.0
    ensures r.Some? ==> forall i :: 0 <= i < |s| ==> IsDigit(s[i]) || s[i] == '.'
  {
    var k := LeadingDigits(s);
    if k == |s| then
      if k > 0 then Some(DigitsValue(s) as real) else None
    else if s[k] != '.' then None
    else
      var frac := s[k + 1..];
      if LeadingDigits(frac) == |frac| && (k > 0 || |frac| > 0) then
        Some(DigitsValue(s[..k]) as real + DigitsValue(frac) as real / Pow10(|frac|) as real)
      else None
  }

  /** `pd.to_numeric(s, errors='coerce')` on one string: an optional '+' or '-'
      then an unsigned decimal; anything else is undefined. */
  function ParseDecimal(s: string): (r: Option<real>)
    ensures r.Some? ==> |s| > 0
    ensures r.Some? ==> forall i :: 0 <= i < |s| ==> IsDigit(s[i]) || s[i] == '.' || (i == 0 && s[i] in "+-")
    ensures r.Some? && s[0] == '-' ==> r.value <= 0.0
    ensures r.Some? && s[0] != '-' ==> r.value >= 0.0
  {
    if |s| > 0 && s[0] == '-' then
      match ParseUnsigned(s[1..])
      case Some(v) => Some(-v)
      case None => None
    else if |s| > 0 && s[0] == '+' then ParseUnsigned(s[1..])
    else ParseUnsigned(s)
  }

  /** The grammar `to_numeric` accepts here, stated on its own: digits with
      at most one decimal point and at least one digit. */
  predicate UnsignedSyntax(u: string) {
    && (forall i :: 0 <= i < |u| ==> IsDigit(u[i]) || u[i] == '.')
    && (forall i, j :: 0 <= i < j < |u| && u[i] == '.' ==> u[j] != '.')
    && (exists i :: 0 <= i < |u| && IsDigit(u[i]))
  }

  /** An optional sign at the front, then an unsigned decimal. */
  predicate DecimalSyntax(s: string) {
    if |s| > 0 && (s[0] == '+' || s[0] == '-') then UnsignedSyntax(s[1..]) else UnsignedSyntax(s)
  }

  /** A string is a run of digits exactly when its leading run is all of it. */
  lemma {:induction false} AllDigitsLeading(s: string)
    ensures AllDigits(s) <==> LeadingDigits(s) == |s|
  {
    if s != [] && AllDigits(s) {
      assert AllDigits(s[1..]) by {
        forall i | 0 <= i < |s| - 1 ensures IsDigit(s[1..][i]) {
          assert s[1..][i] == s[i + 1];
        }
      }
      AllDigitsLeading(s[1..]);
    }
    if LeadingDigits(s) == |s| {
      assert s[..|s|] == s;
    }
  }

  /** The parser accepts exactly the strings of the grammar. */
  lemma ParseUnsignedSyntax(u: string)
    ensures ParseUnsigned(u).Some? <==> UnsignedSyntax(u)
  {
    var k := LeadingDigits(u);
    assert forall i :: 0 <= i < k ==> u[i] == u[..k][i];
    if k == |u| {
      if k > 0 { assert IsDigit(u[0]); }
    } else if u[k] != '.' {
      assert !(IsDigit(u[k]) || u[k] == '.');
    } else {
      var frac := u[k + 1..];
      AllDigitsLeading(frac);
      assert forall i :: k < i < |u| ==> u[i] == frac[i - k - 1];
      var l := LeadingDigits(frac);
      if l == |frac| {
        if k > 0 {
          assert IsDigit(u[0]);
        } else if |frac| > 0 {
          assert IsDigit(u[k + 1]);
        } else {
          assert forall i :: 0 <= i < |u| ==> u[i] == '.';
        }
      } else if frac[l] == '.' {
        assert u[k] == '.' && u[k + 1 + l] == '.';
      } else {
        assert !(IsDigit(u[k + 1 + l]) || u[k + 1 + l] == '.');
      }
    }
  }

  /** With the sign: `ParseDecimal` accepts exactly `DecimalSyntax`. */
  lemma ParseDecimalSyntax(s: string)
    ensures ParseDecimal(s).Some? <==> DecimalSyntax(s)
  {
    if |s| > 0 && (s[0] == '+' || s[0] == '-') {
      ParseUnsignedSyntax(s[1..]);
    } else {
      ParseUnsignedSyntax(s);
    }
  }

  /** The number the digits `w`, a point and the digits `f` denote. */
  function DecimalValue(w: string, f: string): (v: real)
    requires AllDigits(w) && AllDigits(f)
    ensures v >= 0.0
  {
    DigitsValue(w) as real + DigitsValue(f) as real / Pow10(|f|) as real
  }

  /** Any decimal with a point parses to the number it denotes. */
  lemma ParseUnsignedPoint(w: string, f: string)
    requires AllDigits(w) && AllDigits(f) && |w| + |f| > 0
    ensures ParseUnsigned(w + "." + f) == Some(DecimalValue(w, f))
  {
    var u := w + "." + f;
    assert u == w + ("." + f);
    LeadingDigitsOfRun(w, "." + f);
    assert u[..|w|] == w && u[|w|] == '.' && u[|w| + 1..] == f;
    AllDigitsLeading(f);
  }

  /** The number the digits `w` denote. */
  function WholeValue(w: string): (v: real)
    requires AllDigits(w)
    ensures v >= 0.0
  {
    DigitsValue(w) as real
  }

  /** Any run of digits parses to the number it denotes. */
  lemma ParseUnsignedWhole(w: string)
    requires AllDigits(w) && |w| > 0
    ensures ParseUnsigned(w) == Some(WholeValue(w))
  {
    AllDigitsLeading(w);
    assert w[..|w|] == w;
  }

  /** A leading '+' is read past and a leading '-' negates. */
  lemma ParseDecimalSign(u: string)
    requires |u| > 0 && (IsDigit(u[0]) || u[0] == '.')
    ensures ParseDecimal(u) == ParseUnsigned(u)
    ensures ParseDecimal("+" + u) == ParseUnsigned(u)
    ensures ParseDecimal("-" + u) == if ParseUnsigned(u).Some? then Some(-ParseUnsigned(u).value) else None
  {
    assert ("+" + u)[0] == '+' && ("+" + u)[1..] == u;
    assert ("-" + u)[0] == '-' && ("-" + u)[1..] == u;
  }

  /** A sign before an unsigned decimal that parses to `v`. */
  lemma ParseSigned(sign: string, u: string, v: real)
    requires sign == "" || sign == "+" || sign == "-"
    requires |u| > 0 && (IsDigit(u[0]) || u[0] == '.')
    requires ParseUnsigned(u) == Some(v)
    ensures ParseDecimal(sign + u) == Some(if sign == "-" then -v else v)
  {
    ParseDecimalSign(u);
    if sign == "" {
      assert sign + u == u;
    } else if sign == "+" {
      assert sign + u == "+" + u;
    } else {
      assert sign + u == "-" + u;
    }
  }

  /** "12.5", "+12.5", "-12.5", ".5", "12." parse to the number written. */
  lemma ParseDecimalPoint(sign: string, w: string, f: string)
    requires sign == "" || sign == "+" || sign == "-"
    requires AllDigits(w) && AllDigits(f) && |w| + |f| > 0
    ensures ParseDecimal(sign + w + "." + f) == Some(if sign == "-" then -DecimalValue(w, f) else DecimalValue(w, f))
  {
    var u := w + "." + f;
    ParseUnsignedPoint(w, f);
    assert u[0] == (if |w| > 0 then w[0] else '.');
    ParseSigned(sign, u, DecimalValue(w, f));
    assert sign + w + "." + f == sign + u;
  }

  /** "12", "+12", "-12" parse to the number written. */
  lemma ParseDecimalWhole(sign: string, w: string)
    requires sign == "" || sign == "+" || sign == "-"
    requires AllDigits(w) && |w| > 0
    ensures ParseDecimal(sign + w) == Some(if sign == "-" then -WholeValue(w) else WholeValue(w))
  {
    ParseUnsignedWhole(w);
    assert IsDigit(w[0]);
    ParseSigned(sign, w, WholeValue(w));
  }

  /** The coerced value of one change cell. A text column goes through
      `str(x).replace('%', '')` and `to_numeric`; a numeric column through
      `to_numeric` alone. Both give a number for a number (the text of a float
      reads back as that float) and undefined for a missing cell ("nan" and
      "None" do not parse), so the two branches agree cell by cell. */
  function Coerce(c: Cell): (r: Option<real>)
    ensures c.Num? ==> r == Some(c.value)
    ensures c.Missing? ==> r == None
    ensures c.Text? && r.Some? ==> forall ch :: ch in c.text ==> IsDigit(ch) || ch in ".+-%"
    ensures c.Text? ==> (r.Some? <==> DecimalSyntax(StripPercent(c.text)))
  {
    match c
    case Num(v) => Some(v)
    case Missing => None
    case Text(s) =>
      ParseDecimalSyntax(StripPercent(s));
      ParseDecimal(StripPercent(s))
  }

  function DigitChar(d: nat): (ch: char)
    requires d < 10
    ensures IsDigit(ch) && ch as int - '0' as int == d
  {
    ('0' as int + d) as char
  }

  /** The decimal digits of `n`, most significant first. */
  function NatText(n: nat): (s: string)
    ensures |s| > 0 && AllDigits(s) && DigitsValue(s) == n
  {
    if n < 10 then [DigitChar(n)]
    else
      var s := NatText(n / 10) + [DigitChar(n % 10)];
      assert s[..|s| - 1] == NatText(n / 10);
      s
  }

  /** `m` hundredths written unsigned with two decimals ("12.50", "0.00"). */
  function TwoDecimals(m: nat): (s: string)
    ensures '%' !in s && |s| > 0 && IsDigit(s[0])
  {
    NatText(m / 100) + "." + [DigitChar(m % 100 / 10), DigitChar(m % 10)]
  }

  /** `c` hundredths written with two decimals, as the quotes page writes a
      change ("12.50", "-3.10", "0.00"). */
  function Hundredths(c: int): (s: string)
    ensures '%' !in s && |s| > 0
    ensures if c < 0 then s[0] == '-' else IsDigit(s[0])
  {
    if c < 0 then "-" + TwoDecimals(-c) else TwoDecimals(c)
  }

  /** A run of digits followed by a non-digit: the run is the leading digits. */
  lemma {:induction false} LeadingDigitsOfRun(a: string, b: string)
    requires AllDigits(a) && |b| > 0 && !IsDigit(b[0])
    ensures LeadingDigits(a + b) == |a|
  {
    if a == [] {
      assert a + b == b;
    } else {
      assert (a + b)[0] == a[0] && (a + b)[1..] == a[1..] + b;
      LeadingDigitsOfRun(a[1..], b);
    }
  }

  /** Two digits read back as the number they were written from. */
  lemma TwoDigitsValue(d1: nat, d2: nat)
    requires d1 < 10 && d2 < 10
    ensures AllDigits([DigitChar(d1), DigitChar(d2)])
    ensures LeadingDigits([DigitChar(d1), DigitChar(d2)]) == 2
    ensures DigitsValue([DigitChar(d1), DigitChar(d2)]) == d1 * 10 + d2
  {
    var frac := [DigitChar(d1), DigitChar(d2)];
    assert frac[..1] == [DigitChar(d1)] && frac[..1][..0] == [];
    assert frac[1..] == [DigitChar(d2)] && frac[1..][1..] == [];
    assert DigitsValue(frac[..1]) == d1;
    assert DigitsValue(frac) == DigitsValue(frac[..1]) * 10 + d2;
  }

  /** An unsigned two-decimal text parses back to the amount it was written from. */
  lemma ParseTwoDecimals(m: nat)
    ensures ParseUnsigned(TwoDecimals(m)) == Some(m as real / 100.0)
  {
    var w := NatText(m / 100);
    var d1, d2 := m % 100 / 10, m % 10;
    var frac := [DigitChar(d1), DigitChar(d2)];
    TwoDigitsValue(d1, d2);
    ParseUnsignedPoint(w, frac);
    assert Pow10(2) == 100;
    assert DecimalValue(w, frac) == (m / 100) as real + (d1 * 10 + d2) as real / 100.0;
    LastTwoDigits(m);
    Rejoin(m / 100, d1 * 10 + d2);
  }

  /** The last two decimal digits of `m` make up `m % 100`. */
  lemma LastTwoDigits(m: nat)
    ensures m % 100 / 10 * 10 + m % 10 == m % 100
    ensures m == m / 100 * 100 + m % 100
  {
    var q, r := m / 100, m % 100;
    assert m == 10 * (10 * q) + r;
    assert m % 10 == r % 10;
  }

  /** A whole part and a number of hundredths, as one amount. */
  lemma Rejoin(q: nat, r: nat)
    ensures q as real + r as real / 100.0 == (q * 100 + r) as real / 100.0
  {
  }

  /** Parsing reads back exactly the number a two-decimal text was written from. */
  lemma ParseHundredths(c: int)
    ensures ParseDecimal(Hundredths(c)) == Some(c as real / 100.0)
  {
    if c < 0 {
      ParseNegativeHundredths(c);
    } else {
      ParseTwoDecimals(c);
      ParseSigned("", TwoDecimals(c), c as real / 100.0);
      SameParse(Hundredths(c), "" + TwoDecimals(c), c as real / 100.0, c as real / 100.0);
    }
  }

  lemma ParseNegativeHundredths(c: int)
    requires c < 0
    ensures ParseDecimal(Hundredths(c)) == Some(c as real / 100.0)
  {
    var m: nat := -c;
    ParseNegatedTwoDecimals(m);
    NegativeHundredths(c, m);
    SameParse(Hundredths(c), "-" + TwoDecimals(m), -(m as real / 100.0), c as real / 100.0);
  }

  /** A negative amount is written as a minus sign before its magnitude. */
  lemma NegativeHundredths(c: int, m: nat)
    requires c < 0 && m == -c
    ensures Hundredths(c) == "-" + TwoDecimals(m)
    ensures -(m as real / 100.0) == c as real / 100.0
  {
  }

  /** A minus sign before a two-decimal amount negates it. */
  lemma ParseNegatedTwoDecimals(m: nat)
    ensures ParseDecimal("-" + TwoDecimals(m)) == Some(-(m as real / 100.0))
  {
    ParseTwoDecimals(m);
    ParseSigned("-", TwoDecimals(m), m as real / 100.0);
  }

  /** Equal texts parse alike. Stated as a lemma so that the callers above
      conclude about `ParseDecimal(Hundredths(c))` without the solver unfolding
      the parse of `Hundredths(c)` itself, which made those proofs run out of
      resource on some solver seeds. */
  lemma SameParse(h: string, h': string, v: real, v': real)
    requires h == h' && v == v' && ParseDecimal(h') == Some(v)
    ensures ParseDecimal(h) == Some(v')
  {
  }

  /** A single trailing percent sign on text without one is dropped. */
  lemma StripTrailingPercent(h: string)
    requires '%' !in h
    ensures StripPercent(h + "%") == h
  {
    StripPercentAppend(h, "%");
    assert StripPercent("%") == [];
  }

  /** A change written "12.50%" or "-3.10%" coerces to the same number as the
      cell holding that number outright. */
  lemma CoerceHundredths(c: int)
    ensures Coerce(Text(Hundredths(c) + "%")) == Some(c as real / 100.0)
    ensures Coerce(Text(Hundredths(c) + "%")) == Coerce(Num(c as real / 100.0))
  {
    StripTrailingPercent(Hundredths(c));
    ParseHundredths(c);
  }

  /** An explicit '+' in front of a non-negative change is read past. */
  lemma CoerceSignedHundredths(c: int)
    requires c >= 0
    ensures Coerce(Text("+" + Hundredths(c) + "%")) == Some(c as real / 100.0)
  {
    var s := "+" + Hundredths(c);
    StripTrailingPercent(s);
    assert s[0] == '+' && s[1..] == Hundredths(c);
    ParseHundredths(c);
  }

  /** Percent signs count for nothing wherever they stand, not only at the end. */
  lemma CoerceIgnoresPercentSigns(a: string, b: string)
    ensures Coerce(Text(a + "%" + b)) == Coerce(Text(a + b))
  {
    StripPercentAppend(a + "%", b);
    StripPercentAppend(a, "%");
    StripPercentAppend(a, b);
    assert StripPercent("%") == [];
    assert StripPercent(a + "%") == StripPercent(a);
    assert StripPercent(a + "%" + b) == StripPercent(a + b);
  }

  /** A change written with a sign, digits, a point, digits and a percent sign
      ("+12.5%", "-3.10%", "0.00%") coerces to the number written. */
  lemma CoerceWrittenChange(sign: string, w: string, f: string)
    requires sign == "" || sign == "+" || sign == "-"
    requires AllDigits(w) && AllDigits(f) && |w| + |f| > 0
    ensures Coerce(Text(sign + w + "." + f + "%")) == Some(if sign == "-" then -DecimalValue(w, f) else DecimalValue(w, f))
  {
    var t := sign + w + "." + f;
    assert '%' !in w && '%' !in f;
    assert '%' !in t;
    StripTrailingPercent(t);
    ParseDecimalPoint(sign, w, f);
  }
}
