/**
 * Reading one textual amount: `parse_amount` and the `float()` conversion it
 * ends with. Amounts are exact reals rather than binary floating point.
 */
module Amount {
  import opened Wrappers
  import opened Text

  /** The currency glyphs of the class `[\$€¥£]`. */
  predicate IsCurrency(c: char) {
    c == '$' || c == '\U{20AC}' || c == '\U{A5}' || c == '\U{A3}'
  }

  /** `re.sub(r"[\$€¥£]", "", s)`. */
  function RemoveCurrency(s: string): string {
    Without(s, IsCurrency)
  }

  /** Removing the glyphs leaves none, so a second removal changes nothing. */
  lemma CurrencyRemoved(s: string)
    ensures forall i :: 0 <= i < |RemoveCurrency(s)| ==> !IsCurrency(RemoveCurrency(s)[i])
    ensures RemoveCurrency(RemoveCurrency(s)) == RemoveCurrency(s)
  {
    WithoutFirstNoneLeft(s, |s|, IsCurrency);
    WithoutKeepsAll(RemoveCurrency(s), IsCurrency);
  }

  /** The value of a decimal digit (callers only apply it to digits). */
  function DigitValue(c: char): nat {
    if IsDigit(c) then c as int - '0' as int else 0
  }

  /** The value of a string of decimal digits. */
  function NatOf(s: string): nat {
    ValueOfFirst(s, |s|)
  }

  /** The value of the first `n` digits of `s`. */
  function ValueOfFirst(s: string, n: nat): nat
    requires n <= |s|
  {
    if n == 0 then 0 else ValueOfFirst(s, n - 1) * 10 + DigitValue(s[n - 1])
  }

  /** The value of the digits after a decimal point: "56" reads as 0.56. */
  function Fraction(f: string): (v: real)
    ensures 0.0 <= v < 1.0
  {
    FractionFrom(f, 0)
  }

  /** The value of the fraction digits from position `i` on, read as `0.f[i]f[i+1]...`. */
  function FractionFrom(f: string, i: nat): (v: real)
    requires i <= |f|
    ensures 0.0 <= v < 1.0
    decreases |f| - i
  {
    if i == |f| then 0.0 else (DigitValue(f[i]) as real + FractionFrom(f, i + 1)) / 10.0
  }

  function Signed(negative: bool, v: real): real {
    if negative then -v else v
  }

  function Sign(negative: bool): string {
    if negative then "-" else ""
  }

  /**
   * `float(s)` on decimal text: surrounding whitespace, an optional sign,
   * digits with an optional point and fraction digits, at least one digit in
   * all. Anything else is the `ValueError` that `parse_amount` turns into
   * `None`.
   */
  function ParseFloat(s: string): (r: Option<real>)
  {
    ParseSigned(Strip(s))
  }

  /** An optional sign in front of an unsigned decimal. */
  function ParseSigned(t: string): Option<real> {
    if |t| > 0 && (t[0] == '-' || t[0] == '+') then
      match ParseUnsigned(t[1..])
      case Some(v) => Some(Signed(t[0] == '-', v))
      case None => None
    else ParseUnsigned(t)
  }

  /** Digits, then optionally a point and more digits; at least one digit in all. */
  function ParseUnsigned(body: string): Option<real> {
    var k := IndexOf(body, '.');
    var whole := body[..k];
    var frac := if k < |body| then body[k + 1..] else [];
    if AllDigits(whole) && AllDigits(frac) && |whole| + |frac| > 0
    then Some(NatOf(whole) as real + Fraction(frac))
    else None
  }

  predicate IsPeriod(c: char) { c == '.' }

  predicate IsComma(c: char) { c == ',' }

  /**
   * Digits grouped in threes by the separator `sep` selects: one to three
   * digits, then any number of separators each followed by exactly three
   * digits (`\d{1,3}(?:\.\d{3})*` for the period).
   */
  predicate Grouped(p: string, sep: char -> bool) {
    GroupedFirst(p, |p|, sep)
  }

  /** The first `n` characters of `p` are grouped digits. */
  predicate GroupedFirst(p: string, n: nat, sep: char -> bool)
    requires n <= |p|
  {
    (1 <= n <= 3 && forall i :: 0 <= i < n ==> IsDigit(p[i])) ||
    (n >= 5 && sep(p[n - 4]) && IsDigit(p[n - 3]) && IsDigit(p[n - 2]) && IsDigit(p[n - 1]) &&
     GroupedFirst(p, n - 4, sep))
  }

  /** Grouped digits read group by group, each group a base-1000 digit. */
  function GroupedValue(p: string): nat {
    GroupedValueFirst(p, |p|)
  }

  function GroupedValueFirst(p: string, n: nat): nat
    requires n <= |p|
  {
    if n <= 3 then ValueOfFirst(p, n)
    else GroupedValueFirst(p, n - 4) * 1000 + DigitValue(p[n - 3]) * 100 + DigitValue(p[n - 2]) * 10 + DigitValue(p[n - 1])
  }

  /**
   * `re.match(r"^-?\d{1,3}(?:\.\d{3})+,\d+$", t)`: the European
   * convention. The part before the first comma is grouped by periods with
   * at least one group, the rest is one or more digits.
   */
  predicate IsEuropean(t: string) {
    EuropeanBody(Unsigned(t))
  }

  /** The text after one optional leading minus sign. */
  function Unsigned(t: string): string {
    if |t| > 0 && t[0] == '-' then t[1..] else t
  }

  predicate EuropeanBody(body: string) {
    var k := IndexOf(body, ',');
    k + 1 < |body| && k > 3 && Grouped(body[..k], IsPeriod) && AllDigits(body[k + 1..])
  }

  /**
   * `parse_amount`: strip, choose the separator convention on the stripped
   * text, then drop the currency glyphs and convert. Total: a failed
   * conversion is `None`.
   */
  function ParseAmount(text: string): (r: Option<real>)
    ensures r.Some? ==> HasDigit(text)
  {
    var t := Strip(text);
    var clean := if IsEuropean(t) then Replace(Without(t, IsPeriod), ',', '.') else Without(t, IsComma);
    var r := ParseFloat(RemoveCurrency(clean));
    assert r.Some? ==> HasDigit(text) by {
      ParseFloatNeedsDigit(RemoveCurrency(clean));
      WithoutDigits(clean, IsCurrency);
      if IsEuropean(t) {
        ReplaceDigits(Without(t, IsPeriod), ',', '.');
        WithoutDigits(t, IsPeriod);
      } else {
        WithoutDigits(t, IsComma);
      }
      StripDigits(text);
    }
    r
  }

  // ---------------------------------------------------------------------
  // Digits survive only where they were.

  lemma UnsignedNeedsDigit(body: string)
    ensures ParseUnsigned(body).Some? ==> HasDigit(body)
  {
    var k := IndexOf(body, '.');
    if ParseUnsigned(body).Some? {
      if k > 0 { assert IsDigit(body[0]); } else { assert IsDigit(body[k + 1]); }
    }
  }

  lemma SignedNeedsDigit(t: string)
    ensures ParseSigned(t).Some? ==> HasDigit(t)
  {
    if |t| > 0 && (t[0] == '-' || t[0] == '+') {
      UnsignedNeedsDigit(t[1..]);
      if ParseSigned(t).Some? {
        var i :| 0 <= i < |t[1..]| && IsDigit(t[1..][i]);
        assert IsDigit(t[i + 1]);
      }
    } else {
      UnsignedNeedsDigit(t);
    }
  }

  lemma ParseFloatNeedsDigit(s: string)
    ensures ParseFloat(s).Some? ==> HasDigit(s)
  {
    SignedNeedsDigit(Strip(s));
    StripDigits(s);
  }

  lemma ReplaceDigits(s: string, a: char, b: char)
    requires !IsDigit(b)
    ensures HasDigit(Replace(s, a, b)) ==> HasDigit(s)
  {
    if HasDigit(Replace(s, a, b)) {
      var i :| 0 <= i < |s| && IsDigit(Replace(s, a, b)[i]);
      assert IsDigit(s[i]);
    }
  }

  lemma StripDigits(s: string)
    ensures HasDigit(Strip(s)) ==> HasDigit(s)
  {
    var l := StripLeft(s);
    var r := StripRight(l);
    if HasDigit(r) {
      var i :| 0 <= i < |r| && IsDigit(r[i]);
      assert r[i] == l[i];
      assert l[i] == s[|s| - |l| + i];
    }
  }

  // ---------------------------------------------------------------------
  // Decimal digits.

  /** The first `n` digits are read alike in any two strings that share them. */
  lemma {:induction false} ValueOfFirstAgree(s: string, t: string, n: nat)
    requires n <= |s| && n <= |t|
    requires forall i :: 0 <= i < n ==> s[i] == t[i]
    ensures ValueOfFirst(s, n) == ValueOfFirst(t, n)
  {
    if n > 0 {
      ValueOfFirstAgree(s, t, n - 1);
    }
  }

  /** One more digit multiplies the value read so far by ten. */
  lemma NatOfPush(a: string, c: char)
    ensures NatOf(a + [c]) == NatOf(a) * 10 + DigitValue(c)
  {
    ValueOfFirstAgree(a + [c], a, |a|);
  }

  /** Text whose first point sits at `k` reads as its whole part plus its fraction. */
  lemma ReadParts(body: string, whole: string, frac: string, k: nat, v: real)
    requires IndexOf(body, '.') == k
    requires k <= |body| && body[..k] == whole
    requires (if k < |body| then body[k + 1..] else []) == frac
    requires AllDigits(whole) && AllDigits(frac) && |whole| + |frac| > 0
    requires v == NatOf(whole) as real + Fraction(frac)
    ensures ParseUnsigned(body) == Some(v)
  {
  }

  /** The first point of `whole.frac` sits right after `whole`, which has none. */
  lemma PointSplit(whole: string, point: bool, frac: string)
    requires AllDigits(whole) && (point || frac == [])
    ensures var body := whole + (if point then "." + frac else "");
      IndexOf(body, '.') == |whole| && body[..|whole|] == whole &&
      (if |whole| < |body| then body[|whole| + 1..] else []) == frac
  {
    var body := whole + (if point then "." + frac else "");
    if point {
      FirstAt(whole, '.', frac);
    } else {
      assert body == whole;
      IndexOfIs(body, '.', |whole|);
    }
  }

  lemma ReadUnsigned(whole: string, point: bool, frac: string, v: real)
    requires AllDigits(whole) && AllDigits(frac) && |whole| + |frac| > 0
    requires point || frac == []
    requires v == NatOf(whole) as real + Fraction(frac)
    ensures ParseUnsigned(whole + (if point then "." + frac else "")) == Some(v)
  {
    PointSplit(whole, point, frac);
    ReadParts(whole + (if point then "." + frac else ""), whole, frac, |whole|, v);
  }

  lemma ReadSigned(negative: bool, body: string, v: real)
    requires ParseUnsigned(body) == Some(v)
    requires |body| > 0 && body[0] != '-' && body[0] != '+'
    ensures ParseSigned(Sign(negative) + body) == Some(Signed(negative, v))
  {
    if negative {
      assert (Sign(negative) + body)[1..] == body;
    } else {
      assert Sign(negative) + body == body;
    }
  }

  /** Decimal text starts with a digit or the point and ends with a digit or the point. */
  lemma DecimalEnds(whole: string, point: bool, frac: string)
    requires AllDigits(whole) && AllDigits(frac) && |whole| + |frac| > 0
    requires point || frac == []
    ensures var body := whole + (if point then "." + frac else "");
      |body| > 0 && (IsDigit(body[0]) || body[0] == '.') && (IsDigit(body[|body| - 1]) || body[|body| - 1] == '.')
  {
    var tail := if point then "." + frac else "";
    var body := whole + tail;
    if |whole| == 0 { assert body[0] == tail[0]; } else { assert body[0] == whole[0]; }
    if |tail| == 0 { assert body[|body| - 1] == whole[|whole| - 1]; }
    else { assert body[|body| - 1] == tail[|tail| - 1]; }
  }

  /** A sign in front of text with no whitespace at its ends is left alone by `strip()`. */
  lemma SignedUnstripped(negative: bool, body: string)
    requires |body| > 0 && !IsSpace(body[0]) && !IsSpace(body[|body| - 1])
    ensures Strip(Sign(negative) + body) == Sign(negative) + body
  {
    var s := Sign(negative) + body;
    if !negative { assert s == body; } else { assert s[|s| - 1] == body[|body| - 1]; }
    StripNothing(s);
  }

  /** An optional minus sign in front of an unsigned decimal negates its value. */
  lemma SignedDecimal(negative: bool, whole: string, tail: string, v: real)
    requires ParseUnsigned(whole + tail) == Some(v)
    requires var body := whole + tail;
      |body| > 0 && (IsDigit(body[0]) || body[0] == '.') && (IsDigit(body[|body| - 1]) || body[|body| - 1] == '.')
    ensures ParseFloat(Sign(negative) + whole + tail) == Some(Signed(negative, v))
  {
    Associative(Sign(negative), whole, tail);
    ReadSigned(negative, whole + tail, v);
    SignedUnstripped(negative, whole + tail);
  }

  /**
   * `float()` reads an optional minus sign, digits, and an optional point
   * with fraction digits as the exact decimal they denote.
   */
  lemma ReadDecimal(negative: bool, whole: string, point: bool, frac: string, v: real)
    requires AllDigits(whole) && AllDigits(frac) && |whole| + |frac| > 0
    requires point || frac == []
    requires v == NatOf(whole) as real + Fraction(frac)
    ensures ParseFloat(Sign(negative) + whole + (if point then "." + frac else "")) == Some(Signed(negative, v))
  {
    ReadUnsigned(whole, point, frac, v);
    DecimalEnds(whole, point, frac);
    SignedDecimal(negative, whole, if point then "." + frac else "", v);
  }

  lemma ReadPointDecimal(negative: bool, whole: string, frac: string, v: real)
    requires AllDigits(whole) && AllDigits(frac) && |whole| + |frac| > 0
    requires v == NatOf(whole) as real + Fraction(frac)
    ensures ParseFloat(Sign(negative) + whole + ("." + frac)) == Some(Signed(negative, v))
  {
    ReadDecimal(negative, whole, true, frac, v);
  }

  function DigitChar(d: nat): (c: char)
    requires d < 10
    ensures IsDigit(c) && DigitValue(c) == d
  {
    ('0' as int + d) as char
  }

  /** Decimal representation of `n`, most significant digit first. */
  function Digits(n: nat): (s: string)
    ensures |s| >= 1 && AllDigits(s)
    ensures NatOf(s) == n
    decreases n
  {
    if n < 10 then
      NatOfPush([], DigitChar(n));
      assert [] + [DigitChar(n)] == [DigitChar(n)];
      [DigitChar(n)]
    else
      var s := Digits(n / 10) + [DigitChar(n % 10)];
      NatOfPush(Digits(n / 10), DigitChar(n % 10));
      AllDigitsPush(Digits(n / 10), DigitChar(n % 10));
      s
  }

  /** Printing an integer in decimal and converting it back gives the integer. */
  lemma ParseFloatDigits(v: int)
    ensures ParseFloat(Sign(v < 0) + Digits(if v < 0 then -v else v)) == Some(v as real)
  {
    var n: nat := if v < 0 then -v else v;
    var d := Digits(n);
    ReadDecimal(v < 0, d, false, "", n as real);
    assert Sign(v < 0) + d + "" == Sign(v < 0) + d;
    assert Signed(v < 0, n as real) == v as real;
  }

  // ---------------------------------------------------------------------
  // The two separator conventions.

  /** Grouped digits consist of digits and separators, with a digit at each end. */
  lemma {:induction false} GroupedShape(p: string, n: nat, sep: char -> bool)
    requires n <= |p| && GroupedFirst(p, n, sep)
    ensures n >= 1 && IsDigit(p[0]) && IsDigit(p[n - 1])
    ensures forall i :: 0 <= i < n ==> IsDigit(p[i]) || sep(p[i])
  {
    if n > 3 {
      GroupedShape(p, n - 4, sep);
    }
  }

  /** Length of the leading group of `n` grouped characters. */
  function LeadLength(n: nat): nat {
    if n <= 3 then n else LeadLength(n - 4)
  }

  /** The leading group is one to three digits, followed by a separator unless it is all there is. */
  lemma {:induction false} GroupedLead(p: string, n: nat, sep: char -> bool)
    requires n <= |p| && GroupedFirst(p, n, sep)
    ensures 1 <= LeadLength(n) <= 3 && LeadLength(n) <= n
    ensures forall i :: 0 <= i < LeadLength(n) ==> IsDigit(p[i])
    ensures LeadLength(n) < n ==> sep(p[LeadLength(n)])
  {
    if n > 3 {
      GroupedLead(p, n - 4, sep);
    }
  }

  /**
   * Removing the separators from grouped digits leaves digits whose value
   * is the group-by-group reading: the separator only marks thousands.
   */
  lemma {:induction false} GroupedDigits(p: string, n: nat, sep: char -> bool)
    requires n <= |p| && GroupedFirst(p, n, sep)
    requires forall c :: IsDigit(c) ==> !sep(c)
    ensures |WithoutFirst(p, n, sep)| > 0 && AllDigits(WithoutFirst(p, n, sep))
    ensures NatOf(WithoutFirst(p, n, sep)) == GroupedValueFirst(p, n)
  {
    if n <= 3 {
      WithoutFirstKeeps(p, n, sep);
      ValueOfFirstAgree(p[..n], p, n);
    } else {
      GroupedDigits(p, n - 4, sep);
      var q := WithoutFirst(p, n - 4, sep);
      var a, b, c := p[n - 3], p[n - 2], p[n - 1];
      assert WithoutFirst(p, n - 3, sep) == q + [] == q;
      assert WithoutFirst(p, n - 2, sep) == q + [a];
      assert WithoutFirst(p, n - 1, sep) == q + [a] + [b];
      assert WithoutFirst(p, n, sep) == q + [a] + [b] + [c];
      NatOfPush(q, a);
      NatOfPush(q + [a], b);
      NatOfPush(q + [a] + [b], c);
      AllDigitsPush(q, a);
      AllDigitsPush(q + [a], b);
      AllDigitsPush(q + [a] + [b], c);
    }
  }

  /** Text of digits, signs and points holds no currency glyph. */
  lemma NoCurrencyIn(s: string)
    requires forall i :: 0 <= i < |s| ==> IsDigit(s[i]) || s[i] == '-' || s[i] == '.'
    ensures RemoveCurrency(s) == s
  {
    WithoutKeepsAll(s, IsCurrency);
  }

  /** A signed decimal's characters are digits, the sign and the point. */
  lemma DecimalChars(negative: bool, d: string, tail: string)
    requires AllDigits(d)
    requires forall i :: 0 <= i < |tail| ==> IsDigit(tail[i]) || tail[i] == '.'
    ensures var s := Sign(negative) + d + tail;
      forall i :: 0 <= i < |s| ==> IsDigit(s[i]) || s[i] == '-' || s[i] == '.'
  {
    var s := Sign(negative) + d + tail;
    forall i | 0 <= i < |s| ensures IsDigit(s[i]) || s[i] == '-' || s[i] == '.' {
      var n := |Sign(negative)|;
      if i < n { assert s[i] == '-'; }
      else if i < n + |d| { assert s[i] == d[i - n]; }
      else { assert s[i] == tail[i - n - |d|]; }
    }
  }

  /** `.` followed by digits holds only digits and the point. */
  lemma PointTailChars(point: bool, f: string)
    requires AllDigits(f)
    ensures var tail := if point then "." + f else "";
      forall i :: 0 <= i < |tail| ==> IsDigit(tail[i]) || tail[i] == '.'
  {
    var tail := if point then "." + f else "";
    forall i | 0 <= i < |tail| ensures IsDigit(tail[i]) || tail[i] == '.' {
      if i > 0 { assert tail[i] == f[i - 1]; }
    }
  }

  /** Removing the currency glyphs from a signed decimal changes nothing. */
  lemma DecimalHasNoCurrency(negative: bool, d: string, point: bool, f: string)
    requires AllDigits(d) && AllDigits(f)
    ensures var s := Sign(negative) + d + (if point then "." + f else "");
      RemoveCurrency(s) == s
  {
    PointTailChars(point, f);
    DecimalChars(negative, d, if point then "." + f else "");
    NoCurrencyIn(Sign(negative) + d + (if point then "." + f else ""));
  }

  lemma UnsignedBody(negative: bool, body: string)
    requires |body| > 0 && body[0] != '-'
    ensures Unsigned(Sign(negative) + body) == body
  {
    var t := Sign(negative) + body;
    if negative { assert t[1..] == body; } else { assert t == body; }
  }

  /** Text with digits at both ends is left alone by `strip()`. */
  lemma DigitEnds(negative: bool, p: string, rest: string)
    requires |p| > 0 && IsDigit(p[0])
    requires |rest| > 0 ==> IsDigit(rest[|rest| - 1]) || rest[|rest| - 1] == '.'
    requires |rest| == 0 ==> IsDigit(p[|p| - 1])
    ensures Strip(Sign(negative) + p + rest) == Sign(negative) + p + rest
  {
    Associative(Sign(negative), p, rest);
    var body := p + rest;
    assert body[0] == p[0];
    if |rest| > 0 { assert body[|body| - 1] == rest[|rest| - 1]; }
    else { assert body[|body| - 1] == p[|p| - 1]; }
    SignedUnstripped(negative, body);
  }

  /** `IsEuropean` holds for period-grouped digits with at least one group, a comma and digits. */
  lemma EuropeanShape(negative: bool, p: string, f: string)
    requires Grouped(p, IsPeriod) && |p| > 3
    requires |f| >= 1 && AllDigits(f)
    ensures Strip(Sign(negative) + p + ("," + f)) == Sign(negative) + p + ("," + f)
    ensures IsEuropean(Sign(negative) + p + ("," + f))
  {
    GroupedShape(p, |p|, IsPeriod);
    DigitEnds(negative, p, "," + f);
    SignedBody(negative, p, "," + f);
    EuropeanSplit(p, f);
  }

  lemma SignedBody(negative: bool, p: string, rest: string)
    requires |p| > 0 && p[0] != '-'
    ensures Unsigned(Sign(negative) + p + rest) == p + rest
  {
    Associative(Sign(negative), p, rest);
    UnsignedBody(negative, p + rest);
  }

  lemma EuropeanSplit(p: string, f: string)
    requires Grouped(p, IsPeriod) && |p| > 3
    requires |f| >= 1 && AllDigits(f)
    ensures EuropeanBody(p + ("," + f))
  {
    var body := p + ("," + f);
    GroupedShape(p, |p|, IsPeriod);
    FirstAt(p, ',', f);
    assert IndexOf(body, ',') == |p|;
    assert body[..|p|] == p;
    assert body[|p| + 1..] == f;
  }

  /** How `ParseAmount` reads text in the European convention that needs no stripping. */
  lemma AmountOfEuropean(t: string, clean: string, v: real)
    requires Strip(t) == t && IsEuropean(t)
    requires Replace(Without(t, IsPeriod), ',', '.') == clean
    requires RemoveCurrency(clean) == clean && ParseFloat(clean) == Some(v)
    ensures ParseAmount(t) == Some(v)
  {
  }

  /** How `ParseAmount` reads any other text that needs no stripping. */
  lemma AmountOfOther(t: string, clean: string, v: real)
    requires Strip(t) == t && !IsEuropean(t)
    requires Without(t, IsComma) == clean
    requires RemoveCurrency(clean) == clean && ParseFloat(clean) == Some(v)
    ensures ParseAmount(t) == Some(v)
  {
  }

  /** Text that `strip()` leaves alone and that is not European only loses its commas. */
  lemma AmountOfPlain(t: string)
    requires Strip(t) == t && !IsEuropean(t)
    ensures ParseAmount(t) == ParseFloat(RemoveCurrency(Without(t, IsComma)))
  {
  }

  /** Grouped digits with their separators dropped read as the grouped value. */
  lemma GroupedReading(p: string, sep: char -> bool)
    requires Grouped(p, sep)
    requires forall c :: IsDigit(c) ==> !sep(c)
    ensures |Without(p, sep)| > 0 && AllDigits(Without(p, sep))
    ensures NatOf(Without(p, sep)) == GroupedValue(p)
  {
    GroupedDigits(p, |p|, sep);
  }

  /** Dropping the periods and turning the comma into a point. */
  lemma EuropeanClean(negative: bool, p: string, f: string)
    requires AllDigits(Without(p, IsPeriod)) && AllDigits(f)
    ensures Replace(Without(Sign(negative) + p + ("," + f), IsPeriod), ',', '.')
         == Sign(negative) + Without(p, IsPeriod) + ("." + f)
  {
    DropPeriods(negative, p, f);
    CommaToPoint(negative, Without(p, IsPeriod), f);
  }

  /** Deleting the periods touches only the grouped part. */
  lemma DropPeriods(negative: bool, p: string, f: string)
    requires AllDigits(f)
    ensures Without(Sign(negative) + p + ("," + f), IsPeriod) == Sign(negative) + Without(p, IsPeriod) + ("," + f)
  {
    WithoutAppend(Sign(negative) + p, "," + f, IsPeriod);
    WithoutAppend(Sign(negative), p, IsPeriod);
    WithoutKeepsAll(Sign(negative), IsPeriod);
    WithoutKeepsAll("," + f, IsPeriod);
  }

  /** The one comma, between digits, becomes the decimal point. */
  lemma CommaToPoint(negative: bool, d: string, f: string)
    requires AllDigits(d) && AllDigits(f)
    ensures Replace(Sign(negative) + d + ("," + f), ',', '.') == Sign(negative) + d + ("." + f)
  {
    ReplaceAppend(Sign(negative) + d, "," + f, ',', '.');
    ReplaceAppend(Sign(negative), d, ',', '.');
    ReplaceAbsent(Sign(negative), ',', '.');
    ReplaceAbsent(d, ',', '.');
    ReplaceAppend(",", f, ',', '.');
    ReplaceAbsent(f, ',', '.');
  }

  /**
   * European convention (`^-?\d{1,3}(?:\.\d{3})+,\d+$`): periods separate
   * thousands and the comma is the decimal point, so "1.234,56" reads as
   * 1234.56 and "-1.234,56" as -1234.56. The value `v` is the grouped
   * integer part plus the fraction read after the comma.
   */
  lemma EuropeanReading(negative: bool, p: string, f: string, v: real)
    requires Grouped(p, IsPeriod) && |p| > 3
    requires |f| >= 1 && AllDigits(f)
    requires v == GroupedValue(p) as real + Fraction(f)
    ensures IsEuropean(Sign(negative) + p + ("," + f))
    ensures ParseAmount(Sign(negative) + p + ("," + f)) == Some(Signed(negative, v))
  {
    var t := Sign(negative) + p + ("," + f);
    var d := Without(p, IsPeriod);
    var clean := Sign(negative) + d + ("." + f);
    EuropeanShape(negative, p, f);
    GroupedReading(p, IsPeriod);
    assert Replace(Without(t, IsPeriod), ',', '.') == clean by {
      EuropeanClean(negative, p, f);
    }
    assert RemoveCurrency(clean) == clean by {
      DecimalHasNoCurrency(negative, d, true, f);
    }
    ReadPointDecimal(negative, d, f, v);
    AmountOfEuropean(t, clean, Signed(negative, v));
  }

  /** Dropping the commas from comma-grouped digits and a comma-free tail. */
  lemma USClean(negative: bool, p: string, tail: string)
    requires forall i :: 0 <= i < |tail| ==> IsDigit(tail[i]) || tail[i] == '.'
    ensures Without(Sign(negative) + p + tail, IsComma) == Sign(negative) + Without(p, IsComma) + tail
  {
    WithoutAppend(Sign(negative) + p, tail, IsComma);
    WithoutAppend(Sign(negative), p, IsComma);
    WithoutKeepsAll(Sign(negative), IsComma);
    WithoutKeepsAll(tail, IsComma);
  }

  /**
   * Any other text loses all its commas and keeps `.` as the decimal point:
   * US-grouped amounts such as "846,432.15" and "-1,200" read as 846432.15
   * and -1200.
   */
  lemma USReading(negative: bool, p: string, point: bool, f: string, v: real)
    requires Grouped(p, IsComma)
    requires AllDigits(f) && (point || f == [])
    requires v == GroupedValue(p) as real + Fraction(f)
    ensures !IsEuropean(Sign(negative) + p + (if point then "." + f else ""))
    ensures ParseAmount(Sign(negative) + p + (if point then "." + f else "")) == Some(Signed(negative, v))
  {
    GroupedShape(p, |p|, IsComma);
    GroupedReading(p, IsComma);
    CommaReading(negative, p, point, f, v);
  }

  /** Digits and commas, starting with a digit: any whole part the US reading accepts. */
  predicate CommaDigits(w: string) {
    |w| > 0 && IsDigit(w[0]) && forall i :: 0 <= i < |w| ==> IsDigit(w[i]) || w[i] == ','
  }

  /**
   * The US reading whatever the commas: every comma is deleted wherever it
   * stands, so "150000.00" reads as 150000, "1234" as 1234 and "1,2,3" as
   * 123. No such text passes the European test, because the text before its
   * first comma has no period to group by.
   */
  lemma CommaReading(negative: bool, w: string, point: bool, f: string, v: real)
    requires CommaDigits(w)
    requires AllDigits(f) && (point || f == [])
    requires v == NatOf(Without(w, IsComma)) as real + Fraction(f)
    ensures !IsEuropean(Sign(negative) + w + (if point then "." + f else ""))
    ensures ParseAmount(Sign(negative) + w + (if point then "." + f else "")) == Some(Signed(negative, v))
  {
    var tail := if point then "." + f else "";
    var t := Sign(negative) + w + tail;
    var d := Without(w, IsComma);
    var clean := Sign(negative) + d + tail;
    CommaShape(negative, w, point, f);
    CommaCleaned(negative, w, point, f);
    ReadDecimal(negative, d, point, f, v);
    AmountOfOther(t, clean, Signed(negative, v));
  }

  /** Signed digits and commas with an optional fraction need no stripping and are not European. */
  lemma CommaShape(negative: bool, w: string, point: bool, f: string)
    requires CommaDigits(w)
    requires AllDigits(f) && (point || f == [])
    ensures var t := Sign(negative) + w + (if point then "." + f else "");
      Strip(t) == t && !IsEuropean(t)
  {
    var tail := if point then "." + f else "";
    PointTailChars(point, f);
    CommaStripped(negative, w, tail);
    SignedBody(negative, w, tail);
    CommaSplit(w, tail);
  }

  /** A signed text that starts with a digit and has no blank at its end is what `strip()` leaves. */
  lemma CommaStripped(negative: bool, w: string, tail: string)
    requires CommaDigits(w)
    requires forall i :: 0 <= i < |tail| ==> IsDigit(tail[i]) || tail[i] == '.'
    ensures Strip(Sign(negative) + w + tail) == Sign(negative) + w + tail
  {
    var t := Sign(negative) + w + tail;
    assert t[0] == '-' || t[0] == w[0];
    if tail == [] {
      assert t[|t| - 1] == w[|w| - 1];
    } else {
      assert t[|t| - 1] == tail[|tail| - 1];
    }
    StripNothing(t);
  }

  /** Before the first comma there are only digits, so nothing there is grouped by periods. */
  lemma CommaSplit(w: string, tail: string)
    requires CommaDigits(w)
    requires forall i :: 0 <= i < |tail| ==> IsDigit(tail[i]) || tail[i] == '.'
    ensures !EuropeanBody(w + tail)
  {
    var body := w + tail;
    var k := IndexOf(body, ',');
    if k < |body| {
      assert k < |w|;
      if k > 3 {
        assert body[..k][k - 4] == w[k - 4];
      }
    }
  }

  /** The cleaned text of signed digits and commas is the signed decimal with the commas gone. */
  lemma CommaCleaned(negative: bool, w: string, point: bool, f: string)
    requires CommaDigits(w)
    requires AllDigits(f)
    ensures var tail := if point then "." + f else "";
      var clean := Sign(negative) + Without(w, IsComma) + tail;
      Without(Sign(negative) + w + tail, IsComma) == clean && RemoveCurrency(clean) == clean
    ensures |Without(w, IsComma)| > 0 && AllDigits(Without(w, IsComma))
  {
    var tail := if point then "." + f else "";
    PointTailChars(point, f);
    USClean(negative, w, tail);
    WithoutFirstOnlyDigits(w, |w|, IsComma);
    assert w == [w[0]] + w[1..];
    WithoutAppend([w[0]], w[1..], IsComma);
    WithoutKeepsAll([w[0]], IsComma);
    DecimalHasNoCurrency(negative, Without(w, IsComma), point, f);
  }

  /** A plain amount with no grouping at all. */
  lemma PlainExample()
    ensures ParseAmount("150000.00") == Some(150000.0)
  {
    var w, f := "150000", "00";
    assert CommaDigits(w);
    WithoutKeepsAll(w, IsComma);
    assert NatOf(w) == 150000 by {
      assert ValueOfFirst(w, 1) == 1;
      assert ValueOfFirst(w, 2) == 15;
      assert ValueOfFirst(w, 3) == 150;
      assert ValueOfFirst(w, 4) == 1500;
      assert ValueOfFirst(w, 5) == 15000;
    }
    assert Fraction(f) == 0.0 by {
      assert FractionFrom(f, 1) == 0.0;
    }
    assert "150000.00" == Sign(false) + w + ("." + f);
    CommaReading(false, w, true, f, 150000.0);
  }

  /** Commas out of place are dropped all the same: "1,2,3" reads as 123. */
  lemma IrregularCommasExample()
    ensures ParseAmount("1,2,3") == Some(123.0)
  {
    var w := "1,2,3";
    assert CommaDigits(w);
    IrregularCommasDigits(w);
    assert "1,2,3" == Sign(false) + w + "";
    CommaReading(false, w, false, [], 123.0);
  }

  lemma IrregularCommasDigits(w: string)
    requires w == "1,2,3"
    ensures NatOf(Without(w, IsComma)) == 123
  {
    assert WithoutFirst(w, 1, IsComma) == "1";
    assert WithoutFirst(w, 2, IsComma) == "1";
    assert WithoutFirst(w, 3, IsComma) == "12";
    assert WithoutFirst(w, 4, IsComma) == "12";
    assert Without(w, IsComma) == "123";
    assert ValueOfFirst("123", 2) == 12;
  }

  // ---------------------------------------------------------------------
  // Worked examples from the program's comments.

  lemma EuropeanExamples()
    ensures ParseAmount("1.234,56") == Some(1234.56)
    ensures ParseAmount("-1.234,56") == Some(-1234.56)
  {
    var p, f := "1.234", "56";
    assert Grouped(p, IsPeriod) && GroupedValue(p) == 1234;
    assert Fraction(f) == 0.56 by {
      assert FractionFrom(f, 1) == 0.6;
    }
    assert "1.234,56" == Sign(false) + p + ("," + f);
    assert "-1.234,56" == Sign(true) + p + ("," + f);
    EuropeanReading(false, p, f, 1234.56);
    EuropeanReading(true, p, f, 1234.56);
  }

  lemma USExamples()
    ensures ParseAmount("846,432.15") == Some(846432.15)
    ensures ParseAmount("-1,200") == Some(-1200.0)
  {
    CommaGroupedFraction("846,432.15");
    CommaGroupedNegative("-1,200");
  }

  lemma CommaGroupedFraction(t: string)
    requires t == "846,432.15"
    ensures ParseAmount(t) == Some(846432.15)
  {
    var p, f := "846,432", "15";
    assert Grouped(p, IsComma);
    assert GroupedValue(p) == 846432 by {
      assert ValueOfFirst(p, 1) == 8;
      assert ValueOfFirst(p, 2) == 84;
      assert ValueOfFirst(p, 3) == 846;
      assert GroupedValueFirst(p, 7) == 846 * 1000 + 432;
    }
    assert Fraction(f) == 0.15 by {
      assert FractionFrom(f, 1) == 0.5;
    }
    assert t == Sign(false) + p + (if true then "." + f else "");
    USReading(false, p, true, f, 846432.15);
  }

  lemma CommaGroupedNegative(t: string)
    requires t == "-1,200"
    ensures ParseAmount(t) == Some(-1200.0)
  {
    var p := "1,200";
    assert Grouped(p, IsComma);
    assert GroupedValue(p) == 1200 by {
      assert ValueOfFirst(p, 1) == 1;
      assert GroupedValueFirst(p, 5) == 1 * 1000 + 200;
    }
    assert Fraction("") == 0.0;
    assert t == Sign(true) + p + (if false then "." + "" else "");
    USReading(true, p, false, "", 1200.0);
  }

  /** A second point after the grouped digits makes the text no number. */
  lemma TwoPointsExample()
    ensures ParseAmount("1.234.567") == None
  {
    TwoPoints("1.234.567");
  }

  lemma TwoPoints(t: string)
    requires t == "1.234.567"
    ensures ParseAmount(t) == None
  {
    TwoPointsText(t);
    TwoPointsFloat(t);
    AmountOfPlain(t);
  }

  lemma TwoPointsText(t: string)
    requires t == "1.234.567"
    ensures Strip(t) == t
    ensures !IsEuropean(t)
    ensures RemoveCurrency(Without(t, IsComma)) == t
  {
    StripNothing(t);
    TwoPointsShape(t);
  }

  lemma TwoPointsShape(t: string)
    requires t == "1.234.567"
    ensures !IsEuropean(t)
    ensures RemoveCurrency(Without(t, IsComma)) == t
  {
    assert Unsigned(t) == t;
    IndexOfIs(t, ',', |t|);
    WithoutKeepsAll(t, IsComma);
    NoCurrencyIn(t);
  }

  lemma TwoPointsFloat(t: string)
    requires t == "1.234.567"
    ensures ParseFloat(t) == None
  {
    StripNothing(t);
    TwoPointsSigned(t);
  }

  lemma TwoPointsSigned(t: string)
    requires t == "1.234.567"
    ensures ParseSigned(t) == None
  {
    IndexOfIs(t, '.', 1);
    assert t[2..][3] == '.';
  }

  /**
   * The separator convention is chosen before the currency glyphs go: a
   * glyph in front of a European amount hides the European shape, so the
   * text takes the US reading and "€1.234,56" becomes 1.23456.
   */
  lemma GlyphBeforeEuropeanExample()
    ensures ParseAmount("\U{20AC}1.234,56") == Some(1.23456)
  {
    GlyphBeforeEuropean("\U{20AC}1.234,56");
  }

  lemma GlyphBeforeEuropean(t: string)
    requires t == "\U{20AC}1.234,56"
    ensures ParseAmount(t) == Some(1.23456)
  {
    var clean := "1.23456";
    GlyphText(t);
    GlyphClean(t, clean);
    GlyphFloat(clean);
    AmountOfPlain(t);
  }

  lemma GlyphText(t: string)
    requires t == "\U{20AC}1.234,56"
    ensures Strip(t) == t && !IsEuropean(t)
  {
    StripNothing(t);
    assert Unsigned(t) == t;
    IndexOfIs(t, ',', 6);
    var q := t[..6];
    assert !IsDigit(q[0]);
    assert !GroupedFirst(q, 2, IsPeriod);
    assert !GroupedFirst(q, 6, IsPeriod);
  }

  lemma GlyphClean(t: string, clean: string)
    requires t == "\U{20AC}1.234,56" && clean == "1.23456"
    ensures RemoveCurrency(Without(t, IsComma)) == clean
  {
    var g, lead, f := "\U{20AC}", "1.234", "56";
    assert t == g + lead + ([','] + f);
    WithoutAppend(g + lead, [','] + f, IsComma);
    WithoutAppend(g, lead, IsComma);
    WithoutAppend([','], f, IsComma);
    WithoutKeepsAll(g, IsComma);
    WithoutKeepsAll(lead, IsComma);
    WithoutKeepsAll(f, IsComma);
    WithoutDropsAll([','], IsComma);
    assert Without(t, IsComma) == g + (lead + f);
    WithoutAppend(g, lead + f, IsCurrency);
    WithoutDropsAll(g, IsCurrency);
    assert lead + f == clean;
    NoCurrencyIn(clean);
  }

  lemma GlyphFloat(clean: string)
    requires clean == "1.23456"
    ensures ParseFloat(clean) == Some(1.23456)
  {
    var f := "23456";
    assert Fraction(f) == 0.23456 by {
      assert FractionFrom(f, 4) == 0.6;
      assert FractionFrom(f, 3) == 0.56;
      assert FractionFrom(f, 2) == 0.456;
      assert FractionFrom(f, 1) == 0.3456;
    }
    assert NatOf("1") == 1;
    assert clean == Sign(false) + "1" + ("." + f);
    ReadPointDecimal(false, "1", f, 1.23456);
  }

  /** Text without a digit is no number. */
  lemma WordExample()
    ensures ParseAmount("abc") == None
  {
    assert !HasDigit("abc");
    DigitlessNone("abc");
  }

  /** Text without a digit gives `None`. */
  lemma DigitlessNone(text: string)
    requires !HasDigit(text)
    ensures ParseAmount(text) == None
  {
  }
}
