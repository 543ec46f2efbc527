/**
 Money as text (scripts/aggregate_frontier_evidence.py, _compact_decimal): a decimal is rounded half-even
 to seven places, written out in full and stripped of its trailing zeros.
 */
module CompactDecimal {
  import opened Outcomes

  /** A finite decimal: (-1)^negative * coefficient * 10^exponent. */
  datatype Dec = Dec(negative: bool, coefficient: nat, exponent: int)

  function Size(v: Dec): real {
    if v.exponent >= 0 then (v.coefficient * Pow10(v.exponent)) as real
    else v.coefficient as real / Pow10(-v.exponent) as real
  }

  function Value(v: Dec): real {
    if v.negative then -Size(v) else Size(v)
  }

  /** What fixes the value: its sign, its whole coefficient, and a tenfold step for every exponent. */
  lemma ValueMeans(negative: bool, coefficient: nat, exponent: int)
    ensures Value(Dec(negative, coefficient, 0)) == if negative then -(coefficient as real) else coefficient as real
    ensures Value(Dec(negative, coefficient, exponent + 1)) == 10.0 * Value(Dec(negative, coefficient, exponent))
  {
    if exponent >= 0 {
      var p := Pow10(exponent);
      assert coefficient * (10 * p) == 10 * (coefficient * p);
    } else {
      var p := Pow10(-exponent - 1);
      TenthOf(coefficient as real, p as real, (10 * p) as real);
    }
  }

  lemma TenthOf(c: real, p: real, q: real)
    requires p > 0.0 && q == 10.0 * p
    ensures c / p == 10.0 * (c / q)
  {
    var x := c / q;
    assert x * q == c;
    assert 10.0 * x * p == c;
  }

  const PLACES := 7
  /** The digits the default decimal context can hold. */
  const PRECISION := 28

  function Pow10(n: nat): (p: nat)
    ensures p > 0
  {
    if n == 0 then 1 else 10 * Pow10(n - 1)
  }

  function RoundHalfEven(n: nat, d: nat): nat
    requires d > 0
  {
    var q, r := n / d, n % d;
    if 2 * r < d || (2 * r == d && q % 2 == 0) then q else q + 1
  }

  /** q is an integer nearest to n/d, and the even one of two that are equally near. */
  ghost predicate NearestEven(n: nat, d: nat, q: int) {
    && -(d as int) <= 2 * (q * d - n) <= d
    && (2 * (q * d - n) == d || 2 * (q * d - n) == -(d as int) ==> q % 2 == 0)
  }

  lemma RoundingIsNearestEven(n: nat, d: nat)
    requires d > 0
    ensures NearestEven(n, d, RoundHalfEven(n, d))
    ensures forall q :: NearestEven(n, d, q) ==> q == RoundHalfEven(n, d)
  {
    var q, r := n / d, n % d;
    RoundedIsNearest(n, d, q, r, q * d);
    forall p | NearestEven(n, d, p) ensures p == RoundHalfEven(n, d) {
      NearOnly(n, d, q, r, p);
    }
  }

  lemma RoundedIsNearest(n: nat, d: nat, q: nat, r: nat, m: nat)
    requires d > 0 && q == n / d && r == n % d && m == q * d
    ensures NearestEven(n, d, RoundHalfEven(n, d))
  {
    assert n == m + r;
    assert (q + 1) * d == m + d;
  }

  /** Only the two neighbours of n/d can be nearest to it. */
  lemma NearOnly(n: nat, d: nat, q: int, r: nat, p: int)
    requires d > 0 && n == q * d + r && r < d && NearestEven(n, d, p)
    ensures p == q || p == q + 1
    ensures p == q ==> 2 * r <= d && (2 * r == d ==> q % 2 == 0)
    ensures p == q + 1 ==> 2 * r >= d && (2 * r == d ==> (q + 1) % 2 == 0)
  {
    var k := p - q;
    assert p * d - n == k * d - r;
    Multiples(k, d);
  }

  lemma Multiples(k: int, d: int)
    requires d > 0
    ensures k >= 2 ==> k * d >= 2 * d
    ensures k <= -1 ==> k * d <= -d
  {
  }

  /** The value in units of the seventh place, rounded; `quantize` signals when that needs too many digits. */
  function Quantize(v: Dec): Option<nat> {
    var shift := v.exponent + PLACES;
    var q := if shift >= 0 then v.coefficient * Pow10(shift) else RoundHalfEven(v.coefficient, Pow10(-shift));
    if q < Pow10(PRECISION) then Some(q) else None
  }

  /** Amounts with seven places already are kept as they are, up to 28 digits; more raise. */
  lemma QuantizeFits(negative: bool, coefficient: nat)
    ensures Quantize(Dec(negative, coefficient, -7))
         == if coefficient <= 9_999_999_999_999_999_999_999_999_999 then Some(coefficient) else None
  {
    assert Pow10(0) == 1;
    TenTo28();
  }

  lemma TenTo28()
    ensures Pow10(28) == 10_000_000_000_000_000_000_000_000_000
  {
    assert Pow10(7) == 10_000_000;
    assert Pow10(14) == 100_000_000_000_000;
    assert Pow10(21) == 1_000_000_000_000_000_000_000;
  }

  // ---- digits ----

  function DigitChar(d: nat): char
    requires d < 10
  {
    "0123456789"[d]
  }

  predicate IsDigit(c: char) {
    '0' <= c <= '9'
  }

  function DigitValue(c: char): nat
    requires IsDigit(c)
  {
    c as int - '0' as int
  }

  predicate AllDigits(s: string) {
    forall i :: 0 <= i < |s| ==> IsDigit(s[i])
  }

  /** The number a string of digits writes. */
  function Number(s: string): nat
    requires AllDigits(s)
  {
    if s == "" then 0 else 10 * Number(s[..|s| - 1]) + DigitValue(s[|s| - 1])
  }

  function Digits(n: nat): (s: string)
    ensures |s| > 0 && AllDigits(s)
    ensures Number(s) == n
  {
    if n < 10 then [DigitChar(n)]
    else
      var front, last := Digits(n / 10), [DigitChar(n % 10)];
      assert (front + last)[..|front|] == front;
      front + last
  }

  /** The last w digits of n, padded with zeros. */
  function Padded(n: nat, w: nat): (s: string)
    requires n < Pow10(w)
    ensures |s| == w && AllDigits(s)
    ensures Number(s) == n
    decreases w
  {
    if w == 0 then "" else
      var front, last := Padded(n / 10, w - 1), [DigitChar(n % 10)];
      assert (front + last)[..|front|] == front;
      front + last
  }

  lemma {:induction false} NumberConcat(a: string, b: string)
    requires AllDigits(a) && AllDigits(b)
    ensures AllDigits(a + b) && Number(a + b) == Number(a) * Pow10(|b|) + Number(b)
  {
    if b == "" {
      assert a + b == a;
    } else {
      var front := b[..|b| - 1];
      NumberConcat(a, front);
      assert (a + b)[..|a + b| - 1] == a + front;
      Tenfold(Number(a), Pow10(|front|), Number(front), DigitValue(b[|b| - 1]));
    }
  }

  lemma Tenfold(x: nat, p: nat, y: nat, d: nat)
    ensures 10 * (x * p + y) + d == x * (10 * p) + (10 * y + d)
  {
  }

  // ---- stripping ----

  /** `str.rstrip(c)`. */
  function RStrip(s: string, c: char): (r: string)
    ensures r <= s
    ensures r == "" || r[|r| - 1] != c
    ensures forall i :: |r| <= i < |s| ==> s[i] == c
  {
    if s != "" && s[|s| - 1] == c then RStrip(s[..|s| - 1], c) else s
  }

  /** Stripping stops at the first other character from the right. */
  lemma {:induction false} RStripBehind(a: string, b: string, c: char)
    requires a == "" || a[|a| - 1] != c
    ensures RStrip(a + b, c) == a + RStrip(b, c)
  {
    if b == "" {
      assert a + b == a;
    } else if b[|b| - 1] == c {
      assert (a + b)[..|a + b| - 1] == a + b[..|b| - 1];
      RStripBehind(a, b[..|b| - 1], c);
    }
  }

  /** Dropping zeros from the right divides the number by as many tens. */
  lemma {:induction false} StrippedNumber(s: string)
    requires AllDigits(s)
    ensures AllDigits(RStrip(s, '0'))
    ensures Number(RStrip(s, '0')) * Pow10(|s| - |RStrip(s, '0')|) == Number(s)
  {
    if s != "" && s[|s| - 1] == '0' {
      var front := s[..|s| - 1];
      StrippedNumber(front);
      var x, p := Number(RStrip(front, '0')), Pow10(|front| - |RStrip(front, '0')|);
      Tenfold(x, p, 0, 0);
    }
  }

  function Sign(negative: bool): string {
    if negative then "-" else ""
  }

  /** `format(value, "f")` of a value with seven places. */
  function Rendered(negative: bool, q: nat): string {
    SplitBound(q);
    Sign(negative) + Digits(q / Pow10(PLACES)) + "." + Padded(q % Pow10(PLACES), PLACES)
  }

  lemma SplitBound(q: nat)
    ensures q == (q / Pow10(PLACES)) * Pow10(PLACES) + q % Pow10(PLACES)
    ensures q % Pow10(PLACES) < Pow10(PLACES)
  {
  }

  /** `rendered.rstrip("0").rstrip(".") or "0"`. */
  function Trimmed(rendered: string): string {
    var s := RStrip(RStrip(rendered, '0'), '.');
    if s == "" then "0" else s
  }

  function Compact(v: Dec): Option<string> {
    match Quantize(v)
    case None => None
    case Some(q) => Some(Trimmed(Rendered(v.negative, q)))
  }

  /** The decimals that survive, and the text they make. */
  function Fraction(q: nat): (f: string)
    ensures |f| <= PLACES && AllDigits(f)
  {
    SplitBound(q);
    StrippedNumber(Padded(q % Pow10(PLACES), PLACES));
    RStrip(Padded(q % Pow10(PLACES), PLACES), '0')
  }

  function Plain(negative: bool, q: nat): string {
    Sign(negative) + Digits(q / Pow10(PLACES)) + if Fraction(q) == "" then "" else "." + Fraction(q)
  }

  /** Trimming drops only decimals: the integer digits stay whole and the fallback "0" is never needed. */
  lemma TrimKeepsInteger(negative: bool, q: nat)
    ensures Trimmed(Rendered(negative, q)) == Plain(negative, q)
  {
    hide Pow10, Digits, Padded;
    SplitBound(q);
    var head, tail := Sign(negative) + Digits(q / Pow10(PLACES)), Padded(q % Pow10(PLACES), PLACES);
    assert head[|head| - 1] == Digits(q / Pow10(PLACES))[|Digits(q / Pow10(PLACES))| - 1];
    RStripBehind(head + ".", tail, '0');
    assert Rendered(negative, q) == head + "." + tail;
    var f := Fraction(q);
    if f == "" {
      RStripBehind(head, ".", '.');
      DotStrips();
      assert head + "." + f == head + ".";
      assert head + "" == head;
    } else {
      var all := head + "." + f;
      assert all[|all| - 1] == f[|f| - 1];
      assert RStrip(all, '.') == all;
      assert head + ("." + f) == all;
    }
  }

  lemma DotStrips()
    ensures RStrip(".", '.') == ""
  {
  }

  // ---- reading the text back ----

  function DotIndex(s: string): (i: nat)
    ensures i <= |s| && '.' !in s[..i] && (i < |s| ==> s[i] == '.')
  {
    if s == "" || s[0] == '.' then 0 else
      var i := 1 + DotIndex(s[1..]);
      assert s[..i] == [s[0]] + s[1..][..i - 1];
      i
  }

  /** `Decimal(text)` for text in plain notation: an optional minus, digits, and optionally a point and more digits. */
  function Parse(s: string): Option<Dec> {
    if s != "" && s[0] == '-' then ParseDigits(true, s[1..]) else ParseDigits(false, s)
  }

  function ParseDigits(negative: bool, body: string): Option<Dec> {
    var dot := DotIndex(body);
    var fraction := if dot < |body| then body[dot + 1..] else "";
    var digits := body[..dot] + fraction;
    if digits != "" && AllDigits(digits) then Some(Dec(negative, Number(digits), -|fraction|)) else None
  }

  lemma {:induction false} DotFound(a: string, b: string)
    requires AllDigits(a)
    ensures DotIndex(a + "." + b) == |a|
    ensures DotIndex(a) == |a|
  {
    if a != "" {
      DotFound(a[1..], b);
      assert (a + "." + b)[1..] == a[1..] + "." + b;
    }
  }

  /** Digits with decimals, a point between them when there are any. */
  function WithPoint(d: string, f: string): string {
    d + if f == "" then "" else "." + f
  }

  lemma DigitsTogether(d: string, f: string)
    requires AllDigits(d) && AllDigits(f)
    ensures AllDigits(d + f)
  {
  }

  lemma ParseWithPoint(negative: bool, d: string, f: string)
    requires d != "" && AllDigits(d) && AllDigits(f)
    ensures AllDigits(d + f) && ParseDigits(negative, WithPoint(d, f)) == Some(Dec(negative, Number(d + f), -|f|))
  {
    hide Number, DotIndex, AllDigits;
    DigitsTogether(d, f);
    DotFound(d, f);
    var body := WithPoint(d, f);
    if f == "" {
      assert body == d && d + f == d;
      assert d[..|d|] + "" == d;
    } else {
      assert body == d + "." + f;
      assert body[..|d|] == d && body[|d| + 1..] == f;
    }
  }

  lemma ParseSigned(negative: bool, body: string)
    requires body != "" && body[0] != '-'
    ensures Parse(Sign(negative) + body) == ParseDigits(negative, body)
  {
    hide ParseDigits;
    if negative {
      assert ("-" + body)[1..] == body;
    } else {
      assert "" + body == body;
    }
  }

  /** Parsing the text gives back the sign, the digits and the number of decimals written. */
  lemma ParsePlain(negative: bool, q: nat)
    ensures var d, f := Digits(q / Pow10(PLACES)), Fraction(q);
            AllDigits(d + f) && Parse(Plain(negative, q)) == Some(Dec(negative, Number(d + f), -|f|))
  {
    hide Pow10, Digits, Fraction, Number, Parse, ParseDigits;
    var d, f := Digits(q / Pow10(PLACES)), Fraction(q);
    ParseWithPoint(negative, d, f);
    assert WithPoint(d, f)[0] == d[0];
    ParseSigned(negative, WithPoint(d, f));
    assert Plain(negative, q) == Sign(negative) + WithPoint(d, f);
  }

  lemma PlainValue(q: nat)
    ensures var d, f := Digits(q / Pow10(PLACES)), Fraction(q);
            AllDigits(d + f) && Number(d + f) * Pow10(PLACES - |f|) == q
  {
    hide Digits, Pow10, Number, RStrip;
    SplitBound(q);
    var i, r := q / Pow10(PLACES), q % Pow10(PLACES);
    var d, f := Digits(i), Fraction(q);
    StrippedNumber(Padded(r, PLACES));
    NumberConcat(d, f);
    PowAdd(|f|, PLACES - |f|);
    Regroup(i, Pow10(|f|), Number(f), Pow10(PLACES - |f|));
  }

  lemma Regroup(i: nat, a: nat, f: nat, b: nat)
    ensures (i * a + f) * b == i * (a * b) + f * b
  {
  }

  lemma {:induction false} PowAdd(a: nat, b: nat)
    ensures Pow10(a) * Pow10(b) == Pow10(a + b)
  {
    if a > 0 {
      PowAdd(a - 1, b);
      Associate(10, Pow10(a - 1), Pow10(b));
    }
  }

  lemma Associate(x: nat, y: nat, z: nat)
    ensures (x * y) * z == x * (y * z)
  {
  }

  /** The text parses to a decimal of the same sign whose value is exactly the rounded one. */
  lemma RoundTrip(v: Dec)
    requires Quantize(v).Some?
    ensures Compact(v).Some? && Parse(Compact(v).value).Some?
    ensures var p := Parse(Compact(v).value).value;
            && p.negative == v.negative && -PLACES <= p.exponent <= 0
            && p.coefficient * Pow10(PLACES + p.exponent) == Quantize(v).value
            && Quantize(p) == Quantize(v)
  {
    hide Digits, Pow10, Number, Fraction, Parse, Plain, Trimmed, Rendered, RoundHalfEven;
    var q := Quantize(v).value;
    TrimKeepsInteger(v.negative, q);
    ParsePlain(v.negative, q);
    PlainValue(q);
  }

  /** In units of the seventh place a decimal with at most seven places is a whole number. */
  lemma SizeWhole(v: Dec)
    requires v.exponent + PLACES >= 0
    ensures Size(v) * Pow10(PLACES) as real == (v.coefficient * Pow10(v.exponent + PLACES)) as real
  {
    hide Pow10;
    var k, e := Pow10(PLACES), v.exponent;
    if e >= 0 {
      PowAdd(e, PLACES);
      Associate(v.coefficient, Pow10(e), k);
    } else {
      PowAdd(-e, e + PLACES);
      CancelPower(v.coefficient, Pow10(-e), Pow10(e + PLACES));
    }
  }

  lemma CancelPower(c: nat, a: nat, b: nat)
    requires a > 0
    ensures c as real / a as real * (a * b) as real == (c * b) as real
  {
    var q, ar, br := c as real / a as real, a as real, b as real;
    assert q * ar == c as real;
    assert (a * b) as real == ar * br;
    assert q * (ar * br) == (q * ar) * br;
    assert (c * b) as real == c as real * br;
  }

  /** With more places it is a fraction with the power of ten left over as denominator. */
  lemma SizeFraction(v: Dec)
    requires v.exponent + PLACES < 0
    ensures Size(v) * Pow10(PLACES) as real * Pow10(-(v.exponent + PLACES)) as real == v.coefficient as real
  {
    hide Pow10;
    var k, d := Pow10(PLACES), Pow10(-(v.exponent + PLACES));
    PowAdd(PLACES, -(v.exponent + PLACES));
    FractionBack(v.coefficient as real, k as real, d as real, Pow10(-v.exponent) as real);
  }

  lemma FractionBack(c: real, k: real, d: real, all: real)
    requires all == k * d && all > 0.0
    ensures c / all * k * d == c
  {
    var q := c / all;
    assert q * all == c;
    assert q * k * d == q * (k * d);
  }

  lemma NearInReals(n: nat, d: nat, q: nat, x: real)
    requires d > 0 && NearestEven(n, d, q) && x * d as real == n as real
    ensures -1.0 <= 2.0 * (q as real - x) <= 1.0
    ensures 2.0 * (q as real - x) == 1.0 || 2.0 * (q as real - x) == -1.0 ==> q % 2 == 0
  {
    var gap, dr := 2.0 * (q as real - x), d as real;
    assert gap * dr == (2 * (q * d - n)) as real by {
      assert (q * d) as real == q as real * dr;
      assert gap * dr == 2.0 * (q as real * dr - x * dr);
    }
    RatioBounds(gap, dr, (2 * (q * d - n)) as real);
  }

  lemma RatioBounds(gap: real, d: real, p: real)
    requires d > 0.0 && gap * d == p
    ensures -d <= p <= d ==> -1.0 <= gap <= 1.0
    ensures gap == 1.0 ==> p == d
    ensures gap == -1.0 ==> p == -d
  {
    if gap > 1.0 {
      assert (gap - 1.0) * d > 0.0;
    }
    if gap < -1.0 {
      assert (-1.0 - gap) * d > 0.0;
    }
  }

  /** What quantizing does to a size: half a unit at most, and a tie goes to the even unit. */
  lemma QuantizeIsNear(v: Dec)
    requires Quantize(v).Some?
    ensures var gap := 2.0 * (Quantize(v).value as real - Size(v) * Pow10(PLACES) as real);
            -1.0 <= gap <= 1.0 && (gap == 1.0 || gap == -1.0 ==> Quantize(v).value % 2 == 0)
  {
    hide Pow10, Size, RoundHalfEven, NearestEven;
    var shift := v.exponent + PLACES;
    if shift >= 0 {
      SizeWhole(v);
    } else {
      SizeFraction(v);
      RoundingIsNearestEven(v.coefficient, Pow10(-shift));
      NearInReals(v.coefficient, Pow10(-shift), Quantize(v).value, Size(v) * Pow10(PLACES) as real);
    }
  }

  /**
   The text's value differs from the amount by at most half a unit of the seventh place, and by exactly half a unit
   only when the unit it is rounded to is even.
   */
  lemma RoundTripValue(v: Dec)
    requires Quantize(v).Some?
    ensures Compact(v).Some? && Parse(Compact(v).value).Some?
    ensures var p := Parse(Compact(v).value).value;
            var gap := 2.0 * ((Value(p) - Value(v)) * Pow10(PLACES) as real);
            && -1.0 <= gap <= 1.0
            && (gap == 1.0 || gap == -1.0 ==> Quantize(v).value % 2 == 0)
            && Size(p) * Pow10(PLACES) as real == Quantize(v).value as real
  {
    hide Quantize, Compact, Parse, Pow10, Size;
    RoundTrip(v);
    QuantizeIsNear(v);
    var p := Parse(Compact(v).value).value;
    SizeWhole(p);
    Spread(Size(p), Size(v), Pow10(PLACES) as real);
  }

  lemma Spread(a: real, b: real, k: real)
    ensures (a - b) * k == a * k - b * k
    ensures (-a - -b) * k == b * k - a * k
  {
  }

  lemma SameRounding(a: Dec, b: Dec)
    requires a.negative == b.negative && Quantize(a) == Quantize(b)
    ensures Compact(a) == Compact(b)
  {
    hide Quantize, Trimmed, Rendered;
  }

  /** Compacting is idempotent. */
  lemma Idempotent(v: Dec)
    requires Quantize(v).Some?
    ensures Compact(v).Some? && Parse(Compact(v).value).Some?
    ensures Compact(Parse(Compact(v).value).value) == Compact(v)
  {
    hide *;
    RoundTrip(v);
    SameRounding(Parse(Compact(v).value).value, v);
  }

  /**
   Two texts are equal exactly when sign and rounded value are; for amounts that are not negative, when the
   values are.
   */
  lemma TextEqualsValue(a: Dec, b: Dec)
    requires Quantize(a).Some? && Quantize(b).Some?
    ensures Compact(a) == Compact(b) <==> a.negative == b.negative && Quantize(a) == Quantize(b)
    ensures !a.negative && !b.negative ==> (Compact(a) == Compact(b) <==> Quantize(a) == Quantize(b))
  {
    hide Quantize, Parse, Trimmed, Rendered, Pow10;
    RoundTrip(a);
    RoundTrip(b);
  }

  /** No zero at the end of the decimals, no bare point, and no spare zero in front. */
  predicate Tidy(s: string) {
    && s != ""
    && ('.' in s ==> s[|s| - 1] != '0' && s[|s| - 1] != '.')
    && (|s| > 1 && s[0] == '0' ==> s[1] == '.')
    && (|s| > 2 && s[0] == '-' && s[1] == '0' ==> s[2] == '.')
  }

  lemma {:induction false} NoLeadingZero(n: nat)
    ensures |Digits(n)| > 1 ==> Digits(n)[0] != '0'
  {
    if n >= 10 {
      NoLeadingZero(n / 10);
    }
  }

  lemma PlainTidy(negative: bool, q: nat)
    ensures Tidy(Plain(negative, q))
  {
    hide Pow10, Padded, Number;
    var d, f := Digits(q / Pow10(PLACES)), Fraction(q);
    NoLeadingZero(q / Pow10(PLACES));
    assert f == "" || f[|f| - 1] != '0';
    assert '.' !in d;
    if f == "" {
      assert Plain(negative, q) == Sign(negative) + d;
    } else {
      assert Plain(negative, q) == Sign(negative) + d + "." + f;
    }
  }

  /** The text ends in no zero decimal and no bare point, and starts with no spare zero. */
  lemma CompactIsTidy(v: Dec)
    requires Quantize(v).Some?
    ensures Compact(v).Some? && Compact(v).value != ""
    ensures var s := Compact(v).value;
            && ('.' in s ==> s[|s| - 1] != '0' && s[|s| - 1] != '.')
            && (|s| > 1 && s[0] == '0' ==> s[1] == '.')
            && (|s| > 2 && s[0] == '-' && s[1] == '0' ==> s[2] == '.')
  {
    hide Quantize, Plain, Trimmed, Rendered;
    TrimKeepsInteger(v.negative, Quantize(v).value);
    PlainTidy(v.negative, Quantize(v).value);
  }

  /** "0" is written for exactly the non-negative amounts that round to nothing; a negative one gives "-0". */
  lemma ZeroText(v: Dec)
    requires Quantize(v).Some?
    ensures Compact(v) == Some("0") <==> !v.negative && Quantize(v) == Some(0)
    ensures v.negative && Quantize(v) == Some(0) ==> Compact(v) == Some("-0")
  {
    hide Quantize, Parse, Trimmed, Rendered, Pow10;
    var zero := Dec(false, 0, 0);
    ZeroQuantizes();
    PlainZero(false);
    PlainZero(v.negative);
    TrimKeepsInteger(false, 0);
    TrimKeepsInteger(v.negative, 0);
    TextEqualsValue(v, zero);
    assert "-" + "0" == "-0";
  }

  lemma ZeroQuantizes()
    ensures Quantize(Dec(false, 0, 0)) == Some(0)
  {
    hide Pow10;
    assert 0 * Pow10(PLACES) == 0;
  }

  lemma PlainZero(negative: bool)
    ensures Plain(negative, 0) == Sign(negative) + "0"
  {
    StrippedNumber(Padded(0, PLACES));
    SplitBound(0);
    assert 0 % Pow10(PLACES) == 0 && 0 / Pow10(PLACES) == 0;
    StripZeros(PLACES);
    assert Digits(0) == "0";
    assert Fraction(0) == "";
  }

  lemma {:induction false} StripZeros(w: nat)
    ensures 0 < Pow10(w) && RStrip(Padded(0, w), '0') == ""
  {
    if w > 0 {
      StripZeros(w - 1);
      var front := Padded(0, w - 1);
      assert Padded(0, w) == front + "0";
      assert (front + "0")[..|front|] == front;
    }
  }
}
