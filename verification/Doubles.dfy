/** Floating-point numbers as far as the rates need them: divided, compared, and made whole numbers. */
module Doubles {
  import opened Wrappers

  datatype Double = Number(value: real) | Infinite(negative: bool) | NotANumber

  // How results are made representable; which numbers are is left open.
  ghost predicate IsRounding(r: real -> real) {
    && r(0.0) == 0.0 && r(1.0) == 1.0
    && (forall x :: r(-x) == -r(x))
    && (forall x, y :: x <= y ==> r(x) <= r(y))
  }

  type Rounding = r: real -> real | IsRounding(r) witness (x: real) => x

  lemma WholeStaysPositive(n: int, round: Rounding)
    ensures n > 0 ==> round(n as real) >= 1.0
    ensures n < 0 ==> round(n as real) <= -1.0
    ensures n == 0 ==> round(n as real) == 0.0
  {
    if n > 0 {
      assert round(1.0) <= round(n as real);
    } else if n < 0 {
      assert round(-1.0) == -round(1.0);
      assert round(n as real) <= round(-1.0);
    }
  }

  // x / n, n being a whole number made a floating-point one.
  function DividedBy(x: Double, n: int, round: Rounding): Double {
    WholeStaysPositive(n, round);
    match x
    case NotANumber => NotANumber
    case Infinite(negative) => Infinite(if n < 0 then !negative else negative)
    case Number(v) =>
      if n != 0 then Number(round(v / round(n as real)))
      else if v == 0.0 then NotANumber
      else Infinite(v < 0.0)
  }

  // x <= 0 || x >= 1, which what is not a number does not meet.
  predicate OutsideUnit(x: Double) {
    match x
    case NotANumber => false
    case Infinite(_) => true
    case Number(v) => v <= 0.0 || v >= 1.0
  }

  // n / x as a whole number, if there is one of 64 bits.
  function Quotient(n: nat, x: Double, round: Rounding): (r: Option<nat>)
    requires !OutsideUnit(x)
    ensures x.NotANumber? ==> r == None
    ensures r.Some? ==> r.value < LIMIT && (r.value > 0 <==> n > 0)
  {
    if x.NotANumber? then None
    else
      WholeStaysPositive(n, round);
      var q := round(n as real) / x.value;
      QuotientIsPositive(n, x.value, round);
      if round(q) >= LIMIT as real then None else Some(round(q).Floor)
  }

  // Nothing is rounded.
  ghost predicate IsExact(round: Rounding) {
    forall x :: round(x) == x
  }

  // range is how often the rate goes into m, as a whole number: after the roundings, and exactly if
  // nothing is rounded.
  ghost predicate GoesInto(range: nat, m: int, rate: real, round: Rounding)
    requires rate > 0.0
  {
    && range as real <= round(round(m as real) / rate) < range as real + 1.0
    && (IsExact(round) ==> range as real * rate <= m as real < (range as real + 1.0) * rate)
  }

  /** The quotient is the whole part of the rounded one; there is none where that takes more than 64 bits. */
  lemma QuotientIs(n: nat, v: real, round: Rounding)
    requires 0.0 < v < 1.0
    ensures var q, r := round(round(n as real) / v), Quotient(n, Number(v), round);
            if q >= 0x8000_0000_0000_0000 as real then r.None? else r.Some? && GoesInto(r.value, n, v, round)
  {
    QuotientIsPositive(n, v, round);
    var q, r := round(round(n as real) / v), Quotient(n, Number(v), round);
    if r.Some? {
      GoesIntoIs(r.value, n, v, round, q);
    }
  }

  lemma GoesIntoIs(range: nat, n: int, v: real, round: Rounding, q: real)
    requires 0.0 < v && q == round(round(n as real) / v) && range == q.Floor
    ensures GoesInto(range, n, v, round)
  {
    if IsExact(round) {
      assert q == n as real / v;
      ExactQuotient(n as real, v, range as real);
    }
  }

  lemma ExactQuotient(n: real, v: real, r: real)
    requires 0.0 < v && r <= n / v < r + 1.0
    ensures r * v <= n < (r + 1.0) * v
  {
    var q := n / v;
    TimesPositive(r, q, v);
    TimesMore(q, r + 1.0, v);
    assert q * v == n;
  }

  lemma TimesPositive(a: real, b: real, v: real)
    requires a <= b && 0.0 < v
    ensures a * v <= b * v
  {
  }

  lemma TimesMore(a: real, b: real, v: real)
    requires a < b && 0.0 < v
    ensures a * v < b * v
  {
  }

  lemma QuotientGrows(m: real, v: real)
    requires 0.0 < v < 1.0 <= m
    ensures m / v >= 1.0
  {
    var q := m / v;
    assert q * v == m;
    assert (1.0 - q) * v == v - m;
  }

  lemma QuotientIsPositive(n: nat, v: real, round: Rounding)
    requires 0.0 < v < 1.0
    ensures n == 0 ==> round(round(n as real) / v) == 0.0
    ensures n > 0 ==> round(round(n as real) / v) >= 1.0
  {
    var m := round(n as real);
    WholeStaysPositive(n, round);
    if n > 0 {
      QuotientGrows(m, v);
      assert round(1.0) <= round(m / v);
    }
  }
}
