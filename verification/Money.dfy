/**
 * Money arithmetic of the expression evaluator: a 32-bit whole part and an
 * unsigned fraction in ten-thousandths, the value being whole + frac/10000.
 * Whole parts wrap at 32 bits and division truncates, as in C.
 */
module Money {
  import opened Ints

  const FRAC: int := 10000
  const MAX_DIVISOR: int := 214748

  datatype Money = Money(whole: int, frac: int)

  datatype Quotient = Quotient(value: Money) | DivideByZero

  /** The amounts a MoneyType can hold in normal form. */
  predicate Normal(m: Money) {
    IsInt32(m.whole) && 0 <= m.frac < FRAC
  }

  /** The amount in ten-thousandths. */
  function Units(m: Money): int {
    m.whole * FRAC + m.frac
  }

  /** The amounts, in ten-thousandths, that have a representation. */
  predicate Representable(u: int) {
    IsInt32(u / FRAC)
  }

  /** A result stored in an unsigned short. */
  function Wrap16(x: int): (r: int)
    ensures 0 <= r < 0x1_0000
  {
    x % 0x1_0000
  }

  /** A product stored in a long long. */
  function Wrap64(x: int): (r: int)
    ensures -0x8000_0000_0000_0000 <= x < 0x8000_0000_0000_0000 ==> r == x
  {
    (x + 0x8000_0000_0000_0000) % 0x1_0000_0000_0000_0000 - 0x8000_0000_0000_0000
  }

  /** C division: truncates toward zero. */
  function Quot(a: int, b: int): int
    requires b != 0
  {
    if a >= 0 then
      if b > 0 then a / b else -(a / -b)
    else
      if b > 0 then -(-a / b) else -a / -b
  }

  /** C remainder: takes the sign of the dividend. */
  function Rem(a: int, b: int): int
    requires b != 0
  {
    a - b * Quot(a, b)
  }

  function MinusMoney(a: Money, b: Money): Money {
    var f := Wrap16(FRAC + a.frac - b.frac);
    if f >= FRAC
    then Money(Wrap32(a.whole - b.whole), f - FRAC)
    else Money(Wrap32(a.whole - b.whole - 1), f)
  }

  function IntMinusMoney(i: int, b: Money): Money {
    if b.frac == 0
    then Money(Wrap32(i - b.whole), 0)
    else Money(Wrap32(i - b.whole - 1), FRAC - b.frac)
  }

  function MoneyMinusInt(a: Money, i: int): Money {
    Money(Wrap32(a.whole - i), a.frac)
  }

  function PlusMoney(a: Money, b: Money): Money {
    var f := Wrap16(a.frac + b.frac);
    if f >= FRAC
    then Money(Wrap32(a.whole + b.whole + 1), f - FRAC)
    else Money(Wrap32(a.whole + b.whole), f)
  }

  function PlusInt(a: Money, i: int): Money {
    Money(Wrap32(a.whole + i), a.frac)
  }

  /** Multiplies in 64 bits, then fixes the truncated quotient into a floor. */
  function TimesInt(a: Money, i: int): Money {
    var mv := Wrap64(Units(a) * i);
    var r := Rem(mv, FRAC);
    if r < 0
    then Money(Wrap32(Quot(mv, FRAC) - 1), r + FRAC)
    else Money(Wrap32(Quot(mv, FRAC)), r)
  }

  /** Turns whole+frac into the representation of -(whole+frac); done before and after dividing. */
  function Negated(m: Money): Money {
    if m.frac != 0
    then Money(Wrap32(-Wrap32(m.whole + 1)), Wrap16(FRAC - m.frac))
    else Money(Wrap32(-m.whole), 0)
  }

  /** The dividend of the fraction's division, computed in 32 bits. */
  function FractionDividend(m: Money, i: int): int
    requires i != 0
  {
    Wrap32(Wrap32(FRAC * Rem(m.whole, i)) + m.frac)
  }

  function DivideInt(a: Money, d: int): Quotient {
    if d == 0 then DivideByZero
    else
      var m := if a.whole < 0 then Negated(a) else a;
      var i := if d < 0 then Wrap32(-d) else d;
      if i == 0 then DivideByZero
      else
        var q := Money(Quot(m.whole, i), Wrap16(Quot(FractionDividend(m, i), i)));
        Quotient(if (a.whole < 0) != (d < 0) then Negated(q) else q)
  }

  // ------------------------------------------------------------------ exactness

  /** Normal forms are the floor representation, and the only one. */
  lemma NormalIsFloor(m: Money)
    requires 0 <= m.frac < FRAC
    ensures m.whole == Units(m) / FRAC && m.frac == Units(m) % FRAC
    ensures Normal(m) <==> Representable(Units(m))
  {
  }

  lemma MinusMoneyExact(a: Money, b: Money)
    requires Normal(a) && Normal(b)
    ensures Normal(MinusMoney(a, b))
    ensures Units(MinusMoney(a, b)) == Units(a) - Units(b) <==> Representable(Units(a) - Units(b))
  {
    var f := FRAC + a.frac - b.frac;
    assert Wrap16(f) == f;
    NormalIsFloor(MinusMoney(a, b));
    if f >= FRAC {
      NormalIsFloor(Money(a.whole - b.whole, f - FRAC));
    } else {
      NormalIsFloor(Money(a.whole - b.whole - 1, f));
    }
  }

  lemma IntMinusMoneyExact(i: int, b: Money)
    requires IsInt32(i) && Normal(b)
    ensures Normal(IntMinusMoney(i, b))
    ensures Units(IntMinusMoney(i, b)) == i * FRAC - Units(b) <==> Representable(i * FRAC - Units(b))
  {
    if b.frac == 0 {
      NormalIsFloor(Money(i - b.whole, 0));
    } else {
      NormalIsFloor(Money(i - b.whole - 1, FRAC - b.frac));
    }
  }

  lemma MoneyMinusIntExact(a: Money, i: int)
    requires Normal(a) && IsInt32(i)
    ensures Normal(MoneyMinusInt(a, i))
    ensures Units(MoneyMinusInt(a, i)) == Units(a) - i * FRAC <==> Representable(Units(a) - i * FRAC)
  {
    NormalIsFloor(Money(a.whole - i, a.frac));
  }

  lemma PlusMoneyExact(a: Money, b: Money)
    requires Normal(a) && Normal(b)
    ensures Normal(PlusMoney(a, b))
    ensures Units(PlusMoney(a, b)) == Units(a) + Units(b) <==> Representable(Units(a) + Units(b))
  {
    var f := a.frac + b.frac;
    assert Wrap16(f) == f;
    if f >= FRAC {
      NormalIsFloor(Money(a.whole + b.whole + 1, f - FRAC));
    } else {
      NormalIsFloor(Money(a.whole + b.whole, f));
    }
  }

  lemma PlusIntExact(a: Money, i: int)
    requires Normal(a) && IsInt32(i)
    ensures Normal(PlusInt(a, i))
    ensures Units(PlusInt(a, i)) == Units(a) + i * FRAC <==> Representable(Units(a) + i * FRAC)
  {
    NormalIsFloor(Money(a.whole + i, a.frac));
  }

  /** The two-step quotient and remainder together are the floor. */
  lemma TruncToFloor(mv: int)
    ensures Rem(mv, FRAC) >= 0 ==> Quot(mv, FRAC) == mv / FRAC && Rem(mv, FRAC) == mv % FRAC
    ensures Rem(mv, FRAC) < 0 ==> Quot(mv, FRAC) - 1 == mv / FRAC && Rem(mv, FRAC) + FRAC == mv % FRAC
  {
  }

  /** The product may wrap at 64 bits, but only when the exact amount has no representation anyway. */
  lemma TimesIntExact(a: Money, i: int)
    requires Normal(a) && IsInt32(i)
    ensures Normal(TimesInt(a, i))
    ensures Units(TimesInt(a, i)) == Units(a) * i <==> Representable(Units(a) * i)
  {
    var exact := Units(a) * i;
    var mv := Wrap64(exact);
    TruncToFloor(mv);
    NormalIsFloor(Money(mv / FRAC, mv % FRAC));
    NormalIsFloor(TimesInt(a, i));
  }

  /** |x| as the machine holds it: only the most negative whole amount has none. */
  lemma NegatedExact(m: Money)
    requires Normal(m) && (m.whole != INT_MIN || m.frac != 0)
    ensures Normal(Negated(m)) && Units(Negated(m)) == -Units(m)
  {
  }

  /** Long division: the whole part's remainder carries into the fraction. */
  lemma LongDivision(w: nat, f: nat, i: nat)
    requires i > 0 && f < FRAC
    ensures 0 <= (FRAC * (w % i) + f) / i < FRAC
    ensures (w * FRAC + f) / i == (w / i) * FRAC + (FRAC * (w % i) + f) / i
  {
    var q, r := w / i, w % i;
    var t := FRAC * r + f;
    assert w * FRAC + f == i * (q * FRAC) + t by {
      assert w == i * q + r;
      assert (i * q) * FRAC == i * (q * FRAC);
    }
    DivideShifted(q * FRAC, t, i);
    assert t < FRAC * i by {
      assert r + 1 <= i;
    }
    QuotientBelow(t, FRAC, i);
  }

  lemma DivideShifted(k: int, t: int, i: int)
    requires i > 0
    ensures (i * k + t) / i == k + t / i
  {
    var q, r := t / i, t % i;
    assert i * k + t == i * (k + q) + r;
    UniqueQuotient(i * k + t, i, k + q, r);
  }

  lemma UniqueQuotient(x: int, i: int, q: int, r: int)
    requires i > 0 && 0 <= r < i && x == i * q + r
    ensures x / i == q
  {
    var d := x / i - q;
    assert i * d == r - x % i;
    SmallMultiple(i, d);
  }

  /** The only multiple of i strictly between -i and i is zero. */
  lemma SmallMultiple(i: int, d: int)
    requires i > 0 && -i < i * d < i
    ensures d == 0
  {
  }

  lemma QuotientBelow(t: int, b: int, i: int)
    requires i > 0 && 0 <= t < b * i
    ensures 0 <= t / i < b
  {
    var q := t / i;
    assert t == i * q + t % i;
    assert 0 < i * (b - q) + i;
    assert i * (b - q) + i == i * (b - q + 1);
    assert i * (b - q) > 0 by {
      assert b * i == i * b;
      assert i * b - i * q == i * (b - q);
    }
  }

  /** The two signs the division is carried out without. */
  function Dividend(a: Money): Money {
    if a.whole < 0 then Negated(a) else a
  }

  function Divisor(d: int): int {
    if d < 0 then Wrap32(-d) else d
  }

  /** The fraction's dividend needs no more than 32 bits. */
  predicate Fits(a: Money, d: int)
    requires d != 0 && d != INT_MIN
  {
    Divisor(d) > 0 && FRAC * (Dividend(a).whole % Divisor(d)) + Dividend(a).frac <= INT_MAX
  }

  /** The quotient that truncates toward zero, in normal form. */
  predicate Truncates(a: Money, d: int)
    requires d != 0
  {
    DivideInt(a, d).Quotient? && Normal(DivideInt(a, d).value) && Units(DivideInt(a, d).value) == Quot(Units(a), d)
  }

  /** When a division comes out right; the two operands whose negation overflows are apart. */
  predicate DividesRight(a: Money, d: int)
    requires IsInt32(d) && d != 0
  {
    if a == Money(INT_MIN, 0) then d == 1 || d == INT_MIN
    else if d == INT_MIN then INT_MIN <= Units(a) <= -INT_MIN
    else Fits(a, d)
  }

  /**
   * Money divided by an integer truncates toward zero, for all amounts and all
   * divisors, exactly under that condition; only division by zero is refused.
   */
  lemma DivideIntTruncates(a: Money, d: int)
    requires Normal(a) && IsInt32(d)
    ensures DivideInt(a, d).DivideByZero? <==> d == 0
    ensures d != 0 ==> (Truncates(a, d) <==> DividesRight(a, d))
  {
    if d == 0 {
    } else if a == Money(INT_MIN, 0) {
      MostNegativeDividend(d);
    } else if d == INT_MIN {
      MostNegativeDivisor(a);
    } else {
      OrdinaryDivision(a, d);
    }
  }

  /** The operands that can be negated. */
  lemma OrdinaryDivision(a: Money, d: int)
    requires Normal(a) && (a.whole != INT_MIN || a.frac != 0)
    requires IsInt32(d) && d != 0 && d != INT_MIN
    ensures DivideInt(a, d).Quotient? && Divisor(d) > 0
    ensures Units(DivideInt(a, d).value) == Quot(Units(a), d) <==> Fits(a, d)
    ensures Fits(a, d) ==> Normal(DivideInt(a, d).value)
  {
    hide Quot, Wrap32, Wrap16, Negated, FractionDividend, Units;
    SignsApart(a, d);
    DivideIntIs(a, d);
    var q := DividePositive(Dividend(a), Divisor(d));
    NegatedTells(q, Units(Dividend(a)) / Divisor(d));
  }

  lemma DivideIntIs(a: Money, d: int)
    requires d != 0 && Divisor(d) != 0
    ensures var m, i := Dividend(a), Divisor(d);
            var q := Money(Quot(m.whole, i), Wrap16(Quot(FractionDividend(m, i), i)));
            DivideInt(a, d) == Quotient(if (a.whole < 0) != (d < 0) then Negated(q) else q)
  {
    hide Quot, Wrap16, Negated, FractionDividend;
  }

  /** Truncating division is division of the magnitudes, with the sign put back. */
  lemma SignsApart(a: Money, d: int)
    requires Normal(a) && (a.whole != INT_MIN || a.frac != 0)
    requires IsInt32(d) && d != 0 && d != INT_MIN
    ensures 0 < Divisor(d) <= INT_MAX && Normal(Dividend(a)) && Dividend(a).whole >= 0
    ensures var n := Units(Dividend(a)) / Divisor(d);
            Quot(Units(a), d) == if (a.whole < 0) != (d < 0) then -n else n
  {
    if a.whole < 0 {
      NegatedExact(a);
    }
  }

  /** The right quotient... */
  predicate Divided(q: Money, n: int) {
    0 <= q.whole <= INT_MAX && 0 <= q.frac < FRAC && Units(q) == n
  }

  /** ...and what an overflow makes of it: too small a fraction, or one that is none. */
  predicate Misdivided(q: Money, n: int) {
    && 0 <= q.whole <= INT_MAX
    && if 0 <= q.frac < FRAC then Units(q) < n else FRAC < q.frac < 0x1_0000 && Units(q) - 0x1_0000 < n < Units(q)
  }

  /** The division proper, of a non-negative amount by a positive integer. */
  lemma DividePositive(m: Money, i: int) returns (q: Money)
    requires Normal(m) && m.whole >= 0 && 0 < i <= INT_MAX
    ensures q == Money(Quot(m.whole, i), Wrap16(Quot(FractionDividend(m, i), i)))
    ensures FRAC * (m.whole % i) + m.frac <= INT_MAX ==> Divided(q, Units(m) / i)
    ensures FRAC * (m.whole % i) + m.frac > INT_MAX ==> Misdivided(q, Units(m) / i)
  {
    var w, f := m.whole, m.frac;
    var t := FRAC * (w % i) + f;
    LongDivision(w, f, i);
    QuotientAtMost(w, i);
    FractionDividendWraps(m, i);
    q := Money(Quot(w, i), Wrap16(Quot(FractionDividend(m, i), i)));
    if t > INT_MAX {
      FractionOverflows(t, i);
    }
  }

  lemma FractionDividendWraps(m: Money, i: int)
    requires Normal(m) && m.whole >= 0 && 0 < i <= INT_MAX
    ensures FractionDividend(m, i) == Wrap32(FRAC * (m.whole % i) + m.frac)
  {
    assert Rem(m.whole, i) == m.whole % i;
    hide Rem;
    WrapTwice(FRAC * (m.whole % i), m.frac);
  }

  lemma WrapTwice(x: int, y: int)
    ensures Wrap32(Wrap32(x) + y) == Wrap32(x + y)
  {
  }

  /** A dividend that wraps gives another quotient: a smaller one, or a negative one. */
  lemma FractionOverflows(t: int, i: int)
    requires INT_MAX < t < FRAC * i && 0 < i <= INT_MAX
    ensures 1 <= t / i < FRAC
    ensures var k := Quot(Wrap32(t), i); -FRAC < k < t / i && (k < 0 ==> 0x1_0000 - FRAC < Wrap16(k) < 0x1_0000) && (k >= 0 ==> Wrap16(k) == k)
  {
    var x := Wrap32(t);
    Wrapped(t);
    QuotientBelow(t, FRAC, i);
    QuotientBelow(t - i, FRAC, i);
    DivideShifted(1, t - i, i);
    hide Wrap32;
    if x >= 0 {
      DivideMonotone(x, t - i, i);
    } else {
      QuotientBelow(-x, FRAC, i);
    }
  }

  lemma Wrapped(t: int)
    requires INT_MAX < t
    ensures INT_MIN <= Wrap32(t) <= INT_MAX && Wrap32(t) <= t - 0x1_0000_0000
  {
  }

  lemma DivideMonotone(x: int, y: int, i: int)
    requires i > 0 && 0 <= x <= y
    ensures 0 <= x / i <= y / i
  {
    var q := y / i;
    assert y < (q + 1) * i by {
      assert y == i * q + y % i && (q + 1) * i == i * q + i;
    }
    QuotientBelow(x, q + 1, i);
  }

  lemma QuotientAtMost(w: nat, i: nat)
    requires i > 0
    ensures 0 <= w / i <= w
  {
    if w == 0 {
      UniqueQuotient(0, i, 0, 0);
    } else {
      assert w < (w + 1) * i by {
        assert (w + 1) * (i - 1) >= 0;
      }
      QuotientBelow(w, w + 1, i);
    }
  }

  /** Negating a quotient: the wrap of whole + 1 and the wrap of the sign cancel, unless the fraction is none. */
  lemma NegatedBack(q: Money)
    requires 0 <= q.whole <= INT_MAX && 0 <= q.frac < 0x1_0000
    ensures q.frac < FRAC ==> Normal(Negated(q)) && Units(Negated(q)) == -Units(q)
    ensures q.frac > FRAC ==> Units(Negated(q)) == 0x1_0000 - Units(q)
  {
  }

  lemma NegatedTells(q: Money, n: int)
    requires Divided(q, n) || Misdivided(q, n)
    ensures Divided(q, n) ==> Normal(q) && Normal(Negated(q)) && Units(Negated(q)) == -n && Units(q) == n
    ensures Misdivided(q, n) ==> Units(Negated(q)) != -n && Units(q) != n
  {
    NegatedBack(q);
    hide Negated;
  }

  /** Every divisor up to 214748 in magnitude is within that condition: ten thousand times a remainder fits. */
  lemma SmallDivisorsTruncate(a: Money, d: int)
    requires Normal(a) && (a.whole != INT_MIN || a.frac != 0)
    requires d != 0 && -MAX_DIVISOR <= d <= MAX_DIVISOR
    ensures Truncates(a, d)
  {
    OrdinaryDivision(a, d);
    SignsApart(a, d);
    assert Divisor(d) <= MAX_DIVISOR;
    hide DivideInt, Dividend, Divisor, Quot, Units;
    RemainderBelow(Dividend(a).whole, Divisor(d));
  }

  lemma RemainderBelow(w: nat, i: nat)
    requires i > 0
    ensures 0 <= w % i < i
  {
  }

  /** The most negative whole amount, whose negation does not fit, is divided right by 1 and by itself. */
  lemma MostNegativeDividend(d: int)
    requires IsInt32(d) && d != 0
    ensures Truncates(Money(INT_MIN, 0), d) <==> d == 1 || d == INT_MIN
  {
    var a, i := Money(INT_MIN, 0), Divisor(d);
    var f := Wrap16(Quot(FractionDividend(a, i), i));
    assert Dividend(a) == a;
    DivideIntIs(a, d);
    if d == INT_MIN {
      assert FractionDividend(a, i) == 0 && Quot(INT_MIN, INT_MIN) == 1;
      ScaledQuotient();
    } else {
      if i == 1 {
        assert FractionDividend(a, 1) == 0;
      }
      QuotientOfMostNegative(d);
      hide Quot, FractionDividend, Wrap16;
      WrongSign(-Quot(INT_MIN, i), f, Quot(Units(a), d), d > 0);
    }
  }

  lemma ScaledQuotient()
    ensures Quot(INT_MIN * FRAC, INT_MIN) == FRAC
  {
    UniqueQuotient(-INT_MIN * FRAC, -INT_MIN, FRAC, 0);
  }

  /** The most negative divisor, whose negation does not fit, divides right up to its own magnitude. */
  lemma MostNegativeDivisor(a: Money)
    requires Normal(a) && a != Money(INT_MIN, 0)
    ensures Truncates(a, INT_MIN) <==> INT_MIN <= Units(a) <= -INT_MIN
  {
    var u := Units(Dividend(a));
    var f := if Wrap32(u) == INT_MIN then 1 else 0;
    ByMostNegativeIs(a);
    TrueQuotient(a);
    WrappedQuotient(u);
    UnitQuotient(f, a.whole >= 0);
    hide Quot, Wrap32, DivideInt, Dividend, Negated;
    assert u <= -INT_MIN <==> INT_MIN <= Units(a) <= -INT_MIN;
  }

  /** What the code computes. */
  lemma ByMostNegativeIs(a: Money)
    requires Normal(a) && a != Money(INT_MIN, 0)
    ensures Units(Dividend(a)) >= 0
    ensures var q := Money(0, if Wrap32(Units(Dividend(a))) == INT_MIN then 1 else 0);
            DivideInt(a, INT_MIN) == Quotient(if a.whole >= 0 then Negated(q) else q)
  {
    DividendNormal(a);
    DivisorOfMostNegative();
    DivideIntIs(a, INT_MIN);
    var m := Dividend(a);
    WholeByMostNegative(m.whole);
    FractionByMostNegative(m);
    hide *;
  }

  lemma DividendNormal(a: Money)
    requires Normal(a) && a != Money(INT_MIN, 0)
    ensures Normal(Dividend(a)) && Dividend(a).whole >= 0 && Units(Dividend(a)) >= 0
  {
    if a.whole < 0 {
      NegatedExact(a);
    }
  }

  lemma DivisorOfMostNegative()
    ensures Divisor(INT_MIN) == INT_MIN && INT_MIN < 0
  {
  }

  lemma FractionByMostNegative(m: Money)
    requires Normal(m) && m.whole >= 0
    ensures INT_MIN != 0 && Wrap16(Quot(FractionDividend(m, INT_MIN), INT_MIN)) == if Wrap32(Units(m)) == INT_MIN then 1 else 0
  {
    WholeByMostNegative(m.whole);
    WrapTwice(FRAC * m.whole, m.frac);
    QuotientByMostNegative(Wrap32(Units(m)));
    hide Quot, Rem, Wrap32;
  }

  lemma WholeByMostNegative(w: int)
    requires 0 <= w <= INT_MAX
    ensures Quot(w, INT_MIN) == 0 && Rem(w, INT_MIN) == w
  {
    UniqueQuotient(w, -INT_MIN, 0, w);
  }

  /** What it should. */
  lemma TrueQuotient(a: Money)
    requires Normal(a) && a != Money(INT_MIN, 0)
    ensures var n := Units(Dividend(a)) / -INT_MIN;
            Quot(Units(a), INT_MIN) == (if a.whole < 0 then n else -n)
    ensures Units(Dividend(a)) == if a.whole < 0 then -Units(a) else Units(a)
  {
    if a.whole < 0 {
      NegatedExact(a);
    }
  }

  lemma QuotientByMostNegative(x: int)
    requires IsInt32(x)
    ensures Quot(x, INT_MIN) == if x == INT_MIN then 1 else 0
  {
  }

  /** The true quotient, and what is left of it when the dividend wraps. */
  lemma WrappedQuotient(u: nat)
    ensures (if Wrap32(u) == INT_MIN then 1 else 0) == u / -INT_MIN <==> u <= -INT_MIN
  {
  }

  lemma UnitQuotient(f: int, neg: bool)
    requires 0 <= f <= 1
    ensures var v := if neg then Negated(Money(0, f)) else Money(0, f);
            Normal(v) && Units(v) == if neg then -f else f
  {
  }

  /** The whole part's quotient has the amount's sign, whatever the divisor's. */
  lemma QuotientOfMostNegative(d: int)
    requires IsInt32(d) && d != 0 && d != INT_MIN
    ensures var h, n := -Quot(INT_MIN, Divisor(d)), Quot(INT_MIN * FRAC, d);
            && 1 <= h <= -INT_MIN && (h == -INT_MIN <==> Divisor(d) == 1)
            && (if d > 0 then n < 0 else n > 0)
            && (d == 1 ==> n == INT_MIN * FRAC)
  {
    var i := Divisor(d);
    DivideMonotone(i, -INT_MIN, i);
    DivideMonotone(i, -INT_MIN * FRAC, i);
    UniqueQuotient(i, i, 1, 0);
    if i > 1 {
      QuotientBelow(-INT_MIN, -INT_MIN, i);
    }
  }

  lemma WrongSign(h: int, f: int, n: int, neg: bool)
    requires 1 <= h <= -INT_MIN && 0 <= f < 0x1_0000
    requires if neg then n < 0 && (h == -INT_MIN ==> f == 0 && n == INT_MIN * FRAC) else n > 0
    ensures var q := Money(-h, f);
            var v := if neg then Negated(q) else q;
            Normal(v) && Units(v) == n <==> neg && h == -INT_MIN
  {
  }

  /** One past 214748 there is an amount that is divided wrong. */
  lemma DivisorBoundIsSharp()
    ensures !Fits(Money(MAX_DIVISOR, 9999), MAX_DIVISOR + 1)
    ensures DivideInt(Money(MAX_DIVISOR, 9999), MAX_DIVISOR + 1) != Quotient(Money(0, 9999))
    ensures Quot(Units(Money(MAX_DIVISOR, 9999)), MAX_DIVISOR + 1) == 9999
  {
    assert Wrap32(FRAC * MAX_DIVISOR + 9999) == FRAC * MAX_DIVISOR + 9999 - 0x1_0000_0000;
  }
}
