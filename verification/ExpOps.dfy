/**
 * What the operators of expressions compute, in terms of the exact amounts of
 * their operands: comparisons, sums, differences, products and quotients of
 * integers and money, negation, tests for NULL, and AND and OR.
 */
module ExpOps {
  import opened Options
  import opened Ints
  import opened Money
  import opened ExpTree

  /** A value an attribute or a constant can have. */
  predicate Proper(v: Value) {
    match v
    case Null(_) => true
    case Int(i) => IsInt32(i)
    case Amount(m) => Normal(m)
  }

  /** A number in ten-thousandths. */
  function Worth(v: Value): int
    requires !v.Null?
  {
    match v
    case Int(i) => i * 10000
    case Amount(m) => m.whole * 10000 + m.frac
  }

  predicate Numbers(a: Value, b: Value) {
    Proper(a) && Proper(b) && !a.Null? && !b.Null?
  }

  // ------------------------------------------------------------------ comparisons

  predicate Stands(eq: bool, gt: bool, lt: bool, a: int, b: int) {
    (eq && a == b) || (gt && a > b) || (lt && a < b)
  }

  /** Comparisons give 1 or 0, and 0 with a NULL. */
  lemma CompareIsTruth(eq: bool, gt: bool, lt: bool, a: Value, b: Value)
    ensures var r := Apply(Compare(eq, gt, lt), [a, b]);
            && (r == Some(Int(1)) || r == Some(Int(0)))
            && (a.Null? || b.Null? ==> r == Some(Int(0)))
  {
  }

  /**
   * A comparison is right about the amounts of its operands unless both are
   * integers, their difference overflows, and it asks for one of greater and
   * less only.
   */
  lemma CompareTells(eq: bool, gt: bool, lt: bool, a: Value, b: Value)
    requires Numbers(a, b)
    ensures (Apply(Compare(eq, gt, lt), [a, b]) == Some(Int(1)) <==> Stands(eq, gt, lt, Worth(a), Worth(b)))
            <==> !(a.Int? && b.Int?) || -0x8000_0000 <= a.i - b.i <= 0x7FFF_FFFF || gt == lt
  {
    if a.Int? && b.Int? {
      DifferenceWraps(a.i, b.i);
    }
  }

  /** A difference that overflows has the wrong sign. */
  lemma DifferenceWraps(i: int, j: int)
    requires IsInt32(i) && IsInt32(j)
    ensures IsInt32(i - j) ==> Wrap32(i - j) == i - j
    ensures !IsInt32(i - j) ==> (i > j ==> Wrap32(i - j) < 0) && (i < j ==> Wrap32(i - j) > 0) && i != j
  {
  }

  // ------------------------------------------------------------------ arithmetic

  /** The result of integer operands is the exact number if and only if it fits 32 bits, and differs by carries otherwise. */
  predicate WholeResult(r: Option<Value>, exact: int) {
    r.Some? && r.value.Int? && -0x8000_0000 <= r.value.i <= 0x7FFF_FFFF
    && (r.value.i == exact <==> -0x8000_0000 <= exact <= 0x7FFF_FFFF)
    && (r.value.i - exact) % 0x1_0000_0000 == 0
  }

  lemma WrapLosesCarries(x: int)
    ensures WholeResult(Some(Int(Wrap32(x))), x)
  {
    assert x + 0x8000_0000 == (x + 0x8000_0000) / 0x1_0000_0000 * 0x1_0000_0000 + (x + 0x8000_0000) % 0x1_0000_0000;
    Carries(Wrap32(x) - x, -((x + 0x8000_0000) / 0x1_0000_0000));
  }

  lemma Carries(d: int, k: int)
    requires d == k * 0x1_0000_0000
    ensures d % 0x1_0000_0000 == 0
  {
  }

  /** The result is an amount, and the exact one if and only if that has a representation. */
  predicate MoneyResult(r: Option<Value>, exact: int) {
    r.Some? && r.value.Amount? && Proper(r.value)
    && (Worth(r.value) == exact <==> -0x8000_0000 <= exact / 10000 <= 0x7FFF_FFFF)
  }

  lemma PlusTells(a: Value, b: Value)
    requires Numbers(a, b)
    ensures if a.Int? && b.Int? then WholeResult(Apply(Plus, [a, b]), a.i + b.i)
            else MoneyResult(Apply(Plus, [a, b]), Worth(a) + Worth(b))
  {
    hide PlusInt, PlusMoney, Wrap32;
    match (a, b)
    case (Int(i), Int(j)) => WrapLosesCarries(i + j);
    case (Int(i), Amount(m)) => PlusIntExact(m, i);
    case (Amount(m), Int(j)) => PlusMoneyExact(m, Money(j, 0));
    case (Amount(m), Amount(n)) => PlusMoneyExact(m, n);
  }

  lemma MinusTells(a: Value, b: Value)
    requires Numbers(a, b)
    ensures if a.Int? && b.Int? then WholeResult(Apply(Minus, [a, b]), a.i - b.i)
            else MoneyResult(Apply(Minus, [a, b]), Worth(a) - Worth(b))
  {
    hide MinusMoney, IntMinusMoney, MoneyMinusInt, Wrap32;
    match (a, b)
    case (Int(i), Int(j)) => WrapLosesCarries(i - j);
    case (Int(i), Amount(m)) => IntMinusMoneyExact(i, m);
    case (Amount(m), Int(j)) => MoneyMinusIntExact(m, j);
    case (Amount(m), Amount(n)) => MinusMoneyExact(m, n);
  }

  /** Two amounts cannot be multiplied. */
  lemma MultiplyTells(a: Value, b: Value)
    requires Numbers(a, b)
    ensures match (a, b)
            case (Int(i), Int(j)) => WholeResult(Apply(Multiply, [a, b]), i * j)
            case (Int(i), Amount(_)) => MoneyResult(Apply(Multiply, [a, b]), i * Worth(b))
            case (Amount(_), Int(j)) => MoneyResult(Apply(Multiply, [a, b]), Worth(a) * j)
            case (Amount(_), Amount(_)) => Apply(Multiply, [a, b]) == None
  {
    hide TimesInt, Wrap32;
    match (a, b)
    case (Int(i), Int(j)) => WrapLosesCarries(i * j);
    case (Int(i), Amount(m)) =>
      TimesIntExact(m, i);
      assert i * Units(m) == Units(m) * i;
    case (Amount(m), Int(j)) => TimesIntExact(m, j);
    case (Amount(m), Amount(n)) =>
  }

  /** q is n divided by d, truncated toward zero. */
  predicate IsQuotient(q: int, n: int, d: int)
    requires d != 0
  {
    var r := n - q * d;
    && (if d > 0 then -d < r < d else d < r < -d)
    && (n >= 0 ==> r >= 0)
    && (n <= 0 ==> r <= 0)
  }

  /** There is one such number. */
  lemma QuotTells(q: int, n: int, d: int)
    requires d != 0
    ensures IsQuotient(q, n, d) <==> q == Quot(n, d)
  {
    var p := Quot(n, d);
    QuotIs(n, d);
    if IsQuotient(q, n, d) {
      assert (p - q) * d == (n - q * d) - (n - p * d);
      Between(p - q, d);
    }
  }

  lemma QuotIs(n: int, d: int)
    requires d != 0
    ensures IsQuotient(Quot(n, d), n, d)
  {
    var m, e := if n >= 0 then n else -n, if d > 0 then d else -d;
    var q := m / e;
    assert m == q * e + m % e;
    assert Quot(n, d) == if (n >= 0) == (d > 0) then q else -q;
    assert (-q) * d == -(q * d) && q * (-d) == -(q * d);
  }

  /** The only multiple of d nearer to zero than d is zero. */
  lemma Between(k: int, d: int)
    requires d != 0 && (if d > 0 then -d < k * d < d else d < k * d < -d)
    ensures k == 0
  {
    if d > 0 {
      SmallMultiple(d, k);
    } else {
      assert k * d == (-d) * (-k);
      SmallMultiple(-d, -k);
    }
  }

  lemma Multiples(q: int, n: int, d: int)
    requires d != 0
    ensures n == q * d ==> IsQuotient(q, n, d)
    ensures Rem(n, d) == 0 <==> n == Quot(n, d) * d
  {
    assert d * Quot(n, d) == Quot(n, d) * d;
  }

  lemma QuotientFits(i: int, j: int)
    requires IsInt32(i) && IsInt32(j) && j != 0
    ensures IsInt32(Quot(i, j)) <==> !(i == -0x8000_0000 && j == -1)
  {
    QuotIs(i, j);
    var q := Quot(i, j);
    hide Quot;
    if j == 1 || j == -1 {
      assert q * j == i;
    } else {
      Halves(q, i, j);
    }
  }

  lemma Halves(q: int, i: int, j: int)
    requires IsInt32(i) && (j >= 2 || j <= -2) && IsQuotient(q, i, j)
    ensures IsInt32(q)
  {
    var p := if q >= 0 then q else -q;
    var e := if j >= 0 then j else -j;
    assert p * e == if (q >= 0) == (j >= 0) then q * j else -(q * j);
    assert p * e >= p * 2;
  }

  /**
   * Division by zero is refused, and so is that of an integer by money; money
   * by money is the whole quotient, if there is one. An integer by an integer
   * is right but for the one quotient that does not fit.
   */
  lemma DivideTells(a: Value, b: Value)
    requires Numbers(a, b)
    ensures Worth(b) == 0 ==> Apply(Divide, [a, b]) == None
    ensures a.Int? && b.Amount? ==> Apply(Divide, [a, b]) == None
    ensures a.Int? && b.Int? && b.i != 0 ==>
              var r := Apply(Divide, [a, b]);
              && r.Some? && r.value.Int? && IsInt32(r.value.i)
              && (IsQuotient(r.value.i, a.i, b.i) <==> !(a.i == -0x8000_0000 && b.i == -1))
    ensures a.Amount? && b.Int? && b.i != 0 ==>
              var r := Apply(Divide, [a, b]);
              && r.Some? && r.value.Amount?
              && (Proper(r.value) && IsQuotient(Worth(r.value), Worth(a), b.i) <==> DividesRight(a.m, b.i))
    ensures a.Amount? && b.Amount? && Worth(b) != 0 ==>
              forall q :: Apply(Divide, [a, b]) == Some(Int(q)) <==>
                          Worth(a) == q * Worth(b) && -0x8000_0000 <= q <= 0x7FFF_FFFF
  {
    match (a, b)
    case (Int(i), Int(j)) =>
      if j != 0 {
        QuotTells(Wrap32(Quot(i, j)), i, j);
        QuotientFits(i, j);
      }
    case (Int(_), Amount(_)) =>
    case (Amount(m), Int(j)) =>
      DivideIntTruncates(m, j);
      if j != 0 {
        var r := DivideInt(m, j).value;
        QuotTells(Units(r), Units(m), j);
      }
    case (Amount(m), Amount(n)) =>
      if Worth(b) != 0 {
        forall q
          ensures Units(m) == q * Units(n) <==> Rem(Units(m), Units(n)) == 0 && q == Quot(Units(m), Units(n))
        {
          QuotTells(q, Units(m), Units(n));
          Multiples(q, Units(m), Units(n));
        }
      }
  }

  // ------------------------------------------------------------------ NULL, NOT and the tests

  /** With a NULL operand arithmetic gives NULL, a sum with the type of its first operand. */
  lemma NullTells(k: Kind, a: Value, b: Value)
    requires k.Plus? || k.Minus? || k.Multiply? || k.Divide?
    requires a.Null? || b.Null?
    ensures Apply(k, [a, b]) == Some(Null(if k.Plus? && (a.Amount? || a == Null(MoneyType)) then MoneyType else IntegerType))
  {
    assert [a, b][0] == a && [a, b][1] == b;
    assert a.Null? ==> a.dtype.IntegerType? || a.dtype.MoneyType?;
  }

  lemma UnaryTells(a: Value)
    ensures Apply(IsNull, [a]) == Some(if a.Null? then Int(1) else Int(0))
    ensures Apply(IsNotNull, [a]) == Some(if a.Null? then Int(0) else Int(1))
    ensures Apply(Object, [a]) == Some(a)
    ensures a.Null? ==> Apply(Not, [a]) == Some(Null(IntegerType))
    ensures a.Int? ==> Apply(Not, [a]) == Some(if a.i == 0 then Int(1) else Int(0))
    ensures a.Amount? ==> Apply(Not, [a]) == None
  {
  }

  // ------------------------------------------------------------------ all operators

  /** What an operator must not be applied to. */
  predicate Refuses(k: Kind, args: seq<Value>)
    requires |args| == if IsBinary(k) then 2 else 1
  {
    if k.Multiply? then args[0].Amount? && args[1].Amount?
    else if k.Divide? then
      !args[0].Null? && !args[1].Null? &&
      (Worth(args[1]) == 0 || (args[1].Amount? && (args[0].Int? || !HasWholeQuotient(Worth(args[0]), Worth(args[1])))))
    else k.Not? && args[0].Amount?
  }

  predicate HasWholeQuotient(n: int, d: int)
    requires d != 0
  {
    n == Quot(n, d) * d && -0x8000_0000 <= Quot(n, d) <= 0x7FFF_FFFF
  }

  /** What it has to give otherwise. */
  predicate Computes(k: Kind, args: seq<Value>, r: Value)
    requires (IsBinary(k) || IsUnary(k)) && |args| == if IsBinary(k) then 2 else 1
  {
    if k.IsNull? then r == if args[0].Null? then Int(1) else Int(0)
    else if k.IsNotNull? then r == if args[0].Null? then Int(0) else Int(1)
    else if k.Object? then r == args[0]
    else if k.Not? then if args[0].Int? then r == if args[0].i == 0 then Int(1) else Int(0) else r == Null(IntegerType)
    else
      var a, b := args[0], args[1];
      if a.Null? || b.Null? then
        r == if k.Compare? then Int(0) else Null(if k.Plus? then TypeOf(a) else IntegerType)
      else if k.Compare? then
        && (r == Int(1) || r == Int(0))
        && ((r == Int(1) <==> Stands(k.eq, k.gt, k.lt, Worth(a), Worth(b))) <==>
            a.Amount? || b.Amount? || IsInt32(a.i - b.i) || k.gt == k.lt)
      else if k.Plus? then if a.Int? && b.Int? then WholeResult(Some(r), a.i + b.i) else MoneyResult(Some(r), Worth(a) + Worth(b))
      else if k.Minus? then if a.Int? && b.Int? then WholeResult(Some(r), a.i - b.i) else MoneyResult(Some(r), Worth(a) - Worth(b))
      else if k.Multiply? then
        if a.Int? && b.Int? then WholeResult(Some(r), a.i * b.i)
        else MoneyResult(Some(r), if a.Int? then a.i * Worth(b) else if b.Int? then Worth(a) * b.i else 0)
      else if a.Int? && b.Int? then r.Int? && b.i != 0 && (IsQuotient(r.i, a.i, b.i) <==> !(a.i == -0x8000_0000 && b.i == -1))
      else if b.Int? then r.Amount? && b.i != 0 && IsInt32(b.i) && (Proper(r) && IsQuotient(Worth(r), Worth(a), b.i) <==> DividesRight(a.m, b.i))
      else r.Int? && Worth(a) == r.i * Worth(b)
  }

  /** And that is what every operator does. */
  lemma OperatorsCompute(k: Kind, args: seq<Value>)
    requires (IsBinary(k) || IsUnary(k)) && |args| == if IsBinary(k) then 2 else 1
    requires forall i :: 0 <= i < |args| ==> Proper(args[i])
    ensures Apply(k, args).None? <==> Refuses(k, args)
    ensures Apply(k, args).Some? ==> Computes(k, args, Apply(k, args).value)
  {
    if |args| == 1 {
      UnaryTells(args[0]);
      assert args == [args[0]];
    } else {
      assert args == [args[0], args[1]];
      BinaryCompute(k, args[0], args[1]);
    }
  }

  lemma BinaryCompute(k: Kind, a: Value, b: Value)
    requires IsBinary(k) && Proper(a) && Proper(b)
    ensures Apply(k, [a, b]).None? <==> Refuses(k, [a, b])
    ensures Apply(k, [a, b]).Some? ==> Computes(k, [a, b], Apply(k, [a, b]).value)
  {
    if k.Compare? {
      CompareIsTruth(k.eq, k.gt, k.lt, a, b);
    }
    if a.Null? || b.Null? {
      if !k.Compare? {
        NullTells(k, a, b);
      }
    } else {
      hide Apply;
      match k
      case Compare(eq, gt, lt) => CompareTells(eq, gt, lt, a, b);
      case Plus => PlusTells(a, b);
      case Minus => MinusTells(a, b);
      case Multiply => MultiplyTells(a, b);
      case Divide => DivideComputes(a, b);
    }
  }

  lemma DivideComputes(a: Value, b: Value)
    requires Numbers(a, b)
    ensures Apply(Divide, [a, b]).None? <==> Refuses(Divide, [a, b])
    ensures Apply(Divide, [a, b]).Some? ==> Computes(Divide, [a, b], Apply(Divide, [a, b]).value)
  {
    DivideTells(a, b);
    if a.Amount? && b.Amount? && Worth(b) != 0 {
      Multiples(0, Worth(a), Worth(b));
    }
    hide Quot, Rem, DivideInt, DividesRight, IsQuotient;
  }

  // ------------------------------------------------------------------ AND and OR

  /** A known false decides an AND, anything else that is known an OR; an indeterminate or NULL one neither. */
  predicate Settles(k: Kind, c: Cache)
    requires IsJunction(k)
  {
    !c.indet && c.value.Int? && if k.And? then c.value.i == 0 else c.value.i != 0
  }

  predicate SettledBefore(k: Kind, cs: seq<Cache>, n: nat)
    requires IsJunction(k) && n <= |cs|
  {
    exists i :: 0 <= i < n && Settles(k, cs[i])
  }

  predicate DoubtBefore(k: Kind, cs: seq<Cache>)
    requires IsJunction(k)
  {
    exists i :: 0 <= i < |cs| && cs[i].indet && !SettledBefore(k, cs, i)
  }

  /**
   * An AND is false when an operand is known to be false, NULL when none is
   * and one is NULL, and true otherwise; an OR the other way round. It is
   * indeterminate when an operand is before the first that settles it.
   */
  lemma {:induction false} JoinedTells(k: Kind, cs: seq<Cache>)
    requires IsJunction(k)
    ensures Joined(k, cs).value ==
            if SettledBefore(k, cs, |cs|) then Int(if k.And? then 0 else 1)
            else if HasNull(cs) then Null(IntegerType)
            else Int(if k.And? then 1 else 0)
    ensures Joined(k, cs).indet <==> DoubtBefore(k, cs)
    decreases cs
  {
    if cs != [] {
      JoinedTells(k, cs[1..]);
      TailSettled(k, cs);
      TailDoubt(k, cs);
      TailNull(cs);
    }
  }

  lemma TailSettled(k: Kind, cs: seq<Cache>)
    requires IsJunction(k) && cs != []
    ensures forall n :: 1 <= n <= |cs| ==> (SettledBefore(k, cs, n) <==> Settles(k, cs[0]) || SettledBefore(k, cs[1..], n - 1))
    ensures !SettledBefore(k, cs, 0)
  {
    forall n | 1 <= n <= |cs|
      ensures SettledBefore(k, cs, n) <==> Settles(k, cs[0]) || SettledBefore(k, cs[1..], n - 1)
    {
      if SettledBefore(k, cs, n) {
        var i :| 0 <= i < n && Settles(k, cs[i]);
        assert i > 0 ==> cs[i] == cs[1..][i - 1];
      }
      if SettledBefore(k, cs[1..], n - 1) {
        var i :| 0 <= i < n - 1 && Settles(k, cs[1..][i]);
        assert cs[i + 1] == cs[1..][i];
      }
    }
  }

  lemma TailDoubt(k: Kind, cs: seq<Cache>)
    requires IsJunction(k) && cs != []
    ensures DoubtBefore(k, cs) <==> cs[0].indet || (!Settles(k, cs[0]) && DoubtBefore(k, cs[1..]))
  {
    TailSettled(k, cs);
    hide SettledBefore;
    if cs[0].indet {
      assert DoubtBefore(k, cs);
    }
    if DoubtBefore(k, cs) {
      var i :| 0 <= i < |cs| && cs[i].indet && !SettledBefore(k, cs, i);
      if i > 0 {
        assert cs[1..][i - 1].indet && !SettledBefore(k, cs[1..], i - 1);
      }
    }
    if !Settles(k, cs[0]) && DoubtBefore(k, cs[1..]) {
      var i :| 0 <= i < |cs[1..]| && cs[1..][i].indet && !SettledBefore(k, cs[1..], i);
      assert cs[i + 1].indet && !SettledBefore(k, cs, i + 1);
    }
  }

  lemma TailNull(cs: seq<Cache>)
    requires cs != []
    ensures HasNull(cs) <==> cs[0].value.Null? || HasNull(cs[1..])
  {
    if HasNull(cs) {
      var i :| 0 <= i < |cs| && cs[i].value.Null?;
      assert i > 0 ==> cs[i] == cs[1..][i - 1];
    }
    if HasNull(cs[1..]) {
      var i :| 0 <= i < |cs[1..]| && cs[1..][i].value.Null?;
      assert cs[i + 1].value.Null?;
    }
  }

  // ------------------------------------------------------------------ whole expressions

  /** A constant has its value, and what is not bound is NULL and indeterminate. */
  lemma LeafTells(t: Tree, env: Env)
    ensures t.kind.Const? ==> Scratch(t, env) == Some(Cache(t.cache.value, false))
    ensures t.kind.Unbound? ==> Scratch(t, env) == Some(Cache(Null(IntegerType), true))
  {
  }

  /** A reference has its attribute's value; with no object it is NULL, and without the attribute it has none. */
  lemma ReferenceTells(t: Tree, env: Env, obj: map<string, Value>)
    requires t.kind.Property?
    ensures t.kind.name in obj ==>
              Scratch(t, env[t.kind.obj := obj]) == Some(Cache(obj[t.kind.name], false))
    ensures t.kind.name !in obj ==> Scratch(t, env[t.kind.obj := obj]) == None
    ensures Scratch(t, env - {t.kind.obj}) == Some(Cache(Null(IntegerType), false))
  {
  }

  /** An operator has its value from its operands' values, and doubt from any. */
  lemma OperatorTells(t: Tree, env: Env, cs: seq<Cache>)
    requires IsBinary(t.kind) || IsUnary(t.kind)
    requires |cs| == |t.kids| == if IsBinary(t.kind) then 2 else 1
    requires forall i :: 0 <= i < |cs| ==> Scratch(t.kids[i], env) == Some(cs[i]) && Proper(cs[i].value)
    ensures Scratch(t, env).None? <==> Refuses(t.kind, Values(cs))
    ensures Scratch(t, env).Some? ==>
              && Computes(t.kind, Values(cs), Scratch(t, env).value.value)
              && (Scratch(t, env).value.indet <==> exists i :: 0 <= i < |cs| && cs[i].indet)
  {
    hide Apply, Computes, Refuses, ScratchAll;
    AllHave(t.kids, env, cs);
    OperatorsCompute(t.kind, Values(cs));
    assert (exists c :: c in cs && c.indet) <==> exists i :: 0 <= i < |cs| && cs[i].indet;
  }

  lemma {:induction false} AllHave(ts: seq<Tree>, env: Env, cs: seq<Cache>)
    requires |cs| == |ts| && forall i :: 0 <= i < |ts| ==> Scratch(ts[i], env) == Some(cs[i])
    ensures ScratchAll(ts, env) == Some(cs)
    decreases ts
  {
    hide Scratch;
    if ts != [] {
      AllHave(ts[1..], env, cs[1..]);
      assert cs == [cs[0]] + cs[1..];
    }
  }

  /**
   * AND and OR look at their operands up to the first that settles them,
   * whatever stands behind it.
   */
  lemma JunctionTells(t: Tree, env: Env, cs: seq<Cache>)
    requires IsJunction(t.kind) && |cs| <= |t.kids|
    requires forall i :: 0 <= i < |cs| ==> Scratch(t.kids[i], env) == Some(cs[i]) && (cs[i].value.Int? || cs[i].value.Null?)
    requires forall i :: 0 <= i < |cs| - 1 ==> !Settles(t.kind, cs[i])
    requires |cs| == |t.kids| || (cs != [] && Settles(t.kind, cs[|cs| - 1]))
    ensures var known := cs != [] && Settles(t.kind, cs[|cs| - 1]);
            Scratch(t, env) ==
            Some(Cache(if known then Int(if t.kind.And? then 0 else 1)
                       else if exists i :: 0 <= i < |cs| && cs[i].value.Null? then Null(IntegerType)
                       else Int(if t.kind.And? then 1 else 0),
                       exists i :: 0 <= i < |cs| && cs[i].indet))
  {
    hide Joined, ScratchUntil;
    UntilSettled(t.kind, t.kids, env, cs);
    JoinedTells(t.kind, cs);
    if cs != [] && Settles(t.kind, cs[|cs| - 1]) {
      assert SettledBefore(t.kind, cs, |cs|);
    }
    forall i | 0 <= i < |cs|
      ensures !SettledBefore(t.kind, cs, i)
    {
    }
    assert DoubtBefore(t.kind, cs) <==> exists i :: 0 <= i < |cs| && cs[i].indet;
  }

  lemma {:induction false} UntilSettled(k: Kind, ts: seq<Tree>, env: Env, cs: seq<Cache>)
    requires IsJunction(k) && |cs| <= |ts|
    requires forall i :: 0 <= i < |cs| ==> Scratch(ts[i], env) == Some(cs[i]) && (cs[i].value.Int? || cs[i].value.Null?)
    requires forall i :: 0 <= i < |cs| - 1 ==> !Settles(k, cs[i])
    requires |cs| == |ts| || (cs != [] && Settles(k, cs[|cs| - 1]))
    ensures ScratchUntil(k, ts, env) == Some(cs)
    decreases ts
  {
    hide Scratch;
    if ts != [] {
      assert cs == [cs[0]] + cs[1..];
      if Settles(k, cs[0]) {
        assert cs == [cs[0]];
      } else {
        UntilSettled(k, ts[1..], env, cs[1..]);
      }
    }
  }

  /** An operand that is reached and has no value, or is money, leaves an AND or OR without one. */
  lemma JunctionRefuses(t: Tree, env: Env, cs: seq<Cache>)
    requires IsJunction(t.kind) && |cs| < |t.kids|
    requires forall i :: 0 <= i < |cs| ==> Scratch(t.kids[i], env) == Some(cs[i]) && !Settles(t.kind, cs[i])
    requires Scratch(t.kids[|cs|], env).None? || Scratch(t.kids[|cs|], env).value.value.Amount?
    ensures Scratch(t, env) == None
  {
    UntilRefused(t.kind, t.kids, env, cs);
  }

  lemma {:induction false} UntilRefused(k: Kind, ts: seq<Tree>, env: Env, cs: seq<Cache>)
    requires IsJunction(k) && |cs| < |ts|
    requires forall i :: 0 <= i < |cs| ==> Scratch(ts[i], env) == Some(cs[i]) && !Settles(k, cs[i])
    requires Scratch(ts[|cs|], env).None? || Scratch(ts[|cs|], env).value.value.Amount?
    ensures ScratchUntil(k, ts, env) == None
    decreases ts
  {
    hide Scratch;
    if cs != [] {
      UntilRefused(k, ts[1..], env, cs[1..]);
    }
  }

  // ------------------------------------------------------------------ recalculation

  /** When everything is to be recalculated no cache is looked at: the value is the one from scratch, whatever the tree remembers. */
  lemma {:induction false} RecalcIsScratch(t: Tree, env: Env, mask: Mask)
    ensures Eval(t, env, mask, true).Some? <==> Scratch(t, env).Some?
    ensures Eval(t, env, mask, true).Some? ==> Some(Eval(t, env, mask, true).value.cache) == Scratch(t, env)
    decreases t
  {
    hide Apply, Joined, Combined, Read;
    if IsJunction(t.kind) {
      RecalcUntil(t.kind, t.kids, env, mask + t.delay);
    } else if !IsLeaf(t.kind) {
      RecalcAll(t.kids, env, mask + t.delay);
      var ks, r := EvalAll(t.kids, env, mask + t.delay, true), Operated(t.kind, t.kids, env, mask + t.delay, true);
      assert r == if |t.kids| != (if IsBinary(t.kind) then 2 else 1) || ks.None? then None else
                    var c := Combined(t.kind, Caches(ks.value));
                    if c.Some? then Some((ks.value, c.value)) else None;
    }
  }

  lemma {:induction false} RecalcAll(ts: seq<Tree>, env: Env, mask: Mask)
    ensures EvalAll(ts, env, mask, true).Some? <==> ScratchAll(ts, env).Some?
    ensures EvalAll(ts, env, mask, true).Some? ==> Some(Caches(EvalAll(ts, env, mask, true).value)) == ScratchAll(ts, env)
    decreases ts
  {
    hide Eval, Scratch;
    if ts != [] {
      RecalcIsScratch(ts[0], env, mask);
      RecalcAll(ts[1..], env, mask);
    }
  }

  lemma {:induction false} RecalcUntil(k: Kind, ts: seq<Tree>, env: Env, mask: Mask)
    requires IsJunction(k)
    ensures EvalUntil(k, ts, env, mask, true, false).Some? <==> ScratchUntil(k, ts, env).Some?
    ensures EvalUntil(k, ts, env, mask, true, false).Some? ==>
              Joined(k, Caches(EvalUntil(k, ts, env, mask, true, false).value)) == Joined(k, ScratchUntil(k, ts, env).value)
    decreases ts
  {
    hide Eval, Scratch, Decides;
    if ts != [] {
      RecalcIsScratch(ts[0], env, mask);
      RecalcUntil(k, ts[1..], env, mask);
      DecidedGoesOn(k, ts[1..], env, mask, true);
    }
  }

  lemma {:induction false} DecidedGoesOn(k: Kind, ts: seq<Tree>, env: Env, mask: Mask, recalc: bool)
    requires IsJunction(k)
    ensures EvalUntil(k, ts, env, mask, recalc, true).Some?
    decreases ts
  {
    if ts != [] {
      DecidedGoesOn(k, ts[1..], env, mask, recalc);
    }
  }
}
