/** Division, remainder and power of int128.hpp. */
module Int128Division {
  import opened Int128s

  function Abs(x: int): int
  {
    if x < 0 then -x else x
  }

  /** The quotient rounded toward zero. */
  function Trunc(x: int, d: int): int
    requires d != 0
  {
    if (x < 0) == (d < 0) then Abs(x) / Abs(d) else -(Abs(x) / Abs(d))
  }

  /** `Trunc` is the one quotient whose remainder is smaller than the divisor and not of the other sign. */
  lemma TruncUnique(x: int, d: int, q: int, r: int)
    requires d != 0 && x == q * d + r && Abs(r) < Abs(d) && (r == 0 || (r < 0) == (x < 0))
    ensures q == Trunc(x, d) && Abs(r) == Abs(x) % Abs(d)
  {
    var s := if (x < 0) == (d < 0) then q else -q;
    if x < 0 {
      assert Abs(x) == s * Abs(d) + Abs(r);
    } else {
      assert Abs(x) == s * Abs(d) + Abs(r);
    }
    DivUnique(Abs(x), Abs(d), s, Abs(r));
  }

  lemma DivUnique(x: int, d: int, q: int, r: int)
    requires d > 0 && x == q * d + r && 0 <= r < d
    ensures q == x / d && r == x % d
  {
    MulMinus(q, x / d, d);
    SmallMultiple(q - x / d, d, x % d - r);
  }

  lemma SmallMultiple(n: int, d: int, r: int)
    requires n * d == r && -d < r < d
    ensures n == 0
  {
    if n > 0 {
      NonNegative(n - 1, d);
      MulMinus(n, 1, d);
    }
    if n < 0 {
      NonNegative(-1 - n, d);
      MulMinus(-1, n, d);
    }
  }

  lemma TruncRemainder(x: int, d: int)
    requires d != 0
    ensures var r := x - Trunc(x, d) * d; Abs(r) == Abs(x) % Abs(d) && (r == 0 || (r < 0) == (x < 0))
  {
    var q, r := Abs(x) / Abs(d), Abs(x) % Abs(d);
    assert Abs(x) == q * Abs(d) + r;
    if (x < 0) == (d < 0) {
      assert Trunc(x, d) * d == (if d < 0 then -(q * Abs(d)) else q * Abs(d));
    } else {
      assert Trunc(x, d) * d == (if d < 0 then q * Abs(d) else -(q * Abs(d)));
    }
  }

  const MIN := Int128(-0x8000_0000_0000_0000, 0)

  /** What `/` yields: the truncated quotient, except that -2^127 divided by anything but 1 and -1 gives 0. */
  function MachineQuotient(x: int, d: int): int
    requires d != 0
  {
    if x != -B127 || Abs(d) == 1 then Reduce(Trunc(x, d)) else 0
  }

  /** What `div1` leaves in its remainder: that of the absolute values, or -2^127 itself. */
  function MachineRemainder(x: int, d: int): int
    requires d != 0
  {
    if x != -B127 || Abs(d) == 1 then Abs(x) % Abs(d) else x
  }

  lemma TruncFits(x: int, d: int)
    requires d != 0 && -B127 < x < B127
    ensures -B127 < Trunc(x, d) < B127 && Reduce(Trunc(x, d)) == Trunc(x, d)
  {
    DivLess(Abs(x), Abs(d));
    ReduceUnique(Trunc(x, d), Trunc(x, d), 0);
  }

  lemma DivLess(x: int, d: int)
    requires x >= 0 && d > 0
    ensures 0 <= x / d <= x && (d >= 2 && x > 0 ==> x / d < x) && (x >= d ==> x / d >= 1)
  {
    var q := x / d;
    assert x == q * d + x % d;
    assert q >= 0;
    NonNegative(d - 1, q);
    MulMinus(d, 1, q);
    if d >= 2 {
      NonNegative(d - 2, q);
      MulMinus(d, 2, q);
    }
  }

  /** The quotient is right, modulo 2^128, exactly when the dividend is not -2^127 or the divisor is 1 or -1. */
  lemma QuotientExact(x: int, d: int)
    requires d != 0 && -B127 <= x < B127 && -B127 <= d < B127
    ensures MachineQuotient(x, d) == Reduce(Trunc(x, d)) <==> x != -B127 || d == 1 || d == -1
  {
    if x == -B127 && Abs(d) != 1 {
      DivLess(B127, Abs(d));
      ReduceUnique(Trunc(x, d), Trunc(x, d), 0);
    }
  }

  /** Quotient and remainder by what they give back: the absolute values multiply and add up to that of the
      dividend, and the quotient is negative when the signs differ.  -2^127 divides by 1 and -1 to itself, and by
      anything else to 0 with itself as the remainder. */
  lemma MachineDivision(x: int, d: int)
    requires d != 0 && InRange(x) && InRange(d)
    ensures x != -B127 ==>
              var q, r := MachineQuotient(x, d), MachineRemainder(x, d);
              && Abs(x) == Abs(q) * Abs(d) + r && 0 <= r < Abs(d)
              && (q == 0 || ((q < 0) <==> ((x < 0) != (d < 0))))
    ensures x == -B127 && (d == 1 || d == -1) ==> MachineQuotient(x, d) == -B127 && MachineRemainder(x, d) == 0
    ensures x == -B127 && d != 1 && d != -1 ==> MachineQuotient(x, d) == 0 && MachineRemainder(x, d) == -B127
  {
    if x != -B127 {
      TruncFits(x, d);
      DivLess(Abs(x), Abs(d));
      ModBound(Abs(x), Abs(d));
      assert Abs(Trunc(x, d)) == Abs(x) / Abs(d);
    } else if d == 1 {
      ReduceUnique(Trunc(x, d), -B127, 0);
    } else if d == -1 {
      ReduceUnique(Trunc(x, d), -B127, 1);
    }
  }

  // ---- the loops of div1 ----

  predicate InRange(v: int)
  {
    -B127 <= v < B127
  }

  method Plus(x: Int128, y: Int128) returns (r: Int128)
    ensures InRange(Value(x) + Value(y)) ==> Value(r) == Value(x) + Value(y)
    ensures Value(x) == Value(y) == -B127 ==> Value(r) == 0
    ensures Value(x) == Value(y) && 2 * Value(x) >= B127 ==> Value(r) < 0
  {
    r := Add(x, y);
    if Value(x) == Value(y) && 2 * Value(x) >= B127 { ReduceUnique(2 * Value(x), 2 * Value(x) - B128, 1); }
    if InRange(Value(x) + Value(y)) { ReduceUnique(Value(x) + Value(y), Value(x) + Value(y), 0); }
    if Value(x) == Value(y) == -B127 { ReduceUnique(-B128, 0, -1); }
  }

  method Minus(x: Int128, y: Int128) returns (r: Int128)
    ensures InRange(Value(x) - Value(y)) ==> Value(r) == Value(x) - Value(y)
    ensures Value(x) == 0 && Value(y) == -B127 ==> Value(r) == -B127
  {
    r := Sub(x, y);
    if InRange(Value(x) - Value(y)) { ReduceUnique(Value(x) - Value(y), Value(x) - Value(y), 0); }
    if Value(x) == 0 && Value(y) == -B127 { ReduceUnique(B127, -B127, 1); }
  }

  method Multiply(x: Int128, y: Int128) returns (r: Int128)
    ensures Value(r) == Reduce(Value(x) * Value(y))
  {
    r := Mult1(x, y);
  }

  method Half(x: Int128) returns (r: Int128)
    ensures Value(r) == Value(x) / 2
  {
    r := Shr(x);
  }

  method Negated(x: Int128) returns (r: Int128)
    ensures Value(r) == if Value(x) == -B127 then -B127 else -Value(x)
  {
    r := Neg(x);
    if Value(x) == -B127 { ReduceUnique(B127, -B127, 1); } else { ReduceUnique(-Value(x), -Value(x), 0); }
  }

  const ZERO := Int128(0, 0)
  const ONE := Int128(0, 1)
  const MINUS_ONE := Int128(-1, 0xFFFF_FFFF_FFFF_FFFF)

  function Pow2(k: nat): int
  {
    if k == 0 then 1 else 2 * Pow2(k - 1)
  }

  lemma Double(p: int, d: int)
    ensures (p + p) * d == p * d + p * d
  {
  }

  lemma Halve(k: nat, d: int)
    requires d > 0
    ensures Pow2(k) > 0
    ensures Pow2(k) / 2 == if k == 0 then 0 else Pow2(k - 1)
    ensures k > 0 ==> Pow2(k) * d / 2 == Pow2(k - 1) * d && Pow2(k) * d == 2 * (Pow2(k - 1) * d)
  {
    if k > 0 {
      Halve(k - 1, d);
      Double(Pow2(k - 1), d);
    }
  }

  /** Double the divisor and the power of two with it, as long as the doubled divisor fits. For -2^127
      divided by itself the doubled divisor wraps to 0 after one round, and the loop ends. */
  method DoubleUp(x0: Int128, d: Int128) returns (x: Int128, d1: Int128, p2: Int128, ghost k: nat)
    requires 0 < Value(d) <= Value(x0) || Value(d) == Value(x0) == -B127
    ensures Value(d) > 0 ==> Value(p2) == Pow2(k) && Value(d1) == Pow2(k) * Value(d)
    ensures Value(d) > 0 ==> Value(x) + Value(d1) == Value(x0) && 0 <= Value(x) < Value(d1)
    ensures Value(d) < 0 ==> Value(x) == -B127 && Value(d1) == 0 && Value(p2) == 2
  {
    k, p2, d1 := 0, ONE, d;
    x := Minus(x0, d1);
    while GreaterEqual(x, d1)
      invariant Value(d) > 0 ==> Value(p2) == Pow2(k) && Value(d1) == Pow2(k) * Value(d)
      invariant Value(d) > 0 ==> Value(x) + Value(d1) == Value(x0) && 0 <= Value(x)
      invariant Value(d) > 0 ==> 0 < Value(p2) <= Value(d1)
      invariant Value(d) < 0 && k == 0 ==> Value(x) == 0 && Value(d1) == -B127 && Value(p2) == 1
      invariant Value(d) < 0 && k > 0 ==> Value(x) == -B127 && Value(d1) == 0 && Value(p2) == 2
      decreases if Value(d) > 0 then Value(x0) - Value(d1) else 1 - k
    {
      Double(Pow2(k), Value(d));
      x := Minus(x, d1);
      d1 := Plus(d1, d1);
      p2 := Plus(p2, p2);
      k := k + 1;
    }
  }

  /** Halve the divisor and the power of two back down, subtracting wherever the divisor fits. */
  method HalveDown(x0: Int128, d: Int128, d10: Int128, p20: Int128, ghost k0: nat) returns (rv: Int128, x: Int128)
    requires Value(d) > 0 ==> Value(p20) == Pow2(k0) && Value(d10) == Pow2(k0) * Value(d)
    requires Value(d) > 0 ==> 0 <= Value(x0) < 2 * Value(d10)
    requires Value(d) <= 0 ==> Value(x0) == -B127 && Value(d10) == 0 && Value(p20) == 2
    ensures Value(d) > 0 ==> Value(rv) == Value(x0) / Value(d) && Value(x) == Value(x0) % Value(d)
    ensures Value(d) <= 0 ==> Value(rv) == 0 && Value(x) == -B127
  {
    var d1, p2 := d10, p20;
    rv, x := ZERO, x0;
    ghost var k, D := k0, Value(d);
    while p2 != ZERO
      invariant D > 0 ==> Value(x0) == Value(rv) * D + Value(x) && 0 <= Value(x) && 0 <= Value(rv)
      invariant D > 0 && p2 != ZERO ==> Value(p2) == Pow2(k) && Value(d1) == Pow2(k) * D && Value(x) < 2 * Value(d1)
      invariant D > 0 && p2 == ZERO ==> Value(x) < D
      invariant D <= 0 ==> rv == ZERO && x == x0 && Value(d1) == 0 && Value(p2) >= 0
      decreases Value(p2)
    {
      if D > 0 { Halve(k, D); }
      if GreaterEqual(x, d1) {
        AddPower(Value(rv), Pow2(k), D, Value(x), Value(x0));
        x := Minus(x, d1);
        rv := Plus(rv, p2);
      }
      p2 := Half(p2);
      d1 := Half(d1);
      if k == 0 {
        if D > 0 { ValueInjective(p2, ZERO); }
      } else {
        if D > 0 { Halve(k - 1, D); }
        k := k - 1;
      }
    }
    if D > 0 { DivUnique(Value(x0), D, Value(rv), Value(x)); }
  }

  /** The quotient so far takes the power of two, the rest loses its multiple of the divisor, and neither overflows. */
  lemma AddPower(rv: int, p: int, d: int, x: int, x0: int)
    requires x0 == rv * d + x && d > 0 && rv >= 0 && p > 0 && x >= p * d
    ensures x0 == (rv + p) * d + (x - p * d) && rv + p <= x0
  {
    assert (rv + p) * d == rv * d + p * d;
    NonNegative(rv + p, d - 1);
    assert (rv + p) * (d - 1) == (rv + p) * d - (rv + p);
  }

  datatype Division = DivideByZero | Quotient(q: Int128, r: Int128)

  /** Binary long division: double the divisor while it fits, then halve it back and subtract.
      The remainder is that of the absolute values. Dividing by -2^127 is excluded unless the dividend
      is -2^127 as well: the doubling loop then never ends (`MinDivisorDiverges`). */
  method Div1(x0: Int128, d0: Int128) returns (res: Division)
    requires Value(d0) == -B127 ==> Value(x0) == -B127
    ensures res.DivideByZero? <==> Value(d0) == 0
    ensures res.Quotient? ==> Value(res.q) == MachineQuotient(Value(x0), Value(d0))
    ensures res.Quotient? ==> Value(res.r) == MachineRemainder(Value(x0), Value(d0))
    ensures res.Quotient? && Value(x0) != -B127 ==>
              && Abs(Value(x0)) == Abs(Value(res.q)) * Abs(Value(d0)) + Value(res.r)
              && 0 <= Value(res.r) < Abs(Value(d0))
              && (Value(res.q) == 0 || ((Value(res.q) < 0) <==> ((Value(x0) < 0) != (Value(d0) < 0))))
    ensures res.Quotient? && Value(x0) == -B127 ==>
              if Value(d0) == 1 || Value(d0) == -1 then Value(res.q) == -B127 && Value(res.r) == 0
              else Value(res.q) == 0 && Value(res.r) == -B127
  {
    var x, d := x0, d0;
    if d.low == 0 && d.high == 0 {
      return DivideByZero;
    }
    ValueInjective2(d, ZERO);
    var s := 1;
    if Less(x, ZERO) {
      s := -s;
      x := Negated(x);
    }
    if Less(d, ZERO) {
      s := -s;
      d := Negated(d);
    }
    var rv, r := DivideMagnitudes(x, d);
    if s < 0 {
      rv := Negated(rv);
    }
    Signs(Value(x0), Value(d0), Value(rv), Value(r));
    MachineDivision(Value(x0), Value(d0));
    res := Quotient(rv, r);
  }

  lemma ValueInjective2(x: Int128, y: Int128)
    ensures x != y ==> Value(x) != Value(y)
  {
    if Value(x) == Value(y) { ValueInjective(x, y); }
  }

  /** The case split of `div1` on operands made non-negative (-2^127 stays itself). */
  method DivideMagnitudes(x: Int128, d: Int128) returns (rv: Int128, r: Int128)
    requires Value(x) >= 0 || Value(x) == -B127
    requires Value(d) > 0 || Value(d) == Value(x) == -B127
    ensures Value(x) >= 0 ==> Value(rv) == Value(x) / Value(d) && Value(r) == Value(x) % Value(d)
    ensures Value(x) < 0 && Value(d) == 1 ==> Value(rv) == -B127 && Value(r) == 0
    ensures Value(x) < 0 && Value(d) != 1 ==> Value(rv) == 0 && Value(r) == -B127
  {
    ValueInjective2(d, ONE);
    if d == ONE {
      rv, r := x, ZERO;
      DivUnique(Value(x), 1, Value(x), 0);
    } else if Less(x, d) {
      rv, r := ZERO, x;
      if Value(x) >= 0 { DivUnique(Value(x), Value(d), 0, Value(x)); }
    } else {
      var x', d1, p2;
      ghost var k;
      x', d1, p2, k := DoubleUp(x, d);
      x' := Plus(x', d1);
      rv, r := HalveDown(x', d, d1, p2, k);
    }
  }

  /** Putting the signs back on the quotient of the magnitudes. */
  lemma Signs(x: int, d: int, rv: int, r: int)
    requires d != 0 && InRange(x) && InRange(d) && (d == -B127 ==> x == -B127)
    requires var q := if x == -B127 then (if Abs(d) == 1 then -B127 else 0) else Abs(x) / Abs(d);
             rv == if (x < 0) == (d < 0) || q == -B127 then q else -q
    requires r == if x == -B127 then (if Abs(d) == 1 then 0 else -B127) else Abs(x) % Abs(d)
    ensures rv == MachineQuotient(x, d) && r == MachineRemainder(x, d)
  {
    if x != -B127 {
      TruncFits(x, d);
      DivLess(Abs(x), Abs(d));
    } else if d == 1 {
      ReduceUnique(Trunc(x, d), -B127, 0);
    } else if d == -1 {
      ReduceUnique(Trunc(x, d), -B127, 1);
    }
  }

  // ---- dividing by -2^127 ----

  /** The variables of the doubling loop. */
  datatype Doubling = Doubling(x: Int128, d1: Int128, p2: Int128)

  function Round(s: Doubling): (r: Doubling)
    ensures Value(r.x) == Reduce(Value(s.x) - Value(s.d1)) && Value(r.d1) == Reduce(Value(s.d1) + Value(s.d1))
  {
    Doubling(Sub(s.x, s.d1), Add(s.d1, s.d1), Add(s.p2, s.p2))
  }

  function Iterate(s: Doubling, n: nat): Doubling
  {
    if n == 0 then s else Round(Iterate(s, n - 1))
  }

  /** The state of the doubling loop before it, and after one round or more, for the divisor -2^127. */
  ghost predicate Spinning(s: Doubling, x: int)
  {
    (Value(s.x) == x - B127 && Value(s.d1) == -B127) || (Value(s.x) == x && Value(s.d1) == 0)
  }

  lemma SpinningRound(s: Doubling, x: int)
    requires 0 <= x < B127 && Spinning(s, x)
    ensures Spinning(Round(s), x) && GreaterEqual(s.x, s.d1)
  {
    ReduceUnique(Value(s.x) - Value(s.d1), x, 0);
    ReduceUnique(Value(s.d1) + Value(s.d1), 0, if Value(s.d1) == 0 then 0 else -1);
  }

  lemma {:induction false} SpinningForever(s: Doubling, x: int, n: nat)
    requires 0 <= x < B127 && Spinning(s, x)
    ensures Spinning(Iterate(s, n), x)
  {
    if n > 0 {
      SpinningForever(s, x, n - 1);
      SpinningRound(Iterate(s, n - 1), x);
    }
  }

  /** With the divisor -2^127 and any other dividend, the guard of the doubling loop holds before every
      round: the division never ends. */
  lemma MinDivisorDiverges(x: Int128, n: nat)
    requires Value(x) >= 0
    ensures var s := Iterate(Doubling(Sub(x, MIN), MIN, ONE), n); GreaterEqual(s.x, s.d1)
  {
    var s := Doubling(Sub(x, MIN), MIN, ONE);
    ReduceUnique(Value(x) + B127, Value(x) - B127, 1);
    SpinningForever(s, Value(x), n);
    SpinningRound(Iterate(s, n), Value(x));
  }

  // ---- remainder ----

  /** `x - d * (x / d)`: the remainder of truncated division, exactly unless the dividend is -2^127 and
      the divisor neither 1 nor -1. */
  method Mod(x: Int128, d: Int128) returns (res: Division)
    requires Value(d) == -B127 ==> Value(x) == -B127
    ensures res.DivideByZero? <==> Value(d) == 0
    ensures res.Quotient? ==>
              (Value(res.r) == Value(x) - Trunc(Value(x), Value(d)) * Value(d) <==>
               Value(x) != -B127 || Value(d) == 1 || Value(d) == -1)
    ensures res.Quotient? && Value(x) != -B127 ==>
              && Abs(Value(res.r)) < Abs(Value(d))
              && (Value(res.r) == 0 || (Value(res.r) < 0) == (Value(x) < 0))
  {
    res := Div1(x, d);
    if res.Quotient? {
      var dq := Multiply(d, res.q);
      var r := Sub(x, dq);
      ModMeaning(Value(x), Value(d), Value(res.q), Value(dq), Value(r));
      res := Quotient(res.q, r);
    }
  }

  lemma ModMeaning(x: int, d: int, q: int, dq: int, r: int)
    requires d != 0 && InRange(x) && InRange(d) && q == MachineQuotient(x, d)
    requires dq == Reduce(d * q) && r == Reduce(x - dq)
    ensures r == x - Trunc(x, d) * d <==> x != -B127 || d == 1 || d == -1
    ensures x != -B127 ==> Abs(r) < Abs(d) && (r == 0 || (r < 0) == (x < 0))
  {
    ReduceSub(x, d * q);
    if x != -B127 {
      TruncFits(x, d);
      ModRegular(x, d, q, r);
    } else if d == 1 || d == -1 {
      ReduceUnique(Trunc(x, d), -B127, if d == 1 then 0 else 1);
      ReduceUnique(x - d * q, 0, if d == 1 then 0 else -1);
    } else {
      assert d * q == 0;
      ReduceUnique(x, x, 0);
      TruncRemainder(x, d);
    }
  }

  lemma ModRegular(x: int, d: int, q: int, r: int)
    requires d != 0 && -B127 < x < B127 && InRange(d) && q == Trunc(x, d) && r == Reduce(x - d * q)
    ensures r == x - q * d && Abs(r) < Abs(d) && (r == 0 || (r < 0) == (x < 0))
  {
    TruncRemainder(x, d);
    var e := x - q * d;
    MulCommutes(d, q);
    ModBound(Abs(x), Abs(d));
    ReduceUnique(e, e, 0);
  }

  lemma MulCommutes(a: int, b: int)
    ensures a * b == b * a
  {
  }

  lemma ModBound(a: int, b: int)
    requires b > 0
    ensures 0 <= a % b < b
  {
  }

  lemma ReduceSub(x: int, v: int)
    ensures Reduce(x - Reduce(v)) == Reduce(x - v)
  {
    var k := ReduceWitness(v);
    ReduceAdd(x - v, k);
  }

  // ---- power ----

  function Power(b: int, n: nat): int
  {
    if n == 0 then 1 else Power(b, n - 1) * b
  }

  lemma {:induction false} PowerSum(b: int, m: nat, n: nat)
    ensures Power(b, m + n) == Power(b, m) * Power(b, n) && Power(b, 1) == b
    decreases n
  {
    assert Power(b, 1) == Power(b, 0) * b;
    if n > 0 {
      PowerSum(b, m, n - 1);
      MulAssoc(Power(b, m), Power(b, n - 1), b);
    }
  }

  /** Start from the absolute value, multiply by the base itself, and put the sign back at the end:
      the power modulo 2^128 for every exponent from 1 on, and the base for every exponent below. */
  method PowerOf(b: Int128, t: Int128) returns (r: Int128)
    ensures Value(t) >= 1 ==> Value(r) == Reduce(Power(Value(b), Value(t)))
    ensures Value(t) <= 0 ==> r == b
  {
    r := b;
    var ti := t;
    var positive := true;
    ghost var a := Value(b);
    ReduceUnique(a, a, 0);
    if Less(r, ZERO) {
      r := Multiply(r, MINUS_ONE);
      a := -a;
      positive := false;
    }
    ghost var k := 0;
    assert a * Power(Value(b), 0) == a;
    while Less(ONE, ti)
      invariant Value(r) == Reduce(a * Power(Value(b), k))
      invariant Value(ti) + k == Value(t) && (k > 0 ==> Value(ti) >= 1)
      decreases Value(ti)
    {
      ghost var p := Power(Value(b), k);
      ReduceMul(a * p, Value(b));
      assert a * p * Value(b) == a * (p * Value(b)) by { MulAssoc(a, p, Value(b)); }
      r := Multiply(r, b);
      ti := Minus(ti, ONE);
      k := k + 1;
    }
    PowerSigned(Value(b), a, k);
    if !positive {
      ReduceMul(a * Power(Value(b), k), -1);
      r := Multiply(r, MINUS_ONE);
    }
    if k == 0 {
      assert Value(r) == Value(b);
      ValueInjective(r, b);
    }
  }

  lemma MulAssoc(a: int, b: int, c: int)
    ensures a * b * c == a * (b * c)
  {
  }

  lemma PowerSigned(b: int, a: int, k: nat)
    requires a == b || a == -b
    ensures a == b ==> a * Power(b, k) == Power(b, k + 1)
    ensures a == -b ==> a * Power(b, k) * -1 == Power(b, k + 1)
    ensures Power(b, 1) == b
  {
    assert Power(b, k + 1) == Power(b, k) * b;
    assert Power(b, 1) == Power(b, 0) * b;
  }
}
