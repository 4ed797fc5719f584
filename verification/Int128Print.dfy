/** `int128_str` of int128.hpp: the decimal text of a 128-bit integer, written into a buffer. */
module Int128Print {
  import opened Int128s
  import opened Int128Division

  // ---- numerals ----

  function Digit(d: int): char
    requires 0 <= d < 10
  {
    (('0' as int) + d) as char
  }

  /** The decimal numeral of a natural number. */
  function Decimal(n: nat): string
  {
    if n < 10 then [Digit(n)] else Decimal(n / 10) + [Digit(n % 10)]
  }

  function Numeral(v: int): string
  {
    if v < 0 then "-" + Decimal(-v) else Decimal(v)
  }

  /** Reading a numeral. */
  function ValueOf(s: string): int
  {
    if s == [] then 0 else 10 * ValueOf(s[..|s| - 1]) + (s[|s| - 1] as int - '0' as int)
  }

  /** A numeral stands for its number, holds digits only, and has no leading zero. */
  lemma {:induction false} DecimalMeaning(n: nat)
    ensures ValueOf(Decimal(n)) == n
    ensures forall i :: 0 <= i < |Decimal(n)| ==> '0' <= Decimal(n)[i] <= '9'
    ensures Decimal(n) != [] && (n > 0 ==> Decimal(n)[0] != '0')
  {
    if n >= 10 {
      DecimalMeaning(n / 10);
      var s := Decimal(n);
      assert s[..|s| - 1] == Decimal(n / 10);
    } else {
      assert [Digit(n)][..0] == [];
    }
  }

  /** Digits only. */
  predicate AllDigits(s: string)
  {
    forall i :: 0 <= i < |s| ==> '0' <= s[i] <= '9'
  }

  /** A number below zero is written as a minus sign and the digits of its negation, any other as its digits. */
  lemma NumeralMeaning(v: int)
    ensures v < 0 ==>
              var s := Numeral(v);
              && |s| > 1 && s[0] == '-' && s[1] != '0'
              && AllDigits(s[1..]) && ValueOf(s[1..]) == -v
    ensures v >= 0 ==>
              && |Numeral(v)| > 0 && (v > 0 ==> Numeral(v)[0] != '0')
              && AllDigits(Numeral(v)) && ValueOf(Numeral(v)) == v
  {
    if v < 0 {
      DecimalMeaning(-v);
      assert Numeral(v)[1..] == Decimal(-v);
    } else {
      DecimalMeaning(v);
    }
  }

  /** The same of a numeral in front of other characters. */
  lemma NumeralInFront(s: string, n: nat, v: int)
    requires n <= |s| && s[..n] == Numeral(v)
    ensures v < 0 ==> n > 1 && s[0] == '-' && s[1] != '0' && AllDigits(s[1..n]) && ValueOf(s[1..n]) == -v
    ensures v >= 0 ==> n > 0 && (v > 0 ==> s[0] != '0') && AllDigits(s[..n]) && ValueOf(s[..n]) == v
  {
    NumeralMeaning(v);
    if v < 0 {
      assert s[1..n] == Numeral(v)[1..] && s[1] == Numeral(v)[1];
    }
  }

  function Pow10(k: nat): int
  {
    if k == 0 then 1 else 10 * Pow10(k - 1)
  }

  /** The first digit of a numeral weighs most. */
  lemma {:induction false} ValueOfFront(c: char, s: string)
    ensures ValueOf([c] + s) == (c as int - '0' as int) * Pow10(|s|) + ValueOf(s)
    decreases |s|
  {
    var t := [c] + s;
    if s == [] {
      assert t[..0] == [] && t[0] == c;
    } else {
      assert t[..|t| - 1] == [c] + s[..|s| - 1];
      ValueOfFront(c, s[..|s| - 1]);
    }
  }

  lemma {:induction false} Pow10Grows(i: nat, j: nat)
    requires i <= j
    ensures 0 < Pow10(i) <= Pow10(j)
    decreases j
  {
    if i < j { Pow10Grows(i, j - 1); } else if i > 0 { Pow10Grows(i - 1, j - 1); }
  }

  lemma Pow10Bounds()
    ensures Pow10(38) < B127 < 2 * Pow10(38) && B127 < Pow10(39)
  {
    assert Pow10(10) == 1_0000000000;
    assert Pow10(20) == 1_0000000000_0000000000;
    assert Pow10(30) == 1_0000000000_0000000000_0000000000;
    assert Pow10(38) == 1_00000000_0000000000_0000000000_0000000000;
  }

  /** Exactly `k` digits. */
  function Pad(x: int, k: nat): string
    requires 0 <= x < Pow10(k)
  {
    if k == 0 then [] else Pad(x / 10, k - 1) + [Digit(x % 10)]
  }

  lemma TopDigit(x: int, p: int)
    requires p > 0 && 0 <= x < 10 * p
    ensures 0 <= x / p < 10 && 0 <= x % p < p
  {
    var q := x / p;
    assert x == q * p + x % p;
    if q >= 10 {
      NonNegative(q - 10, p);
      MulMinus(q, 10, p);
    }
    if q < 0 {
      NonNegative(-1 - q, p);
      MulMinus(-1, q, p);
    }
  }

  /** The highest digit split off instead. */
  lemma {:induction false} PadTop(x: int, k: nat)
    requires 0 <= x < Pow10(k + 1)
    ensures Pow10(k) > 0 && 0 <= x / Pow10(k) < 10 && 0 <= x % Pow10(k) < Pow10(k)
    ensures Pad(x, k + 1) == [Digit(x / Pow10(k))] + Pad(x % Pow10(k), k)
  {
    var q := Pow10(k);
    Pow10Grows(0, k);
    TopDigit(x, q);
    if k > 0 {
      Pow10Grows(0, k - 1);
      PadTop(x / 10, k - 1);
      TenFold(x, Pow10(k - 1));
    } else {
      assert Pad(x / 10, 0) == [];
    }
  }

  lemma TenFold(x: int, p: int)
    requires p > 0 && 0 <= x
    ensures x / (10 * p) == x / 10 / p && x % (10 * p) % 10 == x % 10 && x % (10 * p) / 10 == x / 10 % p
  {
    var q, r := x / (10 * p), x % (10 * p);
    assert x == q * (10 * p) + r;
    assert q * (10 * p) == 10 * (q * p);
    assert x / 10 == q * p + r / 10 && x % 10 == r % 10;
    DivUnique(x / 10, p, q, r / 10);
  }

  lemma {:induction false} PadIsDecimal(x: int, k: nat)
    requires 0 < x < Pow10(k + 1) && Pow10(k) <= x
    ensures Pad(x, k + 1) == Decimal(x) && |Decimal(x)| == k + 1
  {
    if k > 0 {
      Pow10Grows(1, k);
      PadIsDecimal(x / 10, k - 1);
    } else {
      assert Pad(0, 0) == [];
    }
  }

  // ---- the loops of int128_str ----

  /** Ten times `p` in four additions, watching the sign after each. */
  method TimesTen(p: Int128, going0: bool) returns (r: Int128, going: bool)
    requires Value(p) > 0
    ensures Value(p) <= B127 / 10 - 1 ==> Value(r) == 10 * Value(p) && going == going0
    ensures 2 * Value(p) >= B127 ==> !going
  {
    going := going0;
    r := Plus(p, p);
    if Less(r, ZERO) { going := false; }
    var t := r;
    r := Plus(r, r);
    if Less(r, ZERO) { going := false; }
    r := Plus(r, r);
    if Less(r, ZERO) { going := false; }
    r := Plus(r, t);
    if Less(r, ZERO) { going := false; }
  }

  /** The number of digits of `x`; when the counter of powers of ten wraps, `going` stops the count at 39. */
  method CountDigits(x: Int128) returns (nd: nat)
    requires Value(x) != 0
    ensures Value(x) < 0 ==> nd == 0
    ensures Value(x) > 0 ==> 0 < nd <= 39 && Pow10(nd - 1) <= Value(x) < Pow10(nd)
  {
    var p10, going := ONE, true;
    nd := 0;
    Pow10Bounds();
    while LessEqual(p10, x) && going
      invariant nd <= 39
      invariant going ==> nd <= 38 && Value(p10) == Pow10(nd)
      invariant !going ==> nd == 39
      invariant nd > 0 ==> Pow10(nd - 1) <= Value(x)
      decreases 39 - nd
    {
      Pow10Grows(0, nd);
      if nd < 38 { Pow10Grows(nd + 1, 38); }
      p10, going := TimesTen(p10, going);
      nd := nd + 1;
    }
  }

  /** The power of ten of the current position, built up from one. */
  method TenTo(nd: nat) returns (p10: Int128)
    requires nd <= 38
    ensures Value(p10) == Pow10(nd)
  {
    p10 := ONE;
    Pow10Bounds();
    for i := 0 to nd
      invariant Value(p10) == Pow10(i)
    {
      Pow10Grows(0, i);
      Pow10Grows(i + 1, 38);
      p10 := Plus(p10, p10);
      var t := p10;
      p10 := Plus(p10, p10);
      p10 := Plus(p10, p10);
      p10 := Plus(p10, t);
    }
  }

  /** One digit by repeated subtraction. */
  method ExtractDigit(x0: Int128, p10: Int128) returns (d: int, x: Int128)
    requires 0 <= Value(x0) < 10 * Value(p10) && Value(p10) > 0
    ensures 0 <= d < 10 && d == Value(x0) / Value(p10) && Value(x) == Value(x0) % Value(p10)
  {
    d, x := 0, x0;
    ghost var taken := 0;
    while GreaterEqual(x, p10)
      invariant 0 <= d && taken == d * Value(p10)
      invariant Value(x) == Value(x0) - taken && Value(x) >= 0
      decreases Value(x)
    {
      x := Minus(x, p10);
      taken := taken + Value(p10);
      MulMinus(d + 1, 1, Value(p10));
      d := d + 1;
    }
    DivUnique(Value(x0), Value(p10), d, Value(x));
    TopDigit(Value(x0), Value(p10));
  }

  /** The text of `x0` and a terminating NUL, for every value but -2^127, whose text is a lone sign. */
  method Str(x0: Int128, s: array<char>) returns (n: nat)
    requires s.Length >= 41
    modifies s
    ensures n < s.Length && s[n] == 0 as char
    ensures s[..n] == if Value(x0) == -B127 then "-" else Numeral(Value(x0))
    ensures -B127 < Value(x0) < 0 ==>
              && n > 1 && s[0] == '-' && s[1] != '0'
              && AllDigits(s[1..n]) && ValueOf(s[1..n]) == -Value(x0)
    ensures Value(x0) >= 0 ==>
              && n > 0 && (Value(x0) > 0 ==> s[0] != '0')
              && AllDigits(s[..n]) && ValueOf(s[..n]) == Value(x0)
  {
    var x := x0;
    n := 0;
    if Less(x, ZERO) {
      s[n] := '-';
      n := 1;
      x := Negated(x);
    }
    ghost var sign := s[..n];
    assert sign == if Value(x0) < 0 then "-" else "";
    if x == ZERO {
      s[n] := '0';
      n := n + 1;
      assert s[..n] == sign + "0";
    } else {
      if Value(x) == 0 { ValueInjective(x, ZERO); }
      var nd := CountDigits(x);
      if Value(x) > 0 { PadIsDecimal(Value(x), nd - 1); }
      n := WriteDigits(x, nd, s, n);
    }
    ghost var text := s[..n];
    s[n] := 0 as char;
    assert s[..n] == text;
    if Value(x0) != -B127 {
      assert s[..][..n] == s[..n] && (n > 0 ==> s[..][1..n] == s[1..n]);
      NumeralInFront(s[..], n, Value(x0));
    }
  }

  /** What the extraction loop still has to write. */
  function Written(x: int, nd: nat): string
  {
    if nd > 0 && 0 <= x < Pow10(nd) then Pad(x, nd) else []
  }

  /** The digit at position `nd` taken off the front of what is to be written. */
  method NextDigit(x0: Int128, nd: nat) returns (d: int, x: Int128)
    requires nd <= 38 && 0 <= Value(x0) < Pow10(nd + 1)
    ensures 0 <= d < 10 && 0 <= Value(x) < Pow10(nd)
    ensures Written(Value(x0), nd + 1) == [Digit(d)] + Written(Value(x), nd)
  {
    PadTop(Value(x0), nd);
    var p10 := TenTo(nd);
    d, x := ExtractDigit(x0, p10);
  }

  /** The digits of `x0` from position `n0` on. */
  method WriteDigits(x0: Int128, nd0: nat, s: array<char>, n0: nat) returns (n: nat)
    requires nd0 <= 39 && n0 + nd0 < s.Length && (nd0 > 0 ==> 0 <= Value(x0) < Pow10(nd0))
    modifies s
    ensures n == n0 + nd0
    ensures s[..n] == old(s[..n0]) + Written(Value(x0), nd0)
  {
    var x, nd := x0, nd0;
    n := n0;
    ghost var goal := s[..n0] + Written(Value(x0), nd0);
    while nd > 0
      invariant 0 <= nd <= nd0 && n == n0 + nd0 - nd
      invariant nd > 0 ==> 0 <= Value(x) < Pow10(nd)
      invariant s[..n] + Written(Value(x), nd) == goal
    {
      ghost var before := s[..n];
      nd := nd - 1;
      var d;
      d, x := NextDigit(x, nd);
      s[n] := Digit(d);
      n := n + 1;
      assert s[..n] == before + [Digit(d)];
      Regroup(before, [Digit(d)], Written(Value(x), nd));
    }
  }

  lemma Regroup(a: string, b: string, c: string)
    ensures a + b + c == a + (b + c)
  {
  }

  /** The text is the numeral exactly when the value is not -2^127. */
  lemma TextExact(v: int)
    requires InRange(v)
    ensures (if v == -B127 then "-" else Numeral(v)) == Numeral(v) <==> v != -B127
    ensures |Numeral(v)| <= 40
  {
    if v == -B127 {
      DecimalMeaning(B127);
    }
    NumeralLength(v);
  }

  lemma NumeralLength(v: int)
    requires InRange(v)
    ensures |Numeral(v)| <= 40
  {
    Pow10Bounds();
    DigitsBelow(if v < 0 then -v else v, 38);
  }

  lemma {:induction false} DigitsBelow(n: nat, k: nat)
    requires n < Pow10(k + 1)
    ensures |Decimal(n)| <= k + 1
  {
    if n >= 10 {
      DigitsBelow(n / 10, k - 1);
    }
  }
}
