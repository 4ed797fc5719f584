/** int128.hpp: 128-bit two's complement integers made of a signed high and an unsigned low word. */
module Int128s {

  const B32: int := 0x1_0000_0000
  const B63: int := 0x8000_0000_0000_0000
  const B64: int := 0x1_0000_0000_0000_0000
  const B127: int := 0x8000_0000_0000_0000_0000_0000_0000_0000
  const B128: int := 0x1_0000_0000_0000_0000_0000_0000_0000_0000

  type Word = x: int | 0 <= x < 0x1_0000_0000_0000_0000
  type SignedWord = x: int | -0x8000_0000_0000_0000 <= x < 0x8000_0000_0000_0000

  datatype Int128 = Int128(high: SignedWord, low: Word)

  /** Machine arithmetic keeps the low 64 bits of a result. */
  function Wrap(x: int): Word
  {
    x % B64
  }

  function Signed(w: Word): SignedWord
  {
    if w < B63 then w else w - B64
  }

  /** The integer a pair of words stands for. */
  function Value(x: Int128): (v: int)
    ensures -B127 <= v < B127
  {
    x.high * B64 + x.low
  }

  /** The representative of `v` modulo 2^128 in the range of the type. */
  function Reduce(v: int): int
  {
    if v % B128 < B127 then v % B128 else v % B128 - B128
  }

  lemma ReduceUnique(v: int, w: int, k: int)
    requires v == w + k * B128 && -B127 <= w < B127
    ensures Reduce(v) == w
  {
  }

  lemma ReduceWitness(v: int) returns (k: int)
    ensures v == Reduce(v) + k * B128 && -B127 <= Reduce(v) < B127
  {
    k := (v - Reduce(v)) / B128;
  }

  lemma ValueInjective(x: Int128, y: Int128)
    requires Value(x) == Value(y)
    ensures x == y
  {
  }

  /** Reducing a factor first does not change the reduced product. */
  lemma ReduceMul(a: int, b: int)
    ensures Reduce(Reduce(a) * b) == Reduce(a * b)
  {
    var k := ReduceWitness(a);
    var m := ReduceWitness(Reduce(a) * b);
    assert a * b == (Reduce(a) + k * B128) * b == Reduce(a) * b + k * B128 * b;
    assert k * B128 * b == (k * b) * B128 by { MulSwap(k, B128, b); }
    ReduceUnique(a * b, Reduce(Reduce(a) * b), m + k * b);
  }

  lemma MulSwap(a: int, b: int, c: int)
    ensures a * b * c == (a * c) * b
  {
  }

  // ---- comparison ----

  predicate Less(x: Int128, y: Int128)
    ensures Less(x, y) <==> Value(x) < Value(y)
  {
    if x.high < y.high then true
    else if y.high < x.high then false
    else x.low < y.low
  }

  predicate LessEqual(x: Int128, y: Int128)
    ensures LessEqual(x, y) <==> Value(x) <= Value(y)
  {
    if x.high == y.high && x.low == y.low then true
    else if x.high < y.high then true
    else if y.high < x.high then false
    else x.low < y.low
  }

  predicate GreaterEqual(x: Int128, y: Int128)
    ensures GreaterEqual(x, y) <==> Value(x) >= Value(y)
  {
    if x.high == y.high && x.low == y.low then true
    else if x.high > y.high then true
    else if y.high > x.high then false
    else x.low > y.low
  }

  // ---- addition, subtraction, negation, shift ----

  /** The test of the low words after the wrap tells whether there was a carry, or a borrow. */
  lemma LowSum(a: Word, b: Word)
    ensures a + b == Wrap(a + b) + (if Wrap(a + b) < b then 1 else 0) * B64
  {
  }

  lemma LowDifference(a: Word, b: Word)
    ensures a - b == Wrap(a - b) - (if Wrap(a - b) > a then 1 else 0) * B64
  {
  }

  function Add(x: Int128, y: Int128): (r: Int128)
    ensures Value(r) == Reduce(Value(x) + Value(y))
  {
    var low := Wrap(x.low + y.low);
    var high := Signed(Wrap(x.high + y.high));
    var carry := if low < y.low then 1 else 0;
    LowSum(x.low, y.low);
    SignedStays(high);
    Carried(Value(x) + Value(y), x.high + y.high, carry, low);
    Int128(if low < y.low then Signed(Wrap(high + 1)) else high, low)
  }

  function Sub(x: Int128, y: Int128): (r: Int128)
    ensures Value(r) == Reduce(Value(x) - Value(y))
  {
    var low := Wrap(x.low - y.low);
    var high := Signed(Wrap(x.high - y.high));
    var borrow := if low > x.low then 1 else 0;
    LowDifference(x.low, y.low);
    SignedStays(high);
    Carried(Value(x) - Value(y), x.high - y.high, -borrow, low);
    Int128(if low > x.low then Signed(Wrap(high - 1)) else high, low)
  }

  /** Complement and add one; -2^127 is its own negation. */
  function Neg(x: Int128): (r: Int128)
    ensures Value(r) == Reduce(-Value(x))
  {
    var high, low := -1 - x.high, Wrap(B64 - 1 - x.low + 1);
    var carry := if low == 0 then 1 else 0;
    assert B64 - x.low == low + carry * B64;
    SignedStays(high);
    Carried(-Value(x), high, carry, low);
    Int128(if low == 0 then Signed(Wrap(high + 1)) else high, low)
  }

  lemma SignedWrap(x: int)
    ensures Signed(Wrap(x)) == x - (x + B63) / B64 * B64
  {
  }

  lemma SignedStays(x: SignedWord)
    ensures Signed(Wrap(x)) == x
  {
  }

  /** A high word that wrapped once and took a carry after that still gives the reduced value. */
  lemma Carried(v: int, high: int, carry: int, low: Word)
    requires v == (high + carry) * B64 + low && -1 <= carry <= 1
    ensures Value(Int128(Signed(Wrap(Signed(Wrap(high)) + carry)), low)) == Reduce(v)
  {
    SignedWrap(high);
    SignedWrap(Signed(Wrap(high)) + carry);
    var k := (high + B63) / B64 + (Signed(Wrap(high)) + carry + B63) / B64;
    ReduceUnique(v, Value(Int128(Signed(Wrap(Signed(Wrap(high)) + carry)), low)), k);
  }

  /** Disjoint bit patterns joined: `hi` has only bits from 2^`bits` up, `lo` only bits below. */
  function Join(hi: Word, lo: Word, unit: int): Word
    requires unit > 0 && hi % unit == 0 && lo < unit && hi + unit <= B64
  {
    hi + lo
  }

  /** Arithmetic shift by one: the low bit of the high word moves into the low word. */
  function Shr(x: Int128): (r: Int128)
    ensures Value(r) == Value(x) / 2
  {
    Int128(x.high / 2, Join(Wrap(x.high * B63), x.low / 2, B63))
  }

  // ---- multiplication ----

  /** A sum kept in one word, and whether it overflowed. */
  function AddCarry(acc: Word, term: int): (r: (Word, int))
    requires 0 <= term < B64
    ensures r.0 + r.1 * B64 == acc + term && 0 <= r.1 <= 1
  {
    var sum := Wrap(acc + term);
    (sum, if sum < acc then 1 else 0)
  }

  /** The product of two 32-bit limbs fits in a word. */
  type LimbProduct = p: int | 0 <= p <= 0xFFFF_FFFE_0000_0001

  function Times(a: int, b: int): LimbProduct
    requires 0 <= a < B32 && 0 <= b < B32
  {
    TimesBound(a, b);
    a * b
  }

  lemma TimesBound(a: int, b: int)
    requires 0 <= a < B32 && 0 <= b < B32
    ensures 0 <= a * b <= 0xFFFF_FFFE_0000_0001
  {
    NonNegative(a, b);
    NonNegative(B32 - 1 - a, b);
    MulMinus(B32 - 1, a, b);
  }

  lemma NonNegative(a: int, b: int)
    requires a >= 0 && b >= 0
    ensures a * b >= 0
  {
  }

  lemma MulMinus(a: int, b: int, c: int)
    ensures (a - b) * c == a * c - b * c
  {
  }

  /** The schoolbook product on 32-bit limbs, columns from the right, of which only the low 128 bits are
      kept. (x is a b c d, y is e f g h.) */
  function Mult1(x: Int128, y: Int128): (r: Int128)
    ensures Value(r) == Reduce(Value(x) * Value(y))
  {
    var (d, c, b, a) := (x.low % B32, x.low / B32, Wrap(x.high) % B32, Wrap(x.high) / B32);
    var (h, g, f, e) := (y.low % B32, y.low / B32, Wrap(y.high) % B32, Wrap(y.high) / B32);
    Product(x, y, a, b, c, d, e, f, g, h);
    AddColumns(Times(d, h), Times(c, h), Times(d, g), Times(b, h), Times(c, g), Times(d, f),
               Times(a, h), Times(b, g), Times(c, f), Times(d, e))
  }

  /** A column sum moved down by one limb, with its carries on top: `(s >> 32) | (k << 32)`. */
  function Down(s: Word, k: int): (r: Word)
    requires 0 <= k <= 3
    ensures r == s / B32 + k * B32
  {
    Join(k * B32, s / B32, B32)
  }

  /** The low limb of a column sum placed above the limb `lo`: `lo | (s << 32)`. */
  function Place(s: Word, lo: int): (r: Word)
    requires 0 <= lo < B32
    ensures r == s % B32 * B32 + lo
  {
    ShiftUp(s);
    Join(Wrap(s * B32), lo, B32)
  }

  function AddTwo(acc: Word, p: LimbProduct, q: LimbProduct): (r: (Word, int))
    ensures r.0 + r.1 * B64 == acc + p + q && 0 <= r.1 <= 2
  {
    var (s1, k1) := AddCarry(acc, p);
    var (s2, k2) := AddCarry(s1, q);
    (s2, k1 + k2)
  }

  function AddThree(acc: Word, p: LimbProduct, q: LimbProduct, o: LimbProduct): (r: (Word, int))
    ensures r.0 + r.1 * B64 == acc + p + q + o && 0 <= r.1 <= 3
  {
    var (s1, k1) := AddCarry(acc, p);
    var (s2, k2) := AddCarry(s1, q);
    var (s3, k3) := AddCarry(s2, o);
    (s3, k1 + k2 + k3)
  }

  function AddFour(acc: Word, p: LimbProduct, q: LimbProduct, o: LimbProduct, n: LimbProduct): (r: Word)
    ensures r == Wrap(acc + (p + q + o + n))
  {
    WrapOnce(acc + p, q);
    WrapOnce(acc + p + q, o);
    WrapOnce(acc + p + q + o, n);
    Wrap(Wrap(Wrap(Wrap(acc + p) + q) + o) + n)
  }

  /** A sum may be wrapped in between. */
  lemma WrapOnce(a: int, b: int)
    ensures Wrap(Wrap(a) + b) == Wrap(a + b)
  {
  }

  /** The accumulation of `mult1`, every carry included. */
  function AddColumns(dh: LimbProduct, ch: LimbProduct, dg: LimbProduct, bh: LimbProduct, cg: LimbProduct, df: LimbProduct,
                      ah: LimbProduct, bg: LimbProduct, cf: LimbProduct, de: LimbProduct): (r: Int128)
    ensures Value(r) == Reduce(dh + (ch + dg) * B32 + (bh + cg + df) * B64 + (ah + bg + cf + de) * (B64 * B32))
  {
    var (s2, k) := AddTwo(dh / B32, ch, dg);
    var low := Place(s2, dh % B32);
    var (s5, m) := AddThree(Down(s2, k), bh, cg, df);
    var u := Down(s5, m);
    var s6 := AddFour(u, ah, bg, cf, de);
    var high := Place(s6, s5 % B32);
    Columns(dh, ch + dg, bh + cg + df, ah + bg + cf + de, low, high, s2, k, s5, m, u, s6);
    Int128(Signed(high), low)
  }

  lemma ShiftUp(s: Word)
    ensures Wrap(s * B32) == s % B32 * B32
  {
  }

  /** The four columns, added with their carries, give the two words up to a multiple of 2^128. */
  lemma Columns(col0: int, col1: int, col2: int, col3: int, low: Word, high: Word,
                s2: Word, k: int, s5: Word, m: int, u: int, s6: Word)
    requires s2 + k * B64 == col0 / B32 + col1
    requires low == s2 % B32 * B32 + col0 % B32
    requires s5 + m * B64 == s2 / B32 + k * B32 + col2
    requires u == s5 / B32 + m * B32
    requires s6 == Wrap(u + col3)
    requires high == s6 % B32 * B32 + s5 % B32
    ensures Value(Int128(Signed(high), low)) == Reduce(col0 + col1 * B32 + col2 * B64 + col3 * (B64 * B32))
  {
    var q := (u + col3) / B64;
    assert u + col3 == s6 + q * B64;
    var rest := (s6 / B32 + q * B32);
    var n := if high < B63 then 0 else 1;
    assert col0 + col1 * B32 + col2 * B64 + col3 * (B64 * B32) == low + high * B64 + rest * B128;
    ReduceUnique(col0 + col1 * B32 + col2 * B64 + col3 * (B64 * B32), Value(Int128(Signed(high), low)), rest + n);
  }

  lemma Expand(a: int, b: int, c: int, d: int, e: int, f: int, g: int, h: int)
    ensures (a * (B64 * B32) + b * B64 + c * B32 + d) * (e * (B64 * B32) + f * B64 + g * B32 + h) ==
            d * h + (c * h + d * g) * B32 + (b * h + c * g + d * f) * B64 + (a * h + b * g + c * f + d * e) * (B64 * B32)
            + (a * g + b * f + c * e + (a * f + b * e) * B32 + a * e * B64) * B128
  {
    var y := e * (B64 * B32) + f * B64 + g * B32 + h;
    Scale(a, e, f, g, h);
    Scale(b, e, f, g, h);
    Scale(c, e, f, g, h);
    Scale(d, e, f, g, h);
    assert (a * (B64 * B32) + b * B64 + c * B32 + d) * y == a * y * (B64 * B32) + b * y * B64 + c * y * B32 + d * y;
  }

  lemma Scale(a: int, e: int, f: int, g: int, h: int)
    ensures a * (e * (B64 * B32) + f * B64 + g * B32 + h) == a * e * (B64 * B32) + a * f * B64 + a * g * B32 + a * h
  {
  }

  /** The signed values multiply like the limbs of the unsigned ones, up to a multiple of 2^128. */
  lemma Product(x: Int128, y: Int128, a: int, b: int, c: int, d: int, e: int, f: int, g: int, h: int)
    requires x.low == c * B32 + d && Wrap(x.high) == a * B32 + b
    requires y.low == g * B32 + h && Wrap(y.high) == e * B32 + f
    ensures Reduce(Value(x) * Value(y)) ==
            Reduce(d * h + (c * h + d * g) * B32 + (b * h + c * g + d * f) * B64 + (a * h + b * g + c * f + d * e) * (B64 * B32))
  {
    var ux, uy := Wrap(x.high) * B64 + x.low, Wrap(y.high) * B64 + y.low;
    Expand(a, b, c, d, e, f, g, h);
    Unsigned(x, y, ux, uy);
    LowPart(ux * uy,
            d * h + (c * h + d * g) * B32 + (b * h + c * g + d * f) * B64 + (a * h + b * g + c * f + d * e) * (B64 * B32),
            a * g + b * f + c * e + (a * f + b * e) * B32 + a * e * B64);
  }

  lemma LowPart(v: int, low: int, k: int)
    requires v == low + k * B128
    ensures Reduce(v) == Reduce(low)
  {
    ReduceAdd(low, k);
  }

  lemma ReduceAdd(v: int, k: int)
    ensures Reduce(v + k * B128) == Reduce(v)
  {
    var m := ReduceWitness(v);
    ReduceUnique(v + k * B128, Reduce(v), m + k);
  }

  lemma Unsigned(x: Int128, y: Int128, ux: int, uy: int)
    requires ux == Wrap(x.high) * B64 + x.low && uy == Wrap(y.high) * B64 + y.low
    ensures Reduce(Value(x) * Value(y)) == Reduce(ux * uy)
  {
    var (i, j) := (if x.high < 0 then 1 else 0, if y.high < 0 then 1 else 0);
    assert Value(x) == ux - i * B128 && Value(y) == uy - j * B128;
    SignedProduct(ux, uy, i, j);
    ReduceAdd(ux * uy, - i * uy - j * ux + i * j * B128);
  }

  lemma SignedProduct(ux: int, uy: int, i: int, j: int)
    ensures (ux - i * B128) * (uy - j * B128) == ux * uy + (- i * uy - j * ux + i * j * B128) * B128
  {
    assert (ux - i * B128) * (uy - j * B128) == ux * (uy - j * B128) - i * B128 * (uy - j * B128);
    assert ux * (uy - j * B128) == ux * uy - ux * j * B128;
    assert i * (uy - j * B128) == i * uy - i * j * B128;
  }
}
