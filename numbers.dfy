/** Numbers: an `i64` or an `f64`; integers are promoted to floats when an
    operation mixes the two (src/number.rs). */
module Numbers {
  import opened Wrappers

  const TWO_63: int := 0x8000_0000_0000_0000
  const TWO_64: int := 0x1_0000_0000_0000_0000

  /** The values of Rust's `i64`. */
  type i64 = x: int | -TWO_63 <= x < TWO_63

  /** Two's-complement wrap-around of an integer into `i64`, which is what an
      overflowing `+`, `-` or `*` on `i64` produces in a release build. */
  function Wrap(x: int): (r: i64)
    ensures (r - x) % TWO_64 == 0
  {
    ((x + TWO_63) % TWO_64) - TWO_63
  }

  lemma WrapExact(x: int)
    requires -TWO_63 <= x < TWO_63
    ensures Wrap(x) == x
  {
  }

  /** IEEE 754 double precision without rounding: a finite value is held as
      an exact real, and the three special values are kept apart.  Signed
      zero is not distinguished. */
  datatype F64 = Finite(r: real) | PosInf | NegInf | NaN

  function FromInt(i: i64): F64 { Finite(i as real) }

  function FAdd(a: F64, b: F64): (r: F64)
    ensures a.Finite? && b.Finite? ==> r == Finite(a.r + b.r)
    ensures (a.NaN? || b.NaN?) ==> r.NaN?
  {
    match (a, b)
    case (NaN, _) => NaN
    case (_, NaN) => NaN
    case (PosInf, NegInf) => NaN
    case (NegInf, PosInf) => NaN
    case (PosInf, _) => PosInf
    case (NegInf, _) => NegInf
    case (_, PosInf) => PosInf
    case (_, NegInf) => NegInf
    case (Finite(x), Finite(y)) => Finite(x + y)
  }

  function FNeg(a: F64): F64 {
    match a
    case Finite(x) => Finite(-x)
    case PosInf => NegInf
    case NegInf => PosInf
    case NaN => NaN
  }

  function FSub(a: F64, b: F64): F64 { FAdd(a, FNeg(b)) }

  /** The sign of a value: 1, -1, or 0 for zero and NaN. */
  function Sign(a: F64): int {
    match a
    case Finite(x) => if x > 0.0 then 1 else if x < 0.0 then -1 else 0
    case PosInf => 1
    case NegInf => -1
    case NaN => 0
  }

  function SignedInf(s: int): F64 { if s < 0 then NegInf else PosInf }

  function FMul(a: F64, b: F64): (r: F64)
    ensures a.Finite? && b.Finite? ==> r == Finite(a.r * b.r)
  {
    if a.NaN? || b.NaN? then NaN
    else if a.Finite? && b.Finite? then Finite(a.r * b.r)
    // an infinity times zero is NaN, otherwise an infinity of the product's sign
    else if Sign(a) == 0 || Sign(b) == 0 then NaN
    else SignedInf(Sign(a) * Sign(b))
  }

  function FDiv(a: F64, b: F64): (r: F64)
    ensures a.Finite? && b.Finite? && b.r != 0.0 ==> r == Finite(a.r / b.r)
    ensures a.Finite? && a.r != 0.0 && b == Finite(0.0) ==> r == SignedInf(Sign(a))
  {
    if a.NaN? || b.NaN? then NaN
    else if a.Finite? && b.Finite? then
      if b.r != 0.0 then Finite(a.r / b.r)
      else if a.r == 0.0 then NaN
      else SignedInf(Sign(a))
    else if !a.Finite? && !b.Finite? then NaN
    else if b.Finite? then SignedInf(Sign(a) * (if Sign(b) < 0 then -1 else 1))
    else Finite(0.0)
  }

  /** IEEE ordering: every comparison involving NaN is false. */
  predicate FLt(a: F64, b: F64) {
    match (a, b)
    case (Finite(x), Finite(y)) => x < y
    case (NegInf, PosInf) => true
    case (NegInf, Finite(_)) => true
    case (Finite(_), PosInf) => true
    case _ => false
  }

  predicate FEq(a: F64, b: F64) { !a.NaN? && !b.NaN? && a == b }

  datatype Number = Int(i: i64) | Float(f: F64)

  /** `f64::from(Number)`: the value as a float (`i as f64`). */
  function AsF64(n: Number): F64 {
    match n
    case Int(i) => FromInt(i)
    case Float(f) => f
  }

  // The four arithmetic operators of Number (`Add`, `Sub`, `Mul`, `Div`).

  function Add(a: Number, b: Number): (r: Number)
    ensures r.Int? <==> a.Int? && b.Int?
  {
    if a.Int? && b.Int? then Int(Wrap(a.i + b.i)) else Float(FAdd(AsF64(a), AsF64(b)))
  }

  function Sub(a: Number, b: Number): (r: Number)
    ensures r.Int? <==> a.Int? && b.Int?
  {
    if a.Int? && b.Int? then Int(Wrap(a.i - b.i)) else Float(FSub(AsF64(a), AsF64(b)))
  }

  function Mul(a: Number, b: Number): (r: Number)
    ensures r.Int? <==> a.Int? && b.Int?
  {
    if a.Int? && b.Int? then Int(Wrap(a.i * b.i)) else Float(FMul(AsF64(a), AsF64(b)))
  }

  /** Division always converts both operands to floats. */
  function Div(a: Number, b: Number): (r: Number)
    ensures r.Float?
  {
    Float(FDiv(AsF64(a), AsF64(b)))
  }

  // The relational operators compare numeric values, whatever the variant.

  predicate Lt(a: Number, b: Number) {
    if a.Int? && b.Int? then a.i < b.i else FLt(AsF64(a), AsF64(b))
  }

  predicate Gt(a: Number, b: Number) { Lt(b, a) }

  predicate Eq(a: Number, b: Number) {
    if a.Int? && b.Int? then a.i == b.i else FEq(AsF64(a), AsF64(b))
  }

  predicate Le(a: Number, b: Number) { Lt(a, b) || Eq(a, b) }

  predicate Ge(a: Number, b: Number) { Gt(a, b) || Eq(a, b) }

  datatype Ordering = Less | Equal | Greater

  /** `partial_cmp`: `Less` when `<` holds, `Greater` when `>` holds, and
      `Equal` otherwise, which includes every comparison with NaN. */
  function PartialCmp(a: Number, b: Number): (r: Option<Ordering>)
    ensures r.Some?
    ensures r == Some(Less) <==> Lt(a, b)
    ensures r == Some(Greater) <==> Gt(a, b) && !Lt(a, b)
  {
    if Lt(a, b) then Some(Less) else if Gt(a, b) then Some(Greater) else Some(Equal)
  }

  /** `TryFrom<Number> for usize`: only a non-negative integer converts. */
  function ToUsize(n: Number): (r: Option<nat>)
    ensures r.Some? <==> n.Int? && n.i >= 0
    ensures r.Some? ==> r.value == n.i
  {
    if n.Int? && n.i >= 0 then Some(n.i) else None
  }

  function Abs(x: int): nat { if x < 0 then -x else x }

  /** The quotient of `a` by `b` rounded toward zero. */
  function TruncDiv(a: int, b: int): int
    requires b != 0
  {
    var q := Abs(a) / Abs(b);
    if (a < 0) != (b < 0) then -q else q
  }

  /** What rounding toward zero means: the product does not overshoot the
      dividend, the remainder is smaller than the divisor and has the sign of
      the dividend. */
  lemma TruncDivSpec(a: int, b: int)
    requires b != 0
    ensures Abs(TruncDiv(a, b) * b) <= Abs(a) && Abs(a - TruncDiv(a, b) * b) < Abs(b)
    ensures a - TruncDiv(a, b) * b == 0 || (a - TruncDiv(a, b) * b < 0 <==> a < 0)
  {
    var q := Abs(a) / Abs(b);
    var t := q * Abs(b);
    DivRemainder(Abs(a), Abs(b));
    assert TruncDiv(a, b) * b == (if a < 0 then -t else t) by {
      SignedProduct(a, b, q);
    }
  }

  /** Euclidean division of naturals, stated without division. */
  lemma DivRemainder(x: nat, y: nat)
    requires y > 0
    ensures 0 <= (x / y) * y <= x && x - (x / y) * y < y
  {
  }

  /** The signs of a quotient rounded toward zero and of its divisor
      together give the product the dividend's sign. */
  lemma SignedProduct(a: int, b: int, q: int)
    requires b != 0 && q == Abs(a) / Abs(b)
    ensures TruncDiv(a, b) * b == (if a < 0 then -(q * Abs(b)) else q * Abs(b))
  {
    var t := q * Abs(b);
    NegateMul(q, Abs(b));
    if a < 0 {
      if b < 0 { assert TruncDiv(a, b) == q; } else { assert TruncDiv(a, b) == -q; }
    } else {
      if b < 0 { assert TruncDiv(a, b) == -q; } else { assert TruncDiv(a, b) == q; }
    }
  }

  /** Multiplying by a negated factor negates the product. */
  lemma NegateMul(x: int, y: int)
    ensures (-x) * y == -(x * y) && x * (-y) == -(x * y) && (-x) * (-y) == x * y
  {
  }

  /** Only `i64::MIN / -1` leaves the range of `i64`. */
  lemma TruncDivFits(a: i64, b: i64)
    requires b != 0 && !(a == -TWO_63 && b == -1)
    ensures -TWO_63 <= TruncDiv(a, b) < TWO_63
  {
    var bigA, bigB := Abs(a), Abs(b);
    var q := bigA / bigB;
    assert bigA == q * bigB + bigA % bigB;
    if bigB == 1 {
      assert q == bigA;
    } else {
      MulAtLeastDouble(q, bigB);
    }
  }

  lemma MulAtLeastDouble(q: nat, k: nat)
    requires k >= 2
    ensures q * k >= 2 * q
  {
    var d := k - 2;
    assert q * k == q * d + 2 * q;
  }

  /** Rust's `/` on `i64`, which rounds toward zero; `None` where Rust panics:
      a zero divisor, or `i64::MIN / -1`, whose quotient does not fit. */
  function Quotient(a: i64, b: i64): (r: Option<i64>)
    ensures r.None? <==> b == 0 || (a == -TWO_63 && b == -1)
    ensures r.Some? ==> Abs(r.value * b) <= Abs(a) && Abs(a - r.value * b) < Abs(b)
    ensures r.Some? ==> a - r.value * b == 0 || (a - r.value * b < 0 <==> a < 0)
  {
    if b == 0 || (a == -TWO_63 && b == -1) then None
    else
      TruncDivSpec(a, b);
      TruncDivFits(a, b);
      Some(TruncDiv(a, b))
  }

  /** Rust's `%` on `i64`: the remainder of `Quotient`, so it has the sign of
      the dividend; `None` exactly where `/` panics. */
  function Remainder(a: i64, b: i64): (r: Option<i64>)
    ensures r.None? <==> b == 0 || (a == -TWO_63 && b == -1)
    ensures r.Some? ==> Abs(r.value) < Abs(b)
    ensures r.Some? ==> r.value == 0 || (r.value < 0 <==> a < 0)
  {
    match Quotient(a, b)
    case None => None
    case Some(q) => Some(a - q * b)
  }

  /** The quotient and the remainder recompose the dividend. */
  lemma QuotientRemainder(a: i64, b: i64)
    requires Quotient(a, b).Some?
    ensures Remainder(a, b).Some? && Quotient(a, b).value * b + Remainder(a, b).value == a
  {
  }

  /** Division rounds toward zero, unlike Dafny's own `/` and `%`. */
  lemma TruncatesTowardZero()
    ensures Quotient(-7, 2) == Some(-3) && Remainder(-7, 2) == Some(-1)
    ensures Quotient(7, -2) == Some(-3) && Remainder(7, -2) == Some(1)
    ensures Quotient(-7, -2) == Some(3) && Remainder(-7, -2) == Some(-1)
  {
  }

  /** Integer addition, subtraction and multiplication are exact whenever the
      mathematical result fits in `i64`. */
  lemma IntArithExact(a: i64, b: i64)
    ensures -TWO_63 <= a + b < TWO_63 ==> Add(Int(a), Int(b)) == Int(a + b)
    ensures -TWO_63 <= a - b < TWO_63 ==> Sub(Int(a), Int(b)) == Int(a - b)
    ensures -TWO_63 <= a * b < TWO_63 ==> Mul(Int(a), Int(b)) == Int(a * b)
  {
    if -TWO_63 <= a + b < TWO_63 { WrapExact(a + b); }
    if -TWO_63 <= a - b < TWO_63 { WrapExact(a - b); }
    if -TWO_63 <= a * b < TWO_63 { WrapExact(a * b); }
  }

  /** An overflowing integer addition wraps around rather than promoting. */
  lemma AddWraps()
    ensures Add(Int(TWO_63 - 1), Int(1)) == Int(-TWO_63)
  {
  }

  /** Mixed arithmetic promotes the integer operand. */
  lemma MixedPromotes(a: i64, x: real)
    ensures Add(Int(a), Float(Finite(x))) == Float(Finite(a as real + x))
    ensures Mul(Float(Finite(x)), Int(a)) == Float(Finite(x * a as real))
  {
  }

  /** Division of two integers yields a float even when it is exact, and the
      float holds the real quotient. */
  lemma DivOfInts(a: i64, b: i64)
    requires b != 0
    ensures Div(Int(a), Int(b)) == Float(Finite(a as real / b as real))
  {
  }

  /** Equality is by numeric value across the two variants. */
  lemma EqAcrossVariants(a: i64)
    ensures Eq(Int(a), Float(Finite(a as real)))
    ensures Eq(Float(Finite(a as real)), Int(a))
  {
  }

  /** NaN is not equal to itself, so `Eq for Number` is not reflexive, and
      `partial_cmp` answers `Equal` for it all the same. */
  lemma NaNQuirks()
    ensures !Eq(Float(NaN), Float(NaN))
    ensures PartialCmp(Float(NaN), Int(0)) == Some(Equal)
  {
  }

  /** Away from NaN, the three answers of `partial_cmp` agree with `<`, `==`
      and `>`, and exactly one of those holds. */
  lemma {:induction false} TotalAwayFromNaN(a: Number, b: Number)
    requires !AsF64(a).NaN? && !AsF64(b).NaN?
    ensures PartialCmp(a, b) == Some(Equal) <==> Eq(a, b)
    ensures Lt(a, b) ==> !Eq(a, b) && !Gt(a, b)
  {
    if a.Int? && b.Int? {
    } else {
      var x, y := AsF64(a), AsF64(b);
      match (x, y)
      case (Finite(_), Finite(_)) =>
      case _ =>
    }
  }
}
