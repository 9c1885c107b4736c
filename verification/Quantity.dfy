/** Fixed-point money (src/common): quantities, their decimal text, and scaled products. */
module Quantity {
  const FACTOR: int := 100_000_000

  const TWO_63: int := 0x8000_0000_0000_0000

  predicate InInt64(x: int) {
    -TWO_63 <= x < TWO_63
  }

  /** Keep the low 64 bits, read as a signed number. */
  function ToInt64(x: int): (r: int)
    ensures InInt64(r)
    ensures InInt64(x) ==> r == x
    ensures (x - r) % (2 * TWO_63) == 0
  {
    var m := x % (2 * TWO_63);
    if m < TWO_63 then m else m - 2 * TWO_63
  }

  function Abs(x: int): nat {
    if x < 0 then -x else x
  }

  function Sign(x: int): int {
    if x < 0 then -1 else if x == 0 then 0 else 1
  }

  function Quotient(a: nat, b: nat): (q: nat)
    requires b > 0
    ensures q * b <= a < (q + 1) * b
  {
    assert a == b * (a / b) + a % b;
    a / b
  }

  function Remainder(a: nat, b: nat): (r: nat)
    requires b > 0
    ensures r < b && a == Quotient(a, b) * b + r
  {
    a - Quotient(a, b) * b
  }

  /** Division that truncates toward zero, as C++ divides integers. */
  function TruncDiv(a: int, b: int): int
    requires b != 0
  {
    var q: int := Quotient(Abs(a), Abs(b));
    if (a < 0) != (b < 0) then -q else q
  }

  datatype Error =
    | EmptyString | BareMinus | IntegerOverflow | MalformedInteger | UnexpectedChar(c: char)
    | DivisionByZero

  datatype Result<+T> = Ok(value: T) | Err(error: Error)

  /** The product is formed in 128 bits, divided, and cut down to 64 bits. */
  function MulDiv(lhs: int, rhs: int, divisor: int): (r: int)
    requires InInt64(lhs) && InInt64(rhs) && InInt64(divisor) && divisor != 0
    ensures InInt64(r)
  {
    ToInt64(TruncDiv(lhs * rhs, divisor))
  }

  lemma ProductMonotone(a: nat, b: nat, x: nat, y: nat)
    requires a <= x && b <= y
    ensures a * b <= x * y
  {
    calc {
      x * y - a * b;
      (x - a) * y + a * (y - b);
    }
  }

  /** The product of two 64-bit numbers always fits 128 bits. */
  lemma ProductFits(a: int, b: int)
    requires InInt64(a) && InInt64(b)
    ensures -0x8000_0000_0000_0000_0000_0000_0000_0000 <= a * b < 0x8000_0000_0000_0000_0000_0000_0000_0000
  {
    ProductMonotone(Abs(a), Abs(b), TWO_63, TWO_63);
    AbsProduct(a, b);
  }

  /** Multiply by a quantity. */
  function MulByQuantity(lhs: int, quantity: int): int
    requires InInt64(lhs) && InInt64(quantity)
  {
    MulDiv(lhs, quantity, FACTOR)
  }

  /** Divide by a quantity. */
  function DivBy(lhs: int, quantity: int): Result<int>
    requires InInt64(lhs) && InInt64(quantity)
  {
    if quantity == 0 then Err(DivisionByZero) else Ok(MulDiv(lhs, FACTOR, quantity))
  }

  lemma TruncDivBounds(a: int, b: int)
    requires b != 0
    ensures Abs(TruncDiv(a, b)) == Quotient(Abs(a), Abs(b))
    ensures Abs(TruncDiv(a, b)) * Abs(b) <= Abs(a) < (Abs(TruncDiv(a, b)) + 1) * Abs(b)
    ensures TruncDiv(a, b) != 0 ==> Sign(TruncDiv(a, b)) == Sign(a) * Sign(b)
  {
  }

  /** Dividing by at least one whole unit does not make an amount larger. */
  lemma DivByWholeUnitsShrinks(c: int, q: int)
    requires Abs(q) >= FACTOR
    ensures Abs(TruncDiv(c * FACTOR, q)) <= Abs(c)
    ensures Abs(TruncDiv(c * FACTOR, q)) == Abs(c) ==> c == 0 || Abs(q) == FACTOR
  {
    var t := TruncDiv(c * FACTOR, q);
    TruncDivBounds(c * FACTOR, q);
    AbsProduct(c, FACTOR);
    if Abs(t) > Abs(c) {
      ProductMonotone(Abs(c) + 1, FACTOR, Abs(t), Abs(q));
      assert false;
    }
    if Abs(t) == Abs(c) && c != 0 && Abs(q) > FACTOR {
      ProductMonotone(Abs(c), FACTOR + 1, Abs(c), Abs(q));
      assert false;
    }
  }

  /**
   * Dividing by at least one whole unit fits 64 bits except for the most negative amount divided by
   * minus one unit.
   */
  lemma DivByWholeUnitsFitsExactlyWhen(c: int, q: int)
    requires InInt64(c) && InInt64(q) && Abs(q) >= FACTOR
    ensures InInt64(TruncDiv(c * FACTOR, q)) <==> !(c == -TWO_63 && q == -FACTOR)
  {
    DivByWholeUnitsShrinks(c, q);
  }

  lemma FloorTwice(c: nat, q: nat, f: nat, k: nat, r: nat)
    requires q > 0 && f > 0
    requires k * q <= c * f < (k + 1) * q
    requires r * f <= k * q < (r + 1) * f
    ensures r <= c
    ensures (c - r) * f < q + f
  {
    if r > c {
      ProductMonotone(c + 1, f, r, f);
      assert false;
    }
    assert (c - r) * f == c * f - r * f;
    assert (k + 1) * q == k * q + q;
    assert (r + 1) * f == r * f + f;
  }

  /**
   * Dividing by a quantity and multiplying back never overshoots, never changes the sign, and
   * loses less than |q| / 10^8 + 1 micro-units, whenever the quotient fits 64 bits.
   */
  lemma DivideThenMultiply(c: int, q: int)
    requires InInt64(c) && InInt64(q) && q != 0
    requires InInt64(TruncDiv(c * FACTOR, q))
    ensures DivBy(c, q).Ok?
    ensures var back := MulByQuantity(DivBy(c, q).value, q);
            && Abs(back) <= Abs(c)
            && (back != 0 ==> Sign(back) == Sign(c))
            && (Abs(c) - Abs(back)) * FACTOR < Abs(q) + FACTOR
            && (Abs(q) <= FACTOR ==> Abs(c) - Abs(back) <= 1)
  {
    var t := TruncDiv(c * FACTOR, q);
    var b := TruncDiv(t * q, FACTOR);
    TruncDivBounds(c * FACTOR, q);
    TruncDivBounds(t * q, FACTOR);
    assert Abs(c * FACTOR) == Abs(c) * FACTOR;
    AbsProduct(t, q);
    FloorTwice(Abs(c), Abs(q), FACTOR, Abs(t), Abs(b));
    assert InInt64(b);
    if b != 0 {
      SignProduct(t, q);
      assert t != 0;
    }
  }

  lemma AbsProduct(a: int, b: int)
    ensures Abs(a * b) == Abs(a) * Abs(b)
  {
  }

  lemma SignProduct(a: int, b: int)
    ensures Sign(a * b) == Sign(a) * Sign(b)
  {
  }

  // ------------------------------------------------------------------------ what the quotients are

  /** t is the quotient of two numbers, rounded toward zero. */
  predicate IsTruncated(t: int, num: int, den: int) {
    && Abs(t) * Abs(den) <= Abs(num) < (Abs(t) + 1) * Abs(den)
    && (t != 0 ==> Sign(t) == Sign(num) * Sign(den))
  }

  /** The quotient rounded toward zero lies within 64 bits. */
  predicate QuotientFits(num: int, den: int) {
    Abs(num) < (if (num < 0) != (den < 0) then TWO_63 + 1 else TWO_63) * Abs(den)
  }

  lemma TruncatedIsUnique(s: int, t: int, num: int, den: int)
    requires den != 0 && IsTruncated(s, num, den) && IsTruncated(t, num, den)
    ensures s == t
  {
    if Abs(s) < Abs(t) {
      ProductMonotone(Abs(s) + 1, Abs(den), Abs(t), Abs(den));
      assert false;
    } else if Abs(t) < Abs(s) {
      ProductMonotone(Abs(t) + 1, Abs(den), Abs(s), Abs(den));
      assert false;
    }
  }

  lemma TruncatedFitsExactlyWhen(t: int, num: int, den: int)
    requires den != 0 && IsTruncated(t, num, den)
    ensures InInt64(t) <==> QuotientFits(num, den)
  {
    var limit := if (num < 0) != (den < 0) then TWO_63 + 1 else TWO_63;
    if Abs(t) < limit {
      ProductMonotone(Abs(t) + 1, Abs(den), limit, Abs(den));
    } else {
      ProductMonotone(limit, Abs(den), Abs(t), Abs(den));
    }
    if t != 0 {
      assert t < 0 <==> (num < 0) != (den < 0);
    }
  }

  /**
   * The scaled product is the true quotient rounded toward zero exactly when that fits 64 bits;
   * otherwise it differs from it by a multiple of 2^64.
   */
  lemma MulDivTruncatesExactlyWhen(lhs: int, rhs: int, divisor: int)
    requires InInt64(lhs) && InInt64(rhs) && InInt64(divisor) && divisor != 0
    ensures IsTruncated(MulDiv(lhs, rhs, divisor), lhs * rhs, divisor) <==> QuotientFits(lhs * rhs, divisor)
    ensures exists t :: IsTruncated(t, lhs * rhs, divisor)
                    && (t - MulDiv(lhs, rhs, divisor)) % 18_446_744_073_709_551_616 == 0
  {
    var t, r := TruncDiv(lhs * rhs, divisor), MulDiv(lhs, rhs, divisor);
    TruncDivBounds(lhs * rhs, divisor);
    assert IsTruncated(t, lhs * rhs, divisor);
    TruncatedFitsExactlyWhen(t, lhs * rhs, divisor);
    if IsTruncated(r, lhs * rhs, divisor) {
      TruncatedIsUnique(r, t, lhs * rhs, divisor);
    }
  }

  /** An amount times a quantity: the product over 10^8, rounded toward zero, exactly when that fits. */
  lemma MulByQuantityTruncatesExactlyWhen(a: int, q: int)
    requires InInt64(a) && InInt64(q)
    ensures IsTruncated(MulByQuantity(a, q), a * q, 100_000_000) <==> QuotientFits(a * q, 100_000_000)
    ensures exists t :: IsTruncated(t, a * q, 100_000_000)
                    && (t - MulByQuantity(a, q)) % 18_446_744_073_709_551_616 == 0
  {
    MulDivTruncatesExactlyWhen(a, q, FACTOR);
  }

  /**
   * An amount over a quantity: the amount times 10^8 over the quantity, rounded toward zero, exactly
   * when that fits; an error for the quantity zero and for no other.
   */
  lemma DivByTruncatesExactlyWhen(a: int, q: int)
    requires InInt64(a) && InInt64(q)
    ensures DivBy(a, q) == Err(DivisionByZero) <==> q == 0
    ensures q != 0 ==> DivBy(a, q).Ok?
    ensures q != 0 ==>
      (IsTruncated(DivBy(a, q).value, a * 100_000_000, q) <==> QuotientFits(a * 100_000_000, q))
    ensures q != 0 ==> exists t :: IsTruncated(t, a * 100_000_000, q)
                               && (t - DivBy(a, q).value) % 18_446_744_073_709_551_616 == 0
  {
    if q != 0 {
      MulDivTruncatesExactlyWhen(a, FACTOR, q);
    }
  }
}
