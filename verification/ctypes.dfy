/** Fixed-width integers, C's truncating division and the small failure
    datatypes shared by every other module. */
module CTypes {

  /** C's `uint16_t`, as an ordered integer (palette colours are compared
      numerically and never combined arithmetically). */
  newtype u16 = x: int | 0 <= x < 0x1_0000

  const INT32_MAX: int := 0x7FFF_FFFF
  const INT32_MIN: int := -0x8000_0000

  datatype Option<+T> = None | Some(value: T)

  datatype Result<+T, +E> = Success(value: T) | Failure(error: E)

  /** The magnitude of `i`. */
  function Abs(i: int): nat
  {
    if i < 0 then -i else i
  }

  /** A non-negative dividend over a positive divisor has a non-negative
      quotient. */
  lemma DivNonNegative(a: int, b: int)
    requires a >= 0 && b > 0
    ensures a / b >= 0
  {
  }

  /** C's `/` on integers: the quotient truncated toward zero
      (Dafny's own `/` is Euclidean). */
  function CDiv(i: int, n: int): (q: int)
    requires n != 0
    ensures Abs(q) == Abs(i) / Abs(n)
    ensures q != 0 ==> (q < 0 <==> (i < 0) != (n < 0))
  {
    DivNonNegative(Abs(i), Abs(n));
    var d := Abs(i) / Abs(n);
    if (i < 0) == (n < 0) then d else -d
  }

  /** C's `%` on integers: the remainder that goes with `CDiv`, carrying
      the sign of the dividend. */
  function CRem(i: int, n: int): (r: int)
    requires n != 0
    ensures i == CDiv(i, n) * n + r
    ensures Abs(r) < Abs(n)
    ensures r != 0 ==> (r < 0 <==> i < 0)
  {
    var a, b := Abs(i), Abs(n);
    assert a == (a / b) * b + a % b;
    var m: int := a % b;
    var r := if i < 0 then -m else m;
    assert CDiv(i, n) * n == (if i < 0 then -((a / b) * b) else (a / b) * b);
    r
  }

  /** Euclidean division is unique: a quotient and remainder in [0, n)
      that rebuild `i` are Dafny's `/` and `%`. */
  lemma EuclidUnique(i: int, n: int, q: int, r: int)
    requires n > 0 && 0 <= r < n && i == q * n + r
    ensures i / n == q && i % n == r
  {
    var d := q - i / n;
    assert d * n == i % n - r;
  }
}
