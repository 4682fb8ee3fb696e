/** C++ integer arithmetic that differs from Dafny's Euclidean operators. */
module CppArithmetic {

  function Abs(a: int): int {
    if a < 0 then -a else a
  }

  function Min(a: int, b: int): int {
    if a < b then a else b
  }

  function Max(a: int, b: int): int {
    if a < b then b else a
  }

  /** Signed `/`: rounds toward zero. */
  function Quot(a: int, b: int): int
    requires b > 0
  {
    if a >= 0 then a / b else -((-a) / b)
  }

  /** Signed `%`: the remainder takes the sign of the dividend. */
  function Rem(a: int, b: int): int
    requires b > 0
  {
    a - Quot(a, b) * b
  }

  const TWO_TO_THE_32: int := 0x1_0000_0000

  /** Conversion to a 32-bit `unsigned`, and the value of an `unsigned` expression. */
  function Unsigned(a: int): (u: int)
    ensures 0 <= u < TWO_TO_THE_32
    ensures 0 <= a < TWO_TO_THE_32 ==> u == a
    ensures -TWO_TO_THE_32 <= a < 0 ==> u == a + TWO_TO_THE_32
  {
    a % TWO_TO_THE_32
  }

  /** The era idiom `(a >= 0 ? a : a - (b - 1)) / b` of the calendar headers. */
  function EraQuot(a: int, b: int): int
    requires b > 0
  {
    Quot(if a >= 0 then a else a - (b - 1), b)
  }

  /** The idiom rounds down, for either sign of the dividend. */
  lemma EraQuotFloors(a: int, b: int)
    requires b > 0
    ensures EraQuot(a, b) == a / b
    ensures 0 <= a - EraQuot(a, b) * b < b
  {
    if a < 0 {
      var n := -a + (b - 1);
      var q := n / b;
      var k := a / b;
      assert n == q * b + n % b;
      assert a == k * b + a % b;
      // both -q and k are the floor of a / b
      SameQuotient(-q, k, b, a);
    }
  }

  lemma SameQuotient(p: int, q: int, b: int, a: int)
    requires b > 0
    requires p * b <= a < p * b + b
    requires q * b <= a < q * b + b
    ensures p == q
  {
    assert (p - q) * b == p * b - q * b;
    ProductSign(p - q, b);
    ProductSign(q - p, b);
  }

  lemma ProductSign(k: int, b: int)
    requires b > 0
    ensures k >= 1 ==> k * b >= b
  {
  }

  /** The same idiom with a quotient of seven days: whole weeks, rounded down. */
  lemma WeeksFloor(a: int)
    ensures Quot(if a >= 0 then a else a - 6, 7) == a / 7
  {
    EraQuotFloors(a, 7);
    hide Quot;
  }
}
