/** Facts about Dafny's (Euclidean) integer division that the schedule and
    the dev-set chunking rely on. */
module Division {

  lemma MulAtLeast(d: int, m: int)
    requires d >= 1 && m > 0
    ensures d * m >= m
  {
  }

  /** The quotient of Euclidean division by a positive divisor is unique. */
  lemma DivUnique(a: int, m: int, q: int, r: int)
    requires m > 0 && 0 <= r < m && a == q * m + r
    ensures a / m == q
    ensures a % m == r
  {
    var q0, r0 := a / m, a % m;
    assert a == q0 * m + r0;
    var d := q - q0;
    assert d * m == q * m - q0 * m;
    assert d * m == r0 - r;
    if d >= 1 {
      MulAtLeast(d, m);
    } else if d <= -1 {
      MulAtLeast(-d, m);
    }
  }

  /** Adding the divisor to the dividend adds one to the quotient. */
  lemma DivAddDivisor(a: int, m: int)
    requires m > 0
    ensures (a + m) / m == a / m + 1
  {
    var q, r := a / m, a % m;
    assert a == q * m + r;
    assert a + m == (q + 1) * m + r;
    DivUnique(a + m, m, q + 1, r);
  }

  /** The quotient grows by one exactly when the dividend reaches a multiple. */
  lemma DivSucc(a: int, m: int)
    requires m > 0
    ensures (a + 1) / m == a / m + (if (a + 1) % m == 0 then 1 else 0)
  {
    var q, r := a / m, a % m;
    assert a == q * m + r;
    if r == m - 1 {
      assert a + 1 == (q + 1) * m + 0;
      DivUnique(a + 1, m, q + 1, 0);
    } else {
      assert a + 1 == q * m + (r + 1);
      DivUnique(a + 1, m, q, r + 1);
    }
  }

  /** A multiple leaves no remainder, whatever the sign of the divisor. */
  lemma MultipleModZero(q: int, b: int)
    requires b != 0
    ensures (q * b) % b == 0
  {
    var a := q * b;
    var q0, r0 := a / b, a % b;
    assert a == q0 * b + r0;
    var d := q - q0;
    assert d * b == r0;
    var m := if b > 0 then b else -b;
    if d >= 1 {
      MulAtLeast(d, m);
    } else if d <= -1 {
      MulAtLeast(-d, m);
    }
  }
}
