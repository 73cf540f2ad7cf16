/** The few JavaScript number operators the filter engine depends on, stated
    over exact integers and reals (finite values only: no NaN, no infinities). */
module JsNumber {

  const TwoTo31: int := 0x8000_0000
  const TwoTo32: int := 0x1_0000_0000

  /** Truncation toward zero: the integer part of `v`, keeping its sign. */
  function Trunc(v: real): (r: int)
    ensures 0.0 <= v ==> 0 <= r && r as real <= v < r as real + 1.0
    ensures v < 0.0 ==> r <= 0 && r as real - 1.0 < v <= r as real
  {
    if v >= 0.0 then v.Floor else -((-v).Floor)
  }

  /** ECMAScript ToInt32 on an integer: the representative of `n` modulo 2^32
      in the signed 32-bit range. */
  function ToInt32(n: int): (r: int)
    ensures -TwoTo31 <= r < TwoTo31
    ensures (n - r) % TwoTo32 == 0
    ensures -TwoTo31 <= n < TwoTo31 ==> r == n
  {
    var m := n % TwoTo32;
    if m >= TwoTo31 then m - TwoTo32 else m
  }

  /** The value of the JavaScript expression `v | 0` for a finite `v`. */
  function BitOrZero(v: real): (r: int)
    ensures -TwoTo31 <= r < TwoTo31
    ensures -(TwoTo31 as real) < v + 1.0 && v < TwoTo31 as real ==> r == Trunc(v)
  {
    ToInt32(Trunc(v))
  }

  /** The JavaScript remainder `a % n` for a positive divisor: it takes the sign
      of the dividend, unlike Dafny's Euclidean `%`. */
  function JsRem(a: int, n: int): (r: int)
    requires n > 0
    ensures 0 <= a ==> r == a % n && 0 <= r < n
    ensures a < 0 ==> -n < r <= 0
    ensures (a - r) % n == 0
  {
    if a >= 0 then
      assert a - a % n == (a / n) * n;
      MultipleMod(a / n, n);
      a % n
    else
      assert a + (-a) % n == -((-a) / n) * n;
      MultipleMod(-((-a) / n), n);
      -((-a) % n)
  }

  /** A multiple of `n` leaves remainder 0. */
  lemma MultipleMod(k: int, n: int)
    requires n > 0
    ensures (k * n) % n == 0
  {
    var d, r := (k * n) / n, (k * n) % n;
    assert r == (k - d) * n;
    NonZeroMultiple(k - d, n);
  }

  /** A non-zero multiple of `n` is at least `n` away from 0. */
  lemma NonZeroMultiple(e: int, n: int)
    requires n > 0
    ensures e >= 1 ==> e * n >= n
    ensures e <= -1 ==> e * n <= -n
  {
    assert e * n - n == (e - 1) * n;
    assert e * n + n == (e + 1) * n;
  }

  /** `(v + 0.5) | 0` is truncation, so it is not round-half-up for negative
      sums: -1.0 becomes 0, where floor(-1.0 + 0.5) is -1. */
  lemma HalfAddTruncIsNotFloor()
    ensures BitOrZero(-1.0 + 0.5) == 0
    ensures (-1.0 + 0.5).Floor == -1
  {
  }

  /** On a non-negative integer below 2^31, `(v + 0.5) | 0` gives `v` back. */
  lemma HalfAddTruncOfInteger(n: int)
    requires 0 <= n < TwoTo31
    ensures BitOrZero(n as real + 0.5) == n
  {
    assert Trunc(n as real + 0.5) == n;
  }
}
