/**
  JavaScript's remainder operator on integral numbers. Unlike Dafny's
  Euclidean `%`, it truncates toward zero, so the remainder carries the sign
  of the dividend. The carousel adds the slide count before taking the
  remainder precisely so that the dividend is never negative.
 */
module JsArith {

  function Abs(x: int): nat {
    if x < 0 then -x else x
  }

  /** `a % b` as JavaScript evaluates it when both operands are integers. */
  function JsRem(a: int, b: int): (r: int)
    requires b != 0
    ensures Abs(r) < Abs(b)
    ensures a >= 0 ==> r >= 0
    ensures a <= 0 ==> r <= 0
    ensures (a - r) % Abs(b) == 0
  {
    var m := Abs(a) % Abs(b);
    var q := Abs(a) / Abs(b);
    assert Abs(a) == Abs(b) * q + m;
    var k := if a < 0 then -q else q;
    assert a - (if a < 0 then -m else m) == Abs(b) * k;
    MultipleMod(k, Abs(b));
    if a < 0 then -m else m
  }

  /** A multiple of `n` leaves no remainder. */
  lemma MultipleMod(k: int, n: int)
    requires n > 0
    ensures (n * k) % n == 0
  {
    var q := (n * k) / n;
    var r := (n * k) % n;
    assert n * k == n * q + r && 0 <= r < n;
    assert r == n * (k - q);
    assert k - q >= 1 ==> n * (k - q) >= n;
    assert k - q <= -1 ==> n * (k - q) <= -n;
  }

  /** Euclidean remainder near the ring: one wrap at most in either direction. */
  lemma RingMod(x: int, n: int)
    requires n > 0 && -n <= x < 3 * n
    ensures x % n == (if x < 0 then x + n else if x < n then x else if x < 2 * n then x - n else x - 2 * n)
  {
    var q := x / n;
    assert x == n * q + x % n && 0 <= x % n < n;
    assert q >= 3 ==> n * q >= 3 * n;
    assert q <= -2 ==> n * q <= -2 * n;
  }

  /** On a non-negative dividend and a positive divisor the two remainders agree. */
  lemma JsRemAgreesOnNonNegative(a: int, b: int)
    requires a >= 0 && b > 0
    ensures JsRem(a, b) == a % b
  {
  }
}
