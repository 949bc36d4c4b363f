/**
 * The rotation resolver shared by the screen driver and the web service:
 * a requested rotation angle either swaps the panel's width and height or
 * leaves them as they are.
 *
 * The source tests `(rotate / 90) % 2 == 1` where `/` is Python's true
 * (floating-point) division and `%` is Python's float remainder, whose
 * result takes the sign of the divisor. Both are modelled here over exact
 * reals, and the test is then shown to mean "rotate is an odd multiple of 90".
 */
module Rotation {

  /** Python's `x % m` for floats with a positive divisor: `x - m * floor(x / m)`. */
  function FloatMod(x: real, m: real): real
    requires m > 0.0
  {
    x - m * ((x / m).Floor as real)
  }

  /** The source's swap test, `(rotate / 90) % 2 == 1`, taken literally. */
  predicate SwapTest(rotate: int)
  {
    FloatMod(rotate as real / 90.0, 2.0) == 1.0
  }

  /** The integer reading of the swap test: 90, 270, -90, 450, ... */
  predicate OddMultipleOf90(rotate: int)
  {
    rotate % 90 == 0 && (rotate / 90) % 2 == 1
  }

  /** The float test holds exactly for the odd multiples of 90, negative ones included. */
  lemma SwapTestIffOddMultiple(rotate: int)
    ensures SwapTest(rotate) <==> OddMultipleOf90(rotate)
  {
    var x := rotate as real / 90.0;
    var k := (x / 2.0).Floor;
    assert FloatMod(x, 2.0) == x - 2.0 * k as real;
    if SwapTest(rotate) {
      assert x == (2 * k + 1) as real;
      assert rotate == 90 * (2 * k + 1);
      assert rotate / 90 == 2 * k + 1;
    }
    if OddMultipleOf90(rotate) {
      var j := (rotate / 90) / 2;
      assert rotate == 90 * (2 * j + 1);
      assert x == (2 * j + 1) as real;
      assert x / 2.0 == j as real + 0.5;
      assert k == j;
    }
  }

  /**
   * `set_rotate`: the effective (width, height) for a rotation angle. The pair
   * is swapped exactly when the angle is an odd multiple of 90; any other angle,
   * 45 or 135 included, leaves it unchanged. The result is always a
   * rearrangement of the two inputs.
   */
  function SetRotate(width: int, height: int, rotate: int := 0): (r: (int, int))
    ensures OddMultipleOf90(rotate) ==> r == (height, width)
    ensures !OddMultipleOf90(rotate) ==> r == (width, height)
    ensures multiset{r.0, r.1} == multiset{width, height}
  {
    SwapTestIffOddMultiple(rotate);
    if SwapTest(rotate) then (height, width) else (width, height)
  }

  /** Resolving twice with the same angle gives back the original pair. */
  lemma SetRotateInvolutive(width: int, height: int, rotate: int)
    ensures SetRotate(SetRotate(width, height, rotate).0, SetRotate(width, height, rotate).1, rotate)
            == (width, height)
  {
  }

  /**
   * For angles that are multiples of 90, resolving by `a` and then by `b`
   * is resolving by `a + b`; in particular 90 followed by 270 is the identity.
   */
  lemma SetRotateCompose(width: int, height: int, a: int, b: int)
    requires a % 90 == 0 && b % 90 == 0
    ensures SetRotate(SetRotate(width, height, a).0, SetRotate(width, height, a).1, b)
            == SetRotate(width, height, a + b)
  {
    var p, q := a / 90, b / 90;
    assert a + b == 90 * (p + q);
    assert (a + b) % 90 == 0 && (a + b) / 90 == p + q;
    assert (p + q) % 2 == 1 <==> (p % 2 == 1) != (q % 2 == 1);
  }

  /** The angles the configuration uses, and a few others. */
  lemma SampleAngles(width: int, height: int)
    ensures SetRotate(width, height, 90) == (height, width)
    ensures SetRotate(width, height, 270) == (height, width)
    ensures SetRotate(width, height, -90) == (height, width)
    ensures SetRotate(width, height, 450) == (height, width)
    ensures SetRotate(width, height, 0) == (width, height)
    ensures SetRotate(width, height, 180) == (width, height)
    ensures SetRotate(width, height, 45) == (width, height)
    ensures SetRotate(width, height, 135) == (width, height)
  {
  }
}
