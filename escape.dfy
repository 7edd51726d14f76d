/** The escape-time evaluator: iterate z := z*z + c from z = 0 and report the
    first step at which |z| exceeds the escape radius 20.

    Double-precision floats are modelled as mathematical reals, so nothing here
    depends on rounding.  The test `|z| > 20` is stated without a square root
    as `re*re + im*im > 400`, which is the same condition over the reals. */
module Escape {

  /** Rust's `i32`. */
  type I32 = x: int | -0x8000_0000 <= x <= 0x7fff_ffff

  /** A complex number `re + im*i`. */
  datatype Complex = Complex(re: real, im: real)

  const Zero: Complex := Complex(0.0, 0.0)

  /** The square of the escape radius 20. */
  const EscapeRadiusSquared: real := 400.0

  function Add(a: Complex, b: Complex): (sum: Complex) {
    Complex(a.re + b.re, a.im + b.im)
  }

  function Mul(a: Complex, b: Complex): (product: Complex) {
    Complex(a.re * b.re - a.im * b.im, a.re * b.im + a.im * b.re)
  }

  /** One step of the quadratic recurrence. */
  function Step(z: Complex, c: Complex): (next: Complex) {
    Add(Mul(z, z), c)
  }

  /** `|z| > 20`. */
  predicate Escaped(z: Complex) {
    z.re * z.re + z.im * z.im > EscapeRadiusSquared
  }

  /** z_n of the orbit of `c`: z_0 = 0, z_{n+1} = z_n * z_n + c. */
  function Orbit(c: Complex, n: nat): (z: Complex) {
    if n == 0 then Zero else Step(Orbit(c, n - 1), c)
  }

  /** What the evaluator promises, stated declaratively.  With a negative
      budget the range `0..=maxIters` is empty and the budget itself comes
      back.  Otherwise `r` is the least index in `0..maxIters` whose orbit
      point has escaped, or `maxIters` when none before it has; escaping at
      exactly `maxIters` therefore looks the same as never escaping. */
  ghost predicate IsEscapeTime(c: Complex, maxIters: int, r: int) {
    if maxIters < 0 then r == maxIters
    else
      && 0 <= r <= maxIters
      && (forall j: nat :: j < r ==> !Escaped(Orbit(c, j)))
      && (r < maxIters ==> Escaped(Orbit(c, r)))
  }

  /** The escape time as a function: search for the first escaping index
      from `i` on. */
  function EscapeFrom(c: Complex, i: nat, maxIters: int): (r: int)
    decreases maxIters + 1 - i
  {
    if i > maxIters then maxIters
    else if Escaped(Orbit(c, i)) then i
    else EscapeFrom(c, i + 1, maxIters)
  }

  function EscapeTime(c: Complex, maxIters: int): (r: int) {
    EscapeFrom(c, 0, maxIters)
  }

  /** `mandelbrot_value_at_point`: the loop over `i in 0..=max_iters` with
      its early return. */
  method MandelbrotValueAtPoint(cx: real, cy: real, maxIters: I32) returns (r: I32)
    ensures IsEscapeTime(Complex(cx, cy), maxIters, r)
  {
    var c := Complex(cx, cy);
    var z := Zero;
    var i: int := 0;
    while i <= maxIters
      invariant 0 <= i && (maxIters >= 0 ==> i <= maxIters + 1)
      invariant z == Orbit(c, i)
      invariant forall j: nat :: j < i ==> !Escaped(Orbit(c, j))
    {
      if Escaped(z) {
        return i;
      }
      z := Step(z, c);
      i := i + 1;
    }
    r := maxIters;
  }

  /** The search from `i` meets the declarative contract, provided nothing
      before `i` has escaped. */
  lemma {:induction false} EscapeFromCorrect(c: Complex, i: nat, maxIters: int)
    requires 0 <= maxIters && i <= maxIters + 1
    requires forall j: nat :: j < i ==> !Escaped(Orbit(c, j))
    ensures IsEscapeTime(c, maxIters, EscapeFrom(c, i, maxIters))
    decreases maxIters + 1 - i
  {
    if i <= maxIters && !Escaped(Orbit(c, i)) {
      EscapeFromCorrect(c, i + 1, maxIters);
    }
  }

  /** The function satisfies the declarative contract. */
  lemma EscapeTimeCorrect(c: Complex, maxIters: int)
    ensures IsEscapeTime(c, maxIters, EscapeTime(c, maxIters))
  {
    if maxIters >= 0 {
      EscapeFromCorrect(c, 0, maxIters);
    }
  }

  /** The declarative contract has only one solution: it determines the
      escape time, so the loop and the function agree on every input. */
  lemma EscapeTimeUnique(c: Complex, maxIters: int, r: int)
    ensures IsEscapeTime(c, maxIters, r) <==> r == EscapeTime(c, maxIters)
  {
    var e := EscapeTime(c, maxIters);
    EscapeTimeCorrect(c, maxIters);
    if IsEscapeTime(c, maxIters, r) && maxIters >= 0 {
      assert r < maxIters ==> Escaped(Orbit(c, r));
      assert e < maxIters ==> Escaped(Orbit(c, e));
    }
  }

  /** For a non-negative budget the result lies in `[0, maxIters]`. */
  lemma EscapeTimeInRange(c: Complex, maxIters: int)
    requires maxIters >= 0
    ensures 0 <= EscapeTime(c, maxIters) <= maxIters
  {
    EscapeTimeCorrect(c, maxIters);
  }

  /** The orbit starts at 0, which has not escaped, so with a budget of at
      least one the evaluator never returns 0. */
  lemma EscapeTimeNeverZero(c: Complex, maxIters: int)
    requires maxIters >= 1
    ensures EscapeTime(c, maxIters) >= 1
  {
    EscapeTimeCorrect(c, maxIters);
    assert Orbit(c, 0) == Zero;
  }

  /** A point that escapes strictly within the budget escapes at the same
      index under every larger budget. */
  lemma EscapeTimeStableUnderLargerBudget(c: Complex, m: int, m': int)
    requires 0 <= m <= m' && EscapeTime(c, m) < m
    ensures EscapeTime(c, m') == EscapeTime(c, m)
  {
    var e := EscapeTime(c, m);
    EscapeTimeCorrect(c, m);
    assert IsEscapeTime(c, m', e);
    EscapeTimeUnique(c, m', e);
  }

  lemma {:induction false} OriginOrbitStaysAtZero(n: nat)
    ensures Orbit(Zero, n) == Zero
  {
    if n > 0 {
      OriginOrbitStaysAtZero(n - 1);
    }
  }

  /** c = 0 never escapes: the evaluator returns the budget. */
  lemma OriginIsBounded(maxIters: int)
    ensures EscapeTime(Zero, maxIters) == maxIters
  {
    if maxIters >= 0 {
      forall j: nat | j < maxIters ensures !Escaped(Orbit(Zero, j)) {
        OriginOrbitStaysAtZero(j);
      }
      assert IsEscapeTime(Zero, maxIters, maxIters);
    }
    EscapeTimeUnique(Zero, maxIters, maxIters);
  }

  const MinusOne: Complex := Complex(-1.0, 0.0)

  /** The first step of every orbit lands on `c` itself. */
  lemma StepFromZero(c: Complex)
    ensures Step(Zero, c) == c
  {
    assert Mul(Zero, Zero) == Zero;
  }

  /** The two points of the cycle of c = -1: 0 and -1. */
  predicate OnMinusOneCycle(z: Complex) {
    z.im == 0.0 && (z.re == 0.0 || z.re == -1.0)
  }

  lemma MinusOneCycleCloses(z: Complex)
    requires OnMinusOneCycle(z)
    ensures OnMinusOneCycle(Step(z, MinusOne)) && !Escaped(z)
  {
  }

  /** The orbit of c = -1 never leaves the cycle 0, -1, 0, -1, ... */
  lemma {:induction false} MinusOneOrbitAlternates(n: nat)
    ensures OnMinusOneCycle(Orbit(MinusOne, n))
  {
    if n > 0 {
      MinusOneOrbitAlternates(n - 1);
      MinusOneCycleCloses(Orbit(MinusOne, n - 1));
    }
  }

  /** c = -1 never escapes either. */
  lemma MinusOneIsBounded(maxIters: int)
    ensures EscapeTime(MinusOne, maxIters) == maxIters
  {
    if maxIters >= 0 {
      forall j: nat | j < maxIters ensures !Escaped(Orbit(MinusOne, j)) {
        MinusOneOrbitAlternates(j);
        MinusOneCycleCloses(Orbit(MinusOne, j));
      }
      assert IsEscapeTime(MinusOne, maxIters, maxIters);
    }
    EscapeTimeUnique(MinusOne, maxIters, maxIters);
  }

  const MinusTwo: Complex := Complex(-2.0, 0.0)

  const Two: Complex := Complex(2.0, 0.0)

  lemma MinusTwoSquares()
    ensures Mul(MinusTwo, MinusTwo) == Complex(4.0, 0.0)
    ensures Mul(Two, Two) == Complex(4.0, 0.0)
    ensures Add(Complex(4.0, 0.0), MinusTwo) == Two
  {
  }

  /** The orbit of c = -2 goes 0, -2, 2, 2, 2, ... */
  lemma MinusTwoSteps()
    ensures Step(Zero, MinusTwo) == MinusTwo
    ensures Step(MinusTwo, MinusTwo) == Two
    ensures Step(Two, MinusTwo) == Two
  {
    StepFromZero(MinusTwo);
    MinusTwoSquares();
  }

  lemma MinusTwoOrbitFirst()
    ensures Orbit(MinusTwo, 1) == MinusTwo
  {
    assert Orbit(MinusTwo, 0) == Zero;
    MinusTwoSteps();
  }

  lemma MinusTwoOrbitStart()
    ensures Orbit(MinusTwo, 1) == MinusTwo && Orbit(MinusTwo, 2) == Two
  {
    MinusTwoOrbitFirst();
    MinusTwoSteps();
  }

  lemma MinusTwoOrbitNext(n: nat)
    requires Orbit(MinusTwo, n + 1) == Two
    ensures Orbit(MinusTwo, n + 2) == Two
  {
    MinusTwoSteps();
  }

  lemma {:induction false} MinusTwoOrbitSettles(n: nat)
    ensures Orbit(MinusTwo, n + 2) == Two
  {
    if n == 0 {
      MinusTwoOrbitStart();
    } else {
      MinusTwoOrbitSettles(n - 1);
      MinusTwoOrbitNext(n);
    }
  }

  /** None of 0, -2 and 2 has escaped. */
  lemma MinusTwoOrbitPointsInside(z: Complex)
    requires z.im == 0.0 && (z.re == 0.0 || z.re == -2.0 || z.re == 2.0)
    ensures !Escaped(z)
  {
  }

  lemma MinusTwoOrbitInside(n: nat)
    ensures !Escaped(Orbit(MinusTwo, n))
  {
    if n == 0 {
      MinusTwoOrbitPointsInside(Orbit(MinusTwo, 0));
    } else if n == 1 {
      MinusTwoOrbitStart();
      MinusTwoOrbitPointsInside(Orbit(MinusTwo, 1));
    } else {
      MinusTwoOrbitSettles(n - 2);
      MinusTwoOrbitPointsInside(Orbit(MinusTwo, n));
    }
  }

  /** c = -2, the left tip of the set, never escapes. */
  lemma MinusTwoIsBounded(maxIters: int)
    ensures EscapeTime(MinusTwo, maxIters) == maxIters
  {
    if maxIters >= 0 {
      forall j: nat | j < maxIters ensures !Escaped(Orbit(MinusTwo, j)) {
        MinusTwoOrbitInside(j);
      }
      assert IsEscapeTime(MinusTwo, maxIters, maxIters);
    }
    EscapeTimeUnique(MinusTwo, maxIters, maxIters);
  }

  const FarPoint: Complex := Complex(5.0, 5.0)

  lemma FarPointOrbit()
    ensures Orbit(FarPoint, 1) == FarPoint
    ensures Orbit(FarPoint, 2) == Complex(5.0, 55.0)
  {
    assert Orbit(FarPoint, 0) == Zero;
    StepFromZero(FarPoint);
    assert Orbit(FarPoint, 1) == FarPoint;
    assert Mul(FarPoint, FarPoint) == Complex(0.0, 50.0);
    assert Orbit(FarPoint, 2) == Step(FarPoint, FarPoint);
  }

  /** c = 5+5i: z_1 = 5+5i has |z_1|^2 = 50, z_2 = 5+55i has |z_2|^2 = 3050,
      so with a budget of at least 2 the evaluator returns 2. */
  lemma FarPointEscapesAtTwo(maxIters: int)
    requires maxIters >= 2
    ensures EscapeTime(FarPoint, maxIters) == 2
  {
    FarPointOrbit();
    assert IsEscapeTime(FarPoint, maxIters, 2) by {
      forall j: nat | j < 2 ensures !Escaped(Orbit(FarPoint, j)) {
        if j == 1 {
          assert Orbit(FarPoint, j) == FarPoint;
        }
      }
    }
    EscapeTimeUnique(FarPoint, maxIters, 2);
  }

  /** With a budget of 2 the point 5+5i, which escapes at step 2, and the
      point 0, which never escapes, get the same value: escaping at exactly
      `maxIters` is indistinguishable from staying bounded. */
  lemma EscapeAtBudgetLooksBounded()
    ensures Escaped(Orbit(FarPoint, 2)) && !Escaped(Orbit(Zero, 2))
    ensures EscapeTime(FarPoint, 2) == EscapeTime(Zero, 2) == 2
  {
    FarPointOrbit();
    OriginOrbitStaysAtZero(2);
    FarPointEscapesAtTwo(2);
    OriginIsBounded(2);
  }
}
