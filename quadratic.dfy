/**
 * The quadratic equation a t^2 + b t + c = 0 that the sphere and the cylinder
 * solve for the ray parameter t, with its two roots as the shapes compute them:
 * (-b -+ sqrt(b^2 - 4ac)) / (2a).
 */
module Quadratics {
  import opened Numerics

  datatype Quadratic = Quadratic(a: real, b: real, c: real)
  {
    /** The discriminant b^2 - 4ac (`delta` in the source). */
    function Delta(): real {
      b * b - 4.0 * a * c
    }

    function Value(t: real): real {
      a * t * t + b * t + c
    }

    /** The root with the minus sign in front of the square root. */
    function Near(m: MathLib): real
      requires a != 0.0
    {
      (-b - m.sqrt(Delta())) / (2.0 * a)
    }

    /** The root with the plus sign in front of the square root. */
    function Far(m: MathLib): real
      requires a != 0.0
    {
      (-b + m.sqrt(Delta())) / (2.0 * a)
    }
  }

  /** Completing the square: (2at + b)^2 = 4a (at^2 + bt + c) + (b^2 - 4ac). */
  lemma CompletedSquare(q: Quadratic, t: real)
    ensures (2.0 * q.a * t + q.b) * (2.0 * q.a * t + q.b) == 4.0 * q.a * q.Value(t) + q.Delta()
  {
  }

  /** With a positive leading coefficient the minus root comes first. */
  lemma NearBeforeFar(m: MathLib, q: Quadratic)
    requires m.Lawful() && q.a > 0.0 && q.Delta() >= 0.0
    ensures q.Near(m) <= q.Far(m)
  {
    var s := m.sqrt(q.Delta());
    var n, f := q.Near(m), q.Far(m);
    DivTimes(-q.b - s, 2.0 * q.a);
    DivTimes(-q.b + s, 2.0 * q.a);
    assert (f - n) * (2.0 * q.a) == 2.0 * s;
    ProductOfLikeSigns(n - f, 2.0 * q.a);
  }

  /** `t * 2a = -b + sign * sqrt(delta)` pins t down as one of the two roots. */
  lemma RootFromScaled(m: MathLib, q: Quadratic, t: real)
    requires q.a != 0.0
    ensures t * (2.0 * q.a) == -q.b - m.sqrt(q.Delta()) ==> t == q.Near(m)
    ensures t * (2.0 * q.a) == -q.b + m.sqrt(q.Delta()) ==> t == q.Far(m)
  {
    var s := m.sqrt(q.Delta());
    DivTimes(-q.b - s, 2.0 * q.a);
    DivTimes(-q.b + s, 2.0 * q.a);
    if t * (2.0 * q.a) == -q.b - s {
      CancelFactor(t, q.Near(m), 2.0 * q.a);
    }
    if t * (2.0 * q.a) == -q.b + s {
      CancelFactor(t, q.Far(m), 2.0 * q.a);
    }
  }

  /** Both computed roots solve the equation. */
  lemma RootsSolve(m: MathLib, q: Quadratic)
    requires m.Lawful() && q.a != 0.0 && q.Delta() >= 0.0
    ensures q.Value(q.Near(m)) == 0.0 && q.Value(q.Far(m)) == 0.0
  {
    var s := m.sqrt(q.Delta());
    assert s * s == q.Delta();
    var n, f := q.Near(m), q.Far(m);
    DivTimes(-q.b - s, 2.0 * q.a);
    DivTimes(-q.b + s, 2.0 * q.a);
    CompletedSquare(q, n);
    CompletedSquare(q, f);
    assert 2.0 * q.a * n + q.b == -s;
    assert 2.0 * q.a * f + q.b == s;
    assert (-s) * (-s) == s * s;
    CancelFactor(q.Value(n), 0.0, 4.0 * q.a);
    CancelFactor(q.Value(f), 0.0, 4.0 * q.a);
  }

  /** Every solution of the equation is one of the two computed roots. */
  lemma OnlyRoots(m: MathLib, q: Quadratic, t: real)
    requires m.Lawful() && q.a != 0.0 && q.Value(t) == 0.0
    ensures q.Delta() >= 0.0
    ensures t == q.Near(m) || t == q.Far(m)
  {
    var x := 2.0 * q.a * t + q.b;
    CompletedSquare(q, t);
    assert x * x == q.Delta();
    SquareNonneg(x);
    var s := m.sqrt(q.Delta());
    assert s >= 0.0 && s * s == q.Delta();
    SquaresEqual(x, s);
    assert t * (2.0 * q.a) == x - q.b;
    RootFromScaled(m, q, t);
  }
}
