/**
  The Wilson score interval of a success rate (scripts/lib/benchmark-contract.ts),
  in exact arithmetic. `root` is what the square root returned.
 */
module Wilson {
  import opened Wrappers

  datatype Interval = Interval(lower: real, upper: real)

  const Z: real := 1.96

  function Proportion(successes: nat, observations: nat): real
    requires observations >= 1
  {
    successes as real / observations as real
  }

  /** The argument of the square root. */
  function Radicand(successes: nat, observations: nat): real
    requires observations >= 1
  {
    var n, p := observations as real, Proportion(successes, observations);
    p * (1.0 - p) / n + Z * Z / (4.0 * (n * n))
  }

  function Center(p: real, n: real): real
    requires n >= 1.0
  {
    assert Z * Z / n >= 0.0;
    (p + Z * Z / (2.0 * n)) / (1.0 + Z * Z / n)
  }

  function Spread(root: real, n: real): real
    requires n >= 1.0
  {
    assert Z * Z / n >= 0.0;
    Z * root / (1.0 + Z * Z / n)
  }

  function WilsonInterval(successes: nat, observations: nat, root: real): Option<Interval> {
    if observations < 1 then None
    else
      var n, p := observations as real, Proportion(successes, observations);
      Some(Interval(MaxReal(0.0, Center(p, n) - Spread(root, n)), MinReal(1.0, Center(p, n) + Spread(root, n))))
  }

  // ---------- the quadratic ----------

  /** The score equation, with `w` for z squared over n. */
  function Score(p: real, w: real, x: real): real {
    (1.0 + w) * (x * x) - (2.0 * p + w) * x + p * p
  }

  ghost predicate IsRoot(p: real, w: real, x: real) {
    Score(p, w, x) == 0.0
  }

  /** A quadratic with its centre and spread given is a product of its two factors. */
  lemma Factored(a: real, b: real, c: real, mid: real, off: real, x: real)
    requires 2.0 * (a * mid) == b
    requires a * (mid * mid) - a * (off * off) == c
    ensures a * (x * x) - b * x + c == a * ((x - (mid - off)) * (x - (mid + off)))
  {
    assert (x - (mid - off)) * (x - (mid + off)) == x * x - 2.0 * (mid * x) + (mid * mid - off * off);
    assert a * (x * x - 2.0 * (mid * x) + (mid * mid - off * off))
        == a * (x * x) - 2.0 * (a * mid) * x + (a * (mid * mid) - a * (off * off)) by {
      assert a * (2.0 * (mid * x)) == 2.0 * (a * mid) * x;
    }
  }

  lemma DivideAndMultiply(a: real, d: real)
    requires d > 0.0
    ensures d * (a / d) == a
  {
  }

  lemma SquareOverN(p: real, n: real, zz: real, w: real)
    requires n >= 1.0 && w == zz / n
    ensures zz * (p * (1.0 - p) / n + zz / (4.0 * (n * n))) == w * (p * (1.0 - p)) + w * w / 4.0
  {
    var q := p * (1.0 - p);
    assert zz == w * n;
    assert zz * (q / n) == w * q by {
      assert q / n * n == q;
    }
    assert zz / (4.0 * (n * n)) == w / (4.0 * n) by {
      assert w * n / (4.0 * (n * n)) * (4.0 * (n * n)) == w * n;
      assert w / (4.0 * n) * (4.0 * n) == w;
      assert w / (4.0 * n) * (4.0 * (n * n)) == w * n;
    }
    assert zz * (w / (4.0 * n)) == w * w / 4.0 by {
      assert w / (4.0 * n) * n == w / 4.0;
    }
  }

  /** What is left of the centre, the spread and the root once their denominators are cleared. */
  ghost predicate Cleared(p: real, w: real, mid: real, off: real, zroot: real) {
    && w > 0.0 && zroot >= 0.0
    && (1.0 + w) * mid == p + w / 2.0
    && (1.0 + w) * off == zroot
    && zroot * zroot == w * (p * (1.0 - p)) + w * w / 4.0
  }

  lemma ClearedForm(p: real, n: real, root: real)
    requires n >= 1.0 && root >= 0.0 && root * root == p * (1.0 - p) / n + Z * Z / (4.0 * (n * n))
    ensures Cleared(p, Z * Z / n, Center(p, n), Spread(root, n), Z * root)
  {
    ClearedFor(p, n, root, Z, Z * Z, Z * Z / n);
  }

  lemma ClearedFor(p: real, n: real, root: real, z: real, zz: real, w: real)
    requires n >= 1.0 && root >= 0.0 && z > 0.0 && zz > 0.0 && zz == z * z && w == zz / n
    requires root * root == p * (1.0 - p) / n + zz / (4.0 * (n * n))
    ensures 1.0 + w > 0.0
    ensures Cleared(p, w, (p + zz / (2.0 * n)) / (1.0 + w), z * root / (1.0 + w), z * root)
  {
    HalfOf(n, zz, w);
    DivideAndMultiply(p + zz / (2.0 * n), 1.0 + w);
    DivideAndMultiply(z * root, 1.0 + w);
    SquareOverN(p, n, zz, w);
    assert (z * root) * (z * root) == (z * z) * (root * root);
  }

  lemma HalfOf(n: real, zz: real, w: real)
    requires n >= 1.0 && zz > 0.0 && w == zz / n
    ensures w > 0.0 && zz / (2.0 * n) == w / 2.0
  {
    var h := zz / (2.0 * n);
    DivideAndMultiply(zz, n);
    DivideAndMultiply(zz, 2.0 * n);
    SignOfProduct(n, w);
    assert n * (2.0 * h) == (2.0 * n) * h;
    Cancel(n, 2.0 * h, w);
  }

  lemma Cancel(a: real, x: real, y: real)
    requires a > 0.0 && a * x == a * y
    ensures x == y
  {
    assert a * (x - y) == 0.0;
  }

  lemma ConstantTerm(p: real, w: real, mid: real, off: real, zroot: real)
    requires Cleared(p, w, mid, off, zroot)
    ensures (1.0 + w) * (mid * mid) - (1.0 + w) * (off * off) == p * p
  {
    var a := 1.0 + w;
    var d := a * (mid * mid) - a * (off * off);
    assert a * d == (a * mid) * (a * mid) - (a * off) * (a * off);
    assert (p + w / 2.0) * (p + w / 2.0) == p * p + p * w + w * w / 4.0;
    assert w * (p * (1.0 - p)) == w * p - w * (p * p);
    assert a * d == a * (p * p);
    Cancel(a, d, p * p);
  }

  lemma ScoreFactors(p: real, w: real, mid: real, off: real, zroot: real, x: real)
    requires Cleared(p, w, mid, off, zroot)
    ensures Score(p, w, x) == (1.0 + w) * ((x - (mid - off)) * (x - (mid + off)))
  {
    ConstantTerm(p, w, mid, off, zroot);
    Factored(1.0 + w, 2.0 * p + w, p * p, mid, off, x);
  }

  // ---------- the bounds ----------

  lemma SignOfProduct(a: real, x: real)
    requires a > 0.0
    ensures x > 0.0 ==> a * x > 0.0
    ensures x < 0.0 ==> a * x < 0.0
    ensures x == 0.0 ==> a * x == 0.0
  {
  }

  lemma SignOfFactors(a: real, u: real, v: real)
    requires a > 0.0
    ensures a * (u * v) <= 0.0 && u >= v ==> v <= 0.0 <= u
    ensures a * (u * v) >= 0.0 && u > 0.0 ==> v >= 0.0
    ensures a * (u * v) == 0.0 ==> u == 0.0 || v == 0.0
  {
    SignOfProduct(a, u * v);
    if u > 0.0 {
      SignOfProduct(u, v);
    }
    if u < 0.0 {
      SignOfProduct(-u, v);
    }
  }

  lemma ScoreAtEnds(p: real, w: real)
    requires 0.0 <= p <= 1.0 && w > 0.0
    ensures Score(p, w, 0.0) >= 0.0 && Score(p, w, 1.0) >= 0.0 && Score(p, w, p) <= 0.0
  {
    var q := 1.0 - p;
    assert Score(p, w, 0.0) == p * p;
    assert Score(p, w, 1.0) == q * q;
    assert Score(p, w, p) == -(w * (p * q));
    if p > 0.0 {
      SignOfProduct(p, q);
    }
    SignOfProduct(w, p * q);
  }

  lemma MiddleInUnit(p: real, w: real, mid: real, off: real, zroot: real)
    requires 0.0 <= p <= 1.0 && Cleared(p, w, mid, off, zroot)
    ensures w > 0.0 && 0.0 < mid < 1.0 && off >= 0.0
  {
    SignOfProduct(1.0 + w, mid);
    SignOfProduct(1.0 + w, off);
    SignOfProduct(1.0 + w, 1.0 - mid);
    assert (1.0 + w) * (1.0 - mid) == 1.0 + w / 2.0 - p;
  }

  lemma RootsEnclose(p: real, w: real, mid: real, off: real, zroot: real)
    requires 0.0 <= p <= 1.0 && Cleared(p, w, mid, off, zroot)
    ensures 0.0 <= mid - off <= p <= mid + off <= 1.0
  {
    hide Score, Cleared;
    MiddleInUnit(p, w, mid, off, zroot);
    ScoreAtEnds(p, w);
    ScoreFactors(p, w, mid, off, zroot, 0.0);
    ScoreFactors(p, w, mid, off, zroot, p);
    ScoreFactors(p, w, mid, off, zroot, 1.0);
    Enclose(1.0 + w, p, mid - off, mid + off);
  }

  lemma Enclose(a: real, p: real, low: real, high: real)
    requires a > 0.0 && low <= high && high > 0.0 && low < 1.0
    requires a * ((0.0 - low) * (0.0 - high)) >= 0.0
    requires a * ((p - low) * (p - high)) <= 0.0
    requires a * ((1.0 - low) * (1.0 - high)) >= 0.0
    ensures 0.0 <= low <= p <= high <= 1.0
  {
    SignOfFactors(a, p - low, p - high);
    assert (0.0 - low) * (0.0 - high) == high * low;
    SignOfFactors(a, high, low);
    SignOfFactors(a, 1.0 - low, 1.0 - high);
  }

  lemma RootsExactly(p: real, w: real, mid: real, off: real, zroot: real, x: real)
    requires Cleared(p, w, mid, off, zroot)
    ensures IsRoot(p, w, x) <==> x == mid - off || x == mid + off
  {
    ScoreFactors(p, w, mid, off, zroot, x);
    SignOfFactors(1.0 + w, x - (mid - off), x - (mid + off));
  }

  /** Ninety-five per cent: the square of 1.96. */
  lemma SquaredZ()
    ensures Z * Z == 3.8416
  {
  }

  /**
    In exact arithmetic the bounds are the two roots of the score equation and
    enclose the observed rate within the unit interval, so the clamps never bind.
   */
  lemma BoundsAreRoots(successes: nat, observations: nat, root: real)
    requires observations >= 1 && successes <= observations
    requires root >= 0.0 && root * root == Radicand(successes, observations)
    ensures WilsonInterval(successes, observations, root).Some?
    ensures var n, p := observations as real, successes as real / observations as real;
            var w, interval := 3.8416 / n, WilsonInterval(successes, observations, root).value;
            && (forall x :: IsRoot(p, w, x) <==> x == interval.lower || x == interval.upper)
            && 0.0 <= interval.lower <= p <= interval.upper <= 1.0
            && interval == Interval(Center(p, n) - Spread(root, n), Center(p, n) + Spread(root, n))
  {
    hide Score, Center, Spread;
    SquaredZ();
    var n, p := observations as real, Proportion(successes, observations);
    RateInUnit(successes, observations);
    ClearedForm(p, n, root);
    RootsEnclose(p, Z * Z / n, Center(p, n), Spread(root, n), Z * root);
    var w := Z * Z / n;
    forall x ensures IsRoot(p, w, x) <==> x == Center(p, n) - Spread(root, n) || x == Center(p, n) + Spread(root, n) {
      RootsExactly(p, w, Center(p, n), Spread(root, n), Z * root, x);
    }
  }

  /** The equation: x solves (1 + w) x^2 - (2 p + w) x + p^2 = 0. */
  lemma RootReads(p: real, w: real, x: real)
    ensures IsRoot(p, w, x) <==> (1.0 + w) * (x * x) - (2.0 * p + w) * x + p * p == 0.0
  {
  }

  /** What the root is taken of. */
  lemma RadicandReads(successes: nat, observations: nat)
    requires observations >= 1
    ensures var n, p := observations as real, successes as real / observations as real;
            Radicand(successes, observations) == p * (1.0 - p) / n + 3.8416 / (4.0 * (n * n))
  {
    SquaredZ();
  }

  /** Without an observation there is no interval. */
  lemma NoObservationNoInterval(successes: nat, observations: nat, root: real)
    ensures WilsonInterval(successes, observations, root).None? <==> observations == 0
  {
  }

  lemma RateInUnit(successes: nat, observations: nat)
    requires observations >= 1 && successes <= observations
    ensures 0.0 <= Proportion(successes, observations) <= 1.0
  {
  }
}
