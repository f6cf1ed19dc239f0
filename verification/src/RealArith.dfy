/** Products and means of reals as named functions, with the few laws the detectors need. */
module RealArith {

  function Times(a: real, b: real): real {
    a * b
  }

  lemma Monotone(x: real, a: real, b: real)
    requires x >= 0.0 && a <= b
    ensures Times(x, a) <= Times(x, b)
  {
  }

  lemma Distributes(x: real, a: real, b: real)
    ensures Times(x, a + b) == Times(x, a) + Times(x, b)
    ensures Times(a + b, x) == Times(a, x) + Times(b, x)
  {
  }

  lemma Associates(a: real, b: real, c: real)
    ensures Times(a, Times(b, c)) == Times(Times(a, b), c) == Times(b, Times(a, c))
  {
  }

  /** Between the products with 0 and with 1. */
  lemma Shrinks(b: real, p: real)
    requires 0.0 <= b <= 1.0 && 0.0 <= p
    ensures 0.0 <= Times(b, p) <= p
  {
    Monotone(b, 0.0, p);
    Monotone(p, b, 1.0);
  }

  function Magnitude(x: real): real {
    if x < 0.0 then -x else x
  }

  function Sum(h: seq<real>): real {
    if h == [] then 0.0 else Sum(h[..|h| - 1]) + h[|h| - 1]
  }

  /** A sum over a number of values. */
  function Mean(sum: real, n: nat): real
    requires n > 0
  {
    sum / n as real
  }

  function Power(b: real, n: nat): real {
    if n == 0 then 1.0 else Times(b, Power(b, n - 1))
  }

  lemma {:induction false} PowerShrinks(b: real, m: nat, n: nat)
    requires 0.0 <= b <= 1.0 && m <= n
    ensures 0.0 <= Power(b, n) <= Power(b, m) <= 1.0
  {
    if n > 0 {
      PowerShrinks(b, if m < n then m else n - 1, n - 1);
      Shrinks(b, Power(b, n - 1));
    }
  }

  lemma BernoulliStep(l: real, p: real, n: nat)
    requires 0.0 < l <= 1.0 && 0.0 <= p
    ensures Times(Times(1.0 - l, p), 1.0 + (n + 1) as real * l) <= Times(p, 1.0 + n as real * l)
  {
    var a := n as real * l;
    assert (n + 1) as real * l == a + l;
    assert Times(1.0 - l, 1.0 + a + l) <= 1.0 + a by {
      Monotone(l, 0.0, a + l);
    }
    Monotone(p, Times(1.0 - l, 1.0 + a + l), 1.0 + a);
    Associates(1.0 - l, p, 1.0 + a + l);
  }

  /** (1 - l)^n <= 1 / (1 + n l). */
  lemma {:induction false} Bernoulli(l: real, n: nat)
    requires 0.0 < l <= 1.0
    ensures Times(Power(1.0 - l, n), 1.0 + n as real * l) <= 1.0
  {
    if n > 0 {
      Bernoulli(l, n - 1);
      PowerShrinks(1.0 - l, 0, n - 1);
      BernoulliStep(l, Power(1.0 - l, n - 1), n - 1);
    }
  }

  lemma Reciprocal(x: real)
    requires x > 0.0
    ensures ((1.0 / x).Floor + 1) as real * x >= 1.0
  {
    var k := ((1.0 / x).Floor + 1) as real;
    assert (1.0 / x) * x == 1.0;
    Monotone(x, 1.0 / x, k);
  }

  /** Powers of 1 - l fall below any positive number. */
  lemma PowerVanishes(l: real, d: real) returns (n: nat)
    requires 0.0 < l <= 1.0 && d > 0.0
    ensures Power(1.0 - l, n) < d
  {
    var ld := Times(l, d);
    assert 1.0 / ld >= 0.0;
    n := (1.0 / ld).Floor + 1;
    Reciprocal(ld);
    Bernoulli(l, n);
    var p, kl := Power(1.0 - l, n), n as real * l;
    assert Times(1.0 + kl, d) == d + n as real * ld;
    if p >= d {
      Monotone(1.0 + kl, d, p);
    }
  }
}
