/** Polynomials over GF(2^8): root counting and Lagrange interpolation. */
module Polynomials {
  import opened Galois

  /** Coefficients, lowest degree first. */
  type Poly = seq<bv8>

  function Eval(c: Poly, x: bv8): bv8 {
    if c == [] then 0 else Add(Mul(Eval(c[1..], x), x), c[0])
  }

  function Plus(p: Poly, q: Poly): (r: Poly)
    requires |p| == |q|
    ensures |r| == |p|
    ensures forall i :: 0 <= i < |p| ==> r[i] == Add(p[i], q[i])
  {
    if p == [] then [] else [Add(p[0], q[0])] + Plus(p[1..], q[1..])
  }

  function Scale(p: Poly, k: bv8): (r: Poly)
    ensures |r| == |p|
  {
    if p == [] then [] else [Mul(p[0], k)] + Scale(p[1..], k)
  }

  function Zeros(n: nat): (r: Poly)
    ensures |r| == n
  {
    if n == 0 then [] else [0] + Zeros(n - 1)
  }

  /** The product (x + r) * p. */
  function TimesLinear(p: Poly, r: bv8): (s: Poly)
    ensures |s| == |p| + 1
  {
    Plus([0] + p, Scale(p, r) + [0])
  }

  predicate Distinct<T(==)>(s: seq<T>) {
    forall i, j :: 0 <= i < j < |s| ==> s[i] != s[j]
  }

  predicate Through(c: Poly, xs: seq<bv8>, ys: seq<bv8>)
    requires |xs| == |ys|
  {
    forall i :: 0 <= i < |xs| ==> Eval(c, xs[i]) == ys[i]
  }

  // ---- evaluation is a ring homomorphism ----

  lemma {:induction false} EvalPlus(p: Poly, q: Poly, x: bv8)
    requires |p| == |q|
    ensures Eval(Plus(p, q), x) == Add(Eval(p, x), Eval(q, x))
  {
    hide Add, Mul;
    if p == [] {
      AddLaws(0, 0, 0);
    } else {
      EvalPlus(p[1..], q[1..], x);
      var u, v := Eval(p[1..], x), Eval(q[1..], x);
      assert Plus(p, q)[1..] == Plus(p[1..], q[1..]);
      MulDistributes(u, v, x);
      AddInterchange(Mul(u, x), p[0], Mul(v, x), q[0]);
    }
  }

  lemma {:induction false} EvalScale(p: Poly, k: bv8, x: bv8)
    ensures Eval(Scale(p, k), x) == Mul(Eval(p, x), k)
  {
    hide Add, Mul;
    if p == [] {
      Zero(k);
    } else {
      EvalScale(p[1..], k, x);
      assert Scale(p, k)[1..] == Scale(p[1..], k);
      var u := Eval(p[1..], x);
      MulDistributes(Mul(u, x), p[0], k);
      MulAssociates(u, x, k);
      MulCommutes(x, k);
      MulAssociates(u, k, x);
    }
  }

  lemma {:induction false} EvalZeros(n: nat, x: bv8)
    ensures Eval(Zeros(n), x) == 0
  {
    hide Add, Mul;
    if n > 0 {
      EvalZeros(n - 1, x);
      assert Zeros(n)[1..] == Zeros(n - 1);
      Zero(x);
      AddLaws(0, 0, 0);
    }
  }

  lemma {:induction false} EvalAppendZero(p: Poly, x: bv8)
    ensures Eval(p + [0], x) == Eval(p, x)
  {
    hide Add, Mul;
    if p == [] {
      assert p + [0] == Zeros(1);
      EvalZeros(1, x);
    } else {
      EvalAppendZero(p[1..], x);
      assert (p + [0])[1..] == p[1..] + [0];
    }
  }

  lemma EvalTimesLinear(p: Poly, r: bv8, x: bv8)
    ensures Eval(TimesLinear(p, r), x) == Mul(Eval(p, x), Add(x, r))
  {
    hide Add, Mul;
    EvalPlus([0] + p, Scale(p, r) + [0], x);
    EvalAppendZero(Scale(p, r), x);
    EvalScale(p, r, x);
    assert ([0] + p)[1..] == p;
    AddLaws(Mul(Eval(p, x), x), 0, 0);
    MulDistributes(Eval(p, x), x, r);
  }

  lemma EvalAtZero(c: Poly)
    requires c != []
    ensures Eval(c, 0) == c[0]
  {
    hide Add, Mul;
    Zero(Eval(c[1..], 0));
    AddLaws(c[0], 0, 0);
  }

  lemma NoZeroDivisors(a: bv8, b: bv8)
    requires Mul(a, b) == 0
    ensures a == 0 || b == 0
  {
    hide Mul, Inverse;
    if a != 0 {
      InverseIsInverse(a);
      MulCommutes(a, Inverse(a));
      MulAssociates(Inverse(a), a, b);
      OneLeft(b);
      Zero(Inverse(a));
    }
  }

  // ---- root counting ----

  /** The quotient of c(x) - c(r) by (x - r). */
  function Quotient(c: Poly, r: bv8): (q: Poly)
    requires c != []
    ensures |q| == |c| - 1
  {
    if |c| == 1 then [] else [Eval(c[1..], r)] + Quotient(c[1..], r)
  }

  lemma {:induction false} FactorTheorem(c: Poly, r: bv8, x: bv8)
    requires c != []
    ensures Add(Eval(c, x), Eval(c, r)) == Mul(Add(x, r), Eval(Quotient(c, r), x))
  {
    hide Add, Mul;
    var u, v := Eval(c[1..], x), Eval(c[1..], r);
    AddInterchange(Mul(u, x), c[0], Mul(v, r), c[0]);
    AddLaws(c[0], 0, 0);
    AddLaws(Add(Mul(u, x), Mul(v, r)), 0, 0);
    if |c| == 1 {
      Zero(x);
      Zero(r);
      Zero(Add(x, r));
      AddLaws(0, 0, 0);
    } else {
      var w := Eval(Quotient(c[1..], r), x);
      FactorTheorem(c[1..], r, x);
      assert Quotient(c, r)[1..] == Quotient(c[1..], r);
      // u == v + (x + r) w, so u x + v r == (x + r) (v + w x)
      var s := Add(x, r);
      assert u == Add(v, Mul(s, w)) by { AddLaws(u, v, 0); AddLaws(v, u, 0); }
      MulDistributes(v, Mul(s, w), x);
      MulDistributes(v, x, r);
      MulAssociates(s, w, x);
      MulDistributes(s, Mul(w, x), v);
      MulCommutes(s, v);
      AddLaws(Mul(v, x), Mul(Mul(s, w), x), Mul(v, r));
      AddLaws(Mul(Mul(s, w), x), Mul(v, r), 0);
      AddLaws(Mul(v, x), Mul(v, r), Mul(Mul(s, w), x));
      AddLaws(Mul(s, Mul(w, x)), Mul(s, v), 0);
    }
  }

  predicate AllZero(c: Poly) { forall i :: 0 <= i < |c| ==> c[i] == 0 }

  lemma {:induction false} ZeroQuotient(c: Poly, r: bv8)
    requires c != [] && Eval(c, r) == 0 && AllZero(Quotient(c, r))
    ensures AllZero(c)
  {
    hide Add, Mul;
    if |c| > 1 {
      assert Quotient(c, r)[1..] == Quotient(c[1..], r);
      assert Eval(c[1..], r) == Quotient(c, r)[0] == 0;
      ZeroQuotient(c[1..], r);
      assert forall i :: 1 <= i < |c| ==> c[i] == c[1..][i - 1];
    }
    Zero(r);
    AddLaws(c[0], 0, 0);
  }

  /** A polynomial with at least as many distinct roots as coefficients is zero. */
  lemma {:induction false} RootCount(c: Poly, roots: seq<bv8>)
    requires |roots| >= |c| && Distinct(roots)
    requires forall i :: 0 <= i < |roots| ==> Eval(c, roots[i]) == 0
    ensures AllZero(c)
    decreases |c|
  {
    hide Add, Mul;
    if c != [] {
      var r, rest := roots[0], roots[1..];
      forall i | 0 <= i < |rest|
        ensures Eval(Quotient(c, r), rest[i]) == 0
      {
        var x := rest[i];
        assert x == roots[i + 1];
        FactorTheorem(c, r, x);
        AddLaws(0, 0, 0);
        AddLaws(x, r, 0);
        NoZeroDivisors(Add(x, r), Eval(Quotient(c, r), x));
      }
      RootCount(Quotient(c, r), rest);
      ZeroQuotient(c, r);
    }
  }

  /** Two polynomials of n coefficients agreeing at n distinct points are equal. */
  lemma Uniqueness(p: Poly, q: Poly, xs: seq<bv8>)
    requires |p| == |q| <= |xs| && Distinct(xs)
    requires forall i :: 0 <= i < |xs| ==> Eval(p, xs[i]) == Eval(q, xs[i])
    ensures p == q
  {
    hide Add, Mul;
    forall i | 0 <= i < |xs| ensures Eval(Plus(p, q), xs[i]) == 0 {
      EvalPlus(p, q, xs[i]);
      AddLaws(Eval(p, xs[i]), 0, 0);
    }
    RootCount(Plus(p, q), xs);
    forall i | 0 <= i < |p| ensures p[i] == q[i] {
      AddLaws(p[i], q[i], 0);
    }
  }

  // ---- Lagrange interpolation ----

  /** The product of (z + xs[j]) over the first n indices other than i. */
  function Others(xs: seq<bv8>, i: nat, n: nat, z: bv8): bv8
    requires n <= |xs|
  {
    if n == 0 then 1
    else if n - 1 == i then Others(xs, i, n - 1, z)
    else Mul(Others(xs, i, n - 1, z), Add(z, xs[n - 1]))
  }

  /** The same product as a polynomial in z. */
  function Basis(xs: seq<bv8>, i: nat, n: nat): (p: Poly)
    requires n <= |xs|
    ensures |p| == if i < n then n else n + 1
  {
    if n == 0 then [1]
    else if n - 1 == i then Basis(xs, i, n - 1)
    else TimesLinear(Basis(xs, i, n - 1), xs[n - 1])
  }

  /** The weight the source gives the i-th share: num / den, taken at z. */
  function Weight(xs: seq<bv8>, i: nat, z: bv8): bv8
    requires i < |xs|
  {
    Mul(Others(xs, i, |xs|, z), Inverse(Others(xs, i, |xs|, xs[i])))
  }

  function WeightedSum(xs: seq<bv8>, ys: seq<bv8>, n: nat, z: bv8): bv8
    requires n <= |xs| == |ys|
  {
    if n == 0 then 0 else Add(WeightedSum(xs, ys, n - 1, z), Mul(ys[n - 1], Weight(xs, n - 1, z)))
  }

  /** The interpolating polynomial through the points, summed over the first n. */
  function Lagrange(xs: seq<bv8>, ys: seq<bv8>, n: nat): (p: Poly)
    requires n <= |xs| == |ys|
    ensures |p| == |xs|
  {
    if n == 0 then Zeros(|xs|)
    else Plus(Lagrange(xs, ys, n - 1),
              Scale(Basis(xs, n - 1, |xs|), Mul(ys[n - 1], Inverse(Others(xs, n - 1, |xs|, xs[n - 1])))))
  }

  lemma {:induction false} EvalBasis(xs: seq<bv8>, i: nat, n: nat, z: bv8)
    requires n <= |xs|
    ensures Eval(Basis(xs, i, n), z) == Others(xs, i, n, z)
  {
    hide Add, Mul;
    if n == 0 {
      Zero(z);
      AddLaws(1, 0, 0);
    } else {
      EvalBasis(xs, i, n - 1, z);
      EvalTimesLinear(Basis(xs, i, n - 1), xs[n - 1], z);
    }
  }

  lemma {:induction false} EvalLagrange(xs: seq<bv8>, ys: seq<bv8>, n: nat, z: bv8)
    requires n <= |xs| == |ys|
    ensures Eval(Lagrange(xs, ys, n), z) == WeightedSum(xs, ys, n, z)
  {
    hide Add, Mul, Inverse;
    if n == 0 {
      EvalZeros(|xs|, z);
    } else {
      EvalLagrange(xs, ys, n - 1, z);
      var i := n - 1;
      var inv := Inverse(Others(xs, i, |xs|, xs[i]));
      var b := Basis(xs, i, |xs|);
      EvalPlus(Lagrange(xs, ys, i), Scale(b, Mul(ys[i], inv)), z);
      EvalScale(b, Mul(ys[i], inv), z);
      EvalBasis(xs, i, |xs|, z);
      var o := Others(xs, i, |xs|, z);
      MulCommutes(o, Mul(ys[i], inv));
      MulAssociates(ys[i], inv, o);
      MulCommutes(inv, o);
    }
  }

  lemma {:induction false} OthersNonzero(xs: seq<bv8>, i: nat, n: nat)
    requires n <= |xs| && i < |xs| && Distinct(xs)
    ensures Others(xs, i, n, xs[i]) != 0
  {
    hide Add, Mul;
    if n > 0 {
      OthersNonzero(xs, i, n - 1);
      if n - 1 != i {
        AddLaws(xs[i], xs[n - 1], 0);
        if Mul(Others(xs, i, n - 1, xs[i]), Add(xs[i], xs[n - 1])) == 0 {
          NoZeroDivisors(Others(xs, i, n - 1, xs[i]), Add(xs[i], xs[n - 1]));
        }
      }
    }
  }

  lemma {:induction false} OthersVanish(xs: seq<bv8>, i: nat, k: nat, n: nat)
    requires k < n <= |xs| && i != k
    ensures Others(xs, i, n, xs[k]) == 0
  {
    hide Add, Mul;
    AddLaws(xs[k], 0, 0);
    Zero(Others(xs, i, n - 1, xs[k]));
    if n - 1 != k {
      OthersVanish(xs, i, k, n - 1);
      Zero(Add(xs[k], xs[n - 1]));
    }
  }

  lemma WeightIsDelta(xs: seq<bv8>, i: nat, k: nat)
    requires i < |xs| && k < |xs| && Distinct(xs)
    ensures Weight(xs, i, xs[k]) == if i == k then 1 else 0
  {
    hide Add, Mul, Inverse;
    var den := Others(xs, i, |xs|, xs[i]);
    OthersNonzero(xs, i, |xs|);
    if i == k {
      InverseIsInverse(den);
    } else {
      OthersVanish(xs, i, k, |xs|);
      Zero(Inverse(den));
    }
  }

  lemma {:induction false} SumAtPoint(xs: seq<bv8>, ys: seq<bv8>, n: nat, k: nat)
    requires n <= |xs| == |ys| && k < |xs| && Distinct(xs)
    ensures WeightedSum(xs, ys, n, xs[k]) == if k < n then ys[k] else 0
  {
    hide Add, Mul, Weight;
    if n > 0 {
      SumAtPoint(xs, ys, n - 1, k);
      WeightIsDelta(xs, n - 1, k);
      OneRight(ys[n - 1]);
      Zero(ys[n - 1]);
      AddLaws(ys[k], 0, 0);
      AddLaws(0, 0, 0);
    }
  }

  /** Lagrange's theorem: the interpolant of n distinct points passes through them. */
  lemma LagrangeThrough(xs: seq<bv8>, ys: seq<bv8>)
    requires |xs| == |ys| && Distinct(xs)
    ensures Through(Lagrange(xs, ys, |xs|), xs, ys)
  {
    hide Eval, WeightedSum, Lagrange;
    forall k | 0 <= k < |xs| ensures Eval(Lagrange(xs, ys, |xs|), xs[k]) == ys[k] {
      EvalLagrange(xs, ys, |xs|, xs[k]);
      SumAtPoint(xs, ys, |xs|, k);
    }
  }

  lemma {:induction false} EvalPadded(c: Poly, n: nat, x: bv8)
    ensures Eval(c + Zeros(n), x) == Eval(c, x)
    decreases n
  {
    hide Eval;
    if n == 0 {
      assert c + Zeros(0) == c;
    } else {
      EvalPadded(c + [0], n - 1, x);
      EvalAppendZero(c, x);
      assert c + [0] + Zeros(n - 1) == c + Zeros(n);
    }
  }

  /** The weighted sum recovers any polynomial of at most |xs| coefficients, everywhere. */
  lemma Interpolation(c: Poly, xs: seq<bv8>, ys: seq<bv8>, z: bv8)
    requires |xs| == |ys| && Distinct(xs) && |c| <= |xs| && Through(c, xs, ys)
    ensures WeightedSum(xs, ys, |xs|, z) == Eval(c, z)
  {
    hide Eval, WeightedSum, Lagrange, Zeros;
    var l := Lagrange(xs, ys, |xs|);
    var d := c + Zeros(|xs| - |c|);
    LagrangeThrough(xs, ys);
    forall i | 0 <= i < |xs| ensures Eval(l, xs[i]) == Eval(d, xs[i]) {
      EvalPadded(c, |xs| - |c|, xs[i]);
    }
    Uniqueness(l, d, xs);
    EvalPadded(c, |xs| - |c|, z);
    EvalLagrange(xs, ys, |xs|, z);
  }

  /** Fewer points than coefficients miss: interpolating a polynomial of degree exactly |xs| from
      |xs| non-zero points never gives its constant term. */
  lemma ShortMisses(c: Poly, xs: seq<bv8>, ys: seq<bv8>)
    requires |xs| == |ys| && Distinct(xs) && 0 !in xs && Through(c, xs, ys)
    requires |c| == |xs| + 1 && c[|xs|] != 0
    ensures WeightedSum(xs, ys, |xs|, 0) != c[0]
  {
    hide Eval, WeightedSum, Lagrange;
    var l := Lagrange(xs, ys, |xs|);
    LagrangeThrough(xs, ys);
    EvalLagrange(xs, ys, |xs|, 0);
    EvalAtZero(c);
    if WeightedSum(xs, ys, |xs|, 0) == c[0] {
      var points := xs + [0];
      forall i | 0 <= i < |points| ensures Eval(l + [0], points[i]) == Eval(c, points[i]) {
        EvalAppendZero(l, points[i]);
      }
      Uniqueness(l + [0], c, points);
    }
  }
}
