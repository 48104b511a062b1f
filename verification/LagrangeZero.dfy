// Lagrange interpolation at zero: shares of a polynomial, weighted, give back
// its constant term.
module LagrangeZero {
  import opened ModArith
  import opened Polynomial
  import opened Roots

  // Weight i over the nodes below n: its product with the differences at node i
  // is the product of the differences at 0.
  ghost predicate IsWeight(l: int, xs: seq<int>, i: nat, n: nat, p: int)
    requires p > 0 && i < |xs| && n <= |xs|
  {
    Cong(l * ProdExcept(xs, xs[i], i, n), ProdExcept(xs, 0, i, n), p)
  }

  function Weighted(ls: seq<int>, ys: seq<int>, k: nat): int
    requires k <= |ls| && k <= |ys|
  {
    if k == 0 then 0 else Weighted(ls, ys, k - 1) + ls[k - 1] * ys[k - 1]
  }

  // The product of the x - xs[j], j < n, j != i, as a polynomial.
  ghost function Basis(xs: seq<int>, i: nat, n: nat): (a: Poly)
    requires n <= |xs|
    ensures a != [] && |a| <= (if i < n then n else n + 1)
  {
    if n == 0 then [1]
    else if n - 1 == i then Basis(xs, i, n - 1)
    else LinearComb([0] + Basis(xs, i, n - 1), Basis(xs, i, n - 1), -xs[n - 1])
  }

  lemma {:induction false} BasisEval(xs: seq<int>, i: nat, n: nat, x: int)
    requires n <= |xs|
    ensures Eval(Basis(xs, i, n), x) == ProdExcept(xs, x, i, n)
  {
    hide Eval, LinearComb;
    if n == 0 {
      One(x);
    } else {
      BasisEval(xs, i, n - 1, x);
      if n - 1 != i { TimesLinear(Basis(xs, i, n - 1), xs[n - 1], x); }
    }
  }

  lemma One(x: int)
    ensures Eval([1], x) == 1
  {
    assert Eval([1], x) == 1 + x * Eval([], x);
  }

  lemma TimesLinear(b: Poly, c: int, x: int)
    ensures Eval(LinearComb([0] + b, b, -c), x) == Eval(b, x) * (x - c)
  {
    LinearCombEval([0] + b, b, -c, x);
    assert ([0] + b)[1..] == b;
    assert Eval([0] + b, x) == 0 + x * Eval(b, x);
    hide *;
    FactorOut(Eval(b, x), x, c);
  }

  lemma FactorOut(v: int, x: int, c: int)
    ensures x * v + -c * v == v * (x - c)
  {
  }

  // What node i contributes at its own node is the polynomial's value there.
  function Scale(f: Poly, xs: seq<int>, i: nat, p: int): int
    requires IsPrime(p) && DistinctMod(xs, p) && i < |xs|
  {
    NodeInvertible(xs, i, p);
    InvertMod(ProdExcept(xs, xs[i], i, |xs|), p) * Eval(f, xs[i])
  }

  lemma NodeInvertible(xs: seq<int>, i: nat, p: int)
    requires IsPrime(p) && DistinctMod(xs, p) && i < |xs|
    ensures ProdExcept(xs, xs[i], i, |xs|) % p != 0
  {
    ProdNonzero(xs, i, |xs|, p);
    SmallMod(0, p);
  }

  // The polynomial that agrees with f at the first k nodes.
  ghost function Interpolant(f: Poly, xs: seq<int>, k: nat, p: int): (g: Poly)
    requires IsPrime(p) && DistinctMod(xs, p) && k <= |xs|
    ensures |g| <= |xs|
  {
    if k == 0 then []
    else LinearComb(Interpolant(f, xs, k - 1, p), Basis(xs, k - 1, |xs|), Scale(f, xs, k - 1, p))
  }

  lemma NoInterpolant(f: Poly, xs: seq<int>, p: int)
    requires IsPrime(p) && DistinctMod(xs, p)
    ensures Interpolant(f, xs, 0, p) == []
  {
  }

  lemma InterpolantStep(f: Poly, xs: seq<int>, k: nat, p: int, x: int)
    requires IsPrime(p) && DistinctMod(xs, p) && k < |xs|
    ensures Eval(Interpolant(f, xs, k + 1, p), x)
         == Eval(Interpolant(f, xs, k, p), x) + Scale(f, xs, k, p) * ProdExcept(xs, x, k, |xs|)
  {
    hide Scale, DistinctMod, Eval, Basis;
    LinearCombEval(Interpolant(f, xs, k, p), Basis(xs, k, |xs|), Scale(f, xs, k, p), x);
    BasisEval(xs, k, |xs|, x);
  }

  lemma {:induction false} InterpolantAtNode(f: Poly, xs: seq<int>, k: nat, j: nat, p: int)
    requires IsPrime(p) && DistinctMod(xs, p) && k <= |xs| && j < |xs|
    ensures Cong(Eval(Interpolant(f, xs, k, p), xs[j]), if j < k then Eval(f, xs[j]) else 0, p)
  {
    hide Cong, Eval, DistinctMod, Scale, ProdExcept, Interpolant;
    if k == 0 {
      NoInterpolant(f, xs, p);
      EvalZero([], xs[j]);
      CongRefl(0, p);
    } else {
      InterpolantAtNode(f, xs, k - 1, j, p);
      InterpolantStep(f, xs, k - 1, p, xs[j]);
      var g := Eval(Interpolant(f, xs, k - 1, p), xs[j]);
      if j == k - 1 {
        ScaleAtOwnNode(f, xs, j, p);
        AddCong(g, 0, Scale(f, xs, j, p) * ProdExcept(xs, xs[j], j, |xs|), Eval(f, xs[j]), p);
      } else {
        OtherNode(Scale(f, xs, k - 1, p), xs, j, k - 1);
      }
    }
  }

  lemma OtherNode(s: int, xs: seq<int>, j: nat, i: nat)
    requires j < |xs| && i != j
    ensures s * ProdExcept(xs, xs[j], i, |xs|) == 0
  {
    ProdZero(xs, j, i, |xs|);
  }

  lemma ScaleAtOwnNode(f: Poly, xs: seq<int>, i: nat, p: int)
    requires IsPrime(p) && DistinctMod(xs, p) && i < |xs|
    ensures Cong(Scale(f, xs, i, p) * ProdExcept(xs, xs[i], i, |xs|), Eval(f, xs[i]), p)
  {
    hide Cong, Eval, DistinctMod;
    NodeInvertible(xs, i, p);
    var d, y := ProdExcept(xs, xs[i], i, |xs|), Eval(f, xs[i]);
    var e := InvertMod(d, p);
    CongRefl(y, p);
    MulCong(d * e, 1, y, y, p);
    MulOrder(d, e, y);
  }

  lemma MulOrder(d: int, e: int, y: int)
    ensures d * e * y == e * y * d
  {
  }

  // At zero it contributes the weight times the value.
  lemma ScaleAtZero(f: Poly, xs: seq<int>, i: nat, l: int, p: int)
    requires IsPrime(p) && DistinctMod(xs, p) && i < |xs| && IsWeight(l, xs, i, |xs|, p)
    ensures Cong(Scale(f, xs, i, p) * ProdExcept(xs, 0, i, |xs|), l * Eval(f, xs[i]), p)
  {
    hide Cong, Eval, DistinctMod, Scale;
    var s, d, z, y := Scale(f, xs, i, p), ProdExcept(xs, xs[i], i, |xs|), ProdExcept(xs, 0, i, |xs|), Eval(f, xs[i]);
    ScaleAtOwnNode(f, xs, i, p);
    CongRefl(s, p);
    CongRefl(l, p);
    CongSym(l * d, z, p);
    MulCong(s, s, z, l * d, p);
    MulCong(l, l, s * d, y, p);
    MulOrder3(s, l, d);
    CongTrans(s * z, s * (l * d), l * y, p);
  }

  lemma MulOrder3(s: int, l: int, d: int)
    ensures s * (l * d) == l * (s * d)
  {
  }

  lemma {:induction false} InterpolantAtZero(f: Poly, xs: seq<int>, ls: seq<int>, ys: seq<int>, k: nat, p: int)
    requires IsPrime(p) && DistinctMod(xs, p) && k <= |xs| == |ls| == |ys|
    requires forall i :: 0 <= i < |xs| ==> IsWeight(ls[i], xs, i, |xs|, p) && Cong(ys[i], Eval(f, xs[i]), p)
    ensures Cong(Eval(Interpolant(f, xs, k, p), 0), Weighted(ls, ys, k), p)
  {
    hide Cong, Eval, DistinctMod, Scale, IsWeight, ProdExcept, Interpolant;
    if k == 0 {
      NoInterpolant(f, xs, p);
      EvalZero([], 0);
      CongRefl(0, p);
    } else {
      var i := k - 1;
      InterpolantAtZero(f, xs, ls, ys, i, p);
      InterpolantStep(f, xs, i, p, 0);
      ShareAtZero(f, xs, i, ls[i], ys[i], p);
      AddCong(Eval(Interpolant(f, xs, i, p), 0), Weighted(ls, ys, i),
              Scale(f, xs, i, p) * ProdExcept(xs, 0, i, |xs|), ls[i] * ys[i], p);
    }
  }

  lemma ShareAtZero(f: Poly, xs: seq<int>, i: nat, l: int, y: int, p: int)
    requires IsPrime(p) && DistinctMod(xs, p) && i < |xs| && IsWeight(l, xs, i, |xs|, p) && Cong(y, Eval(f, xs[i]), p)
    ensures Cong(Scale(f, xs, i, p) * ProdExcept(xs, 0, i, |xs|), l * y, p)
  {
    hide Cong, Eval, DistinctMod, Scale, IsWeight, ProdExcept;
    ScaleAtZero(f, xs, i, l, p);
    CongRefl(l, p);
    CongSym(y, Eval(f, xs[i]), p);
    MulCong(l, l, Eval(f, xs[i]), y, p);
    CongTrans(Scale(f, xs, i, p) * ProdExcept(xs, 0, i, |xs|), l * Eval(f, xs[i]), l * y, p);
  }

  // Any at least |f| shares at distinct nodes recombine to the constant term.
  lemma Recombine(f: Poly, xs: seq<int>, ls: seq<int>, ys: seq<int>, p: int)
    requires IsPrime(p) && DistinctMod(xs, p) && |f| <= |xs| == |ls| == |ys|
    requires forall i :: 0 <= i < |xs| ==> IsWeight(ls[i], xs, i, |xs|, p) && Cong(ys[i], Eval(f, xs[i]), p)
    ensures Cong(Weighted(ls, ys, |xs|), Coef(f, 0), p)
  {
    hide Cong, Eval, DistinctMod, Scale, IsWeight, SameCoefs;
    var g := Interpolant(f, xs, |xs|, p);
    forall j | 0 <= j < |xs| ensures Cong(Eval(g, xs[j]), Eval(f, xs[j]), p) {
      InterpolantAtNode(f, xs, |xs|, j, p);
    }
    Agreement(g, f, xs, p);
    EvalCong(g, f, 0, p);
    InterpolantAtZero(f, xs, ls, ys, |xs|, p);
    EvalHead(f, 0);
    CongSym(Eval(g, 0), Weighted(ls, ys, |xs|), p);
    CongTrans(Weighted(ls, ys, |xs|), Eval(g, 0), Eval(f, 0), p);
  }
}
