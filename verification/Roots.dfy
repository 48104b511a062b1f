// Roots of polynomials over a prime field: a polynomial with more roots than
// coefficients vanishes, and a product of differences vanishes only at a root.
module Roots {
  import opened ModArith
  import opened Polynomial

  ghost predicate DistinctMod(xs: seq<int>, p: int)
    requires p > 0
  {
    forall i, j :: 0 <= i < j < |xs| ==> !Cong(xs[j], xs[i], p)
  }

  // The quotient of a by (x - c).
  ghost function Deflate(a: Poly, c: int): (q: Poly)
    ensures |q| == (if a == [] then 0 else |a| - 1)
  {
    if |a| <= 1 then [] else [Eval(a[1..], c)] + Deflate(a[1..], c)
  }

  lemma {:induction false} DeflateEval(a: Poly, c: int, x: int)
    ensures Eval(a, x) == (x - c) * Eval(Deflate(a, c), x) + Eval(a, c)
  {
    if |a| <= 1 {
      assert Eval(Deflate(a, c), x) == 0;
    } else {
      var t := a[1..];
      DeflateEval(t, c, x);
      var q, v := Eval(Deflate(t, c), x), Eval(t, c);
      assert Deflate(a, c)[1..] == Deflate(t, c);
      assert Eval(Deflate(a, c), x) == v + x * q;
      DivideStep(a[0], x, c, q, v);
    }
  }

  lemma DivideStep(a: int, x: int, c: int, q: int, v: int)
    ensures a + x * ((x - c) * q + v) == (x - c) * (v + x * q) + (a + c * v)
  {
    calc {
      a + x * ((x - c) * q + v);
      { MulDist3(x, (x - c) * q, v); MulSwap(x, x - c, q); MulSwap2(x, x - c, q); MulSwap2(x, q, x - c); }
      a + (x - c) * (x * q) + x * v;
      { MulDist(x - c, c, v); }
      a + (x - c) * (x * q) + (x - c) * v + c * v;
      { MulDist3(x - c, v, x * q); }
      (x - c) * (v + x * q) + (a + c * v);
    }
  }

  lemma {:induction false} DeflateCoef(a: Poly, c: int, k: nat)
    requires a != []
    ensures Coef(a, k + 1) == Coef(Deflate(a, c), k) - c * Coef(Deflate(a, c), k + 1)
    ensures a[0] == Eval(a, c) - c * Coef(Deflate(a, c), 0)
    decreases |a|
  {
    var q := Deflate(a, c);
    if |a| > 1 {
      DeflateCoef(a[1..], c, if k == 0 then 0 else k - 1);
      assert q[1..] == Deflate(a[1..], c);
      assert Coef(q, k + 1) == Coef(q[1..], k);
      if k > 0 {
        assert Coef(a, k + 1) == Coef(a[1..], k);
        assert Coef(q, k) == Coef(q[1..], k - 1);
      }
    }
  }

  // Fewer coefficients than distinct roots: all coefficients are zero mod p.
  lemma {:induction false} ManyRoots(a: Poly, xs: seq<int>, p: int)
    requires IsPrime(p) && DistinctMod(xs, p) && |a| <= |xs|
    requires forall i :: 0 <= i < |xs| ==> Cong(Eval(a, xs[i]), 0, p)
    ensures forall k :: Cong(Coef(a, k), 0, p)
    decreases |a|
  {
    if a != [] {
      var l := |xs| - 1;
      var c, q, ys := xs[l], Deflate(a, xs[l]), xs[..l];
      forall i | 0 <= i < l ensures Cong(Eval(q, ys[i]), 0, p) {
        RootOfDeflate(a, c, xs[i], p);
      }
      ManyRoots(q, ys, p);
      forall k ensures Cong(Coef(a, k), 0, p) {
        if k == 0 {
          DeflateCoef(a, c, 0);
          CoefFromDeflate(Coef(a, 0), Eval(a, c), c, Coef(q, 0), p);
        } else if k > 0 {
          DeflateCoef(a, c, k - 1);
          assert Cong(Coef(q, k - 1), 0, p) && Cong(Coef(q, k), 0, p);
          CoefFromDeflate(Coef(a, k), Coef(q, k - 1), c, Coef(q, k), p);
        }
      }
    }
  }

  lemma CoefFromDeflate(a: int, u: int, c: int, v: int, p: int)
    requires p > 0 && a == u - c * v && Cong(u, 0, p) && Cong(v, 0, p)
    ensures Cong(a, 0, p)
  {
    MulCong(c, c, v, 0, p);
    SubCong(u, 0, c * v, 0, p);
  }

  lemma RootOfDeflate(a: Poly, c: int, x: int, p: int)
    requires IsPrime(p) && !Cong(c, x, p)
    requires Cong(Eval(a, c), 0, p) && Cong(Eval(a, x), 0, p)
    ensures Cong(Eval(Deflate(a, c), x), 0, p)
  {
    var q := Eval(Deflate(a, c), x);
    DeflateEval(a, c, x);
    SubCong(Eval(a, x), 0, Eval(a, c), 0, p);
    NotCongDiff(x, c, p);
    NoZeroDivisors(x - c, q, p);
  }

  lemma NotCongDiff(x: int, c: int, p: int)
    requires p > 0 && !Cong(c, x, p)
    ensures !Cong(x - c, 0, p)
  {
    if Cong(x - c, 0, p) {
      AddCong(x - c, 0, c, c, p);
    }
  }

  // Two short polynomials that agree at enough points have the same coefficients.
  lemma Agreement(a: Poly, b: Poly, xs: seq<int>, p: int)
    requires IsPrime(p) && DistinctMod(xs, p) && |a| <= |xs| && |b| <= |xs|
    requires forall i :: 0 <= i < |xs| ==> Cong(Eval(a, xs[i]), Eval(b, xs[i]), p)
    ensures SameCoefs(a, b, p)
  {
    hide Eval, DistinctMod;
    var d := LinearComb(a, b, -1)[..Max(|a|, |b|)];
    assert d == LinearComb(a, b, -1);
    forall i | 0 <= i < |xs| ensures Cong(Eval(d, xs[i]), 0, p) {
      LinearCombEval(a, b, -1, xs[i]);
      SubCong(Eval(a, xs[i]), Eval(b, xs[i]), Eval(b, xs[i]), Eval(b, xs[i]), p);
    }
    ManyRoots(d, xs, p);
    forall k ensures Cong(Coef(a, k), Coef(b, k), p) {
      assert Coef(d, k) == Coef(a, k) - Coef(b, k);
      AddCong(Coef(d, k), 0, Coef(b, k), Coef(b, k), p);
    }
  }

  // ---- Products of differences --------------------------------------------

  // The product of x - xs[j] over the j below n other than i.
  function ProdExcept(xs: seq<int>, x: int, i: int, n: nat): int
    requires n <= |xs|
  {
    if n == 0 then 1
    else if n - 1 == i then ProdExcept(xs, x, i, n - 1)
    else ProdExcept(xs, x, i, n - 1) * (x - xs[n - 1])
  }

  lemma {:induction false} ProdZero(xs: seq<int>, k: nat, i: int, n: nat)
    requires k < n <= |xs| && k != i
    ensures ProdExcept(xs, xs[k], i, n) == 0
  {
    if k < n - 1 {
      ProdZero(xs, k, i, n - 1);
    }
  }

  lemma {:induction false} ProdNonzero(xs: seq<int>, i: nat, n: nat, p: int)
    requires IsPrime(p) && DistinctMod(xs, p) && i < |xs| && n <= |xs|
    ensures !Cong(ProdExcept(xs, xs[i], i, n), 0, p)
  {
    if n == 0 {
      SmallMod(1, p);
      SmallMod(0, p);
    } else {
      ProdNonzero(xs, i, n - 1, p);
      if n - 1 != i {
        var d := xs[i] - xs[n - 1];
        NotCongDiff(xs[i], xs[n - 1], p);
        var a := ProdExcept(xs, xs[i], i, n - 1);
        if Cong(a * d, 0, p) {
          NoZeroDivisors(a, d, p);
        }
      }
    }
  }

  lemma {:induction false} RootsZero(xs: seq<int>, i: nat)
    requires i < |xs|
    ensures RootsAt(xs, xs[i]) == 0
    decreases |xs|
  {
    if i < |xs| - 1 {
      RootsZero(xs[..|xs| - 1], i);
    }
  }
}
