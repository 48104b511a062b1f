// From a rank-1 constraint system to a quadratic arithmetic program: one
// interpolation polynomial per variable and matrix, over the points 1..m.
module Qap {
  import opened ModArith
  import opened Outcome
  import opened Polynomial
  import opened Roots
  import opened R1cs

  datatype QapSystem = QapSystem(u: seq<Poly>, v: seq<Poly>, w: seq<Poly>, t: Poly)

  // ---- Lagrange interpolation ---------------------------------------------

  // The polynomial takes value ys[k] at xs[k] for k < n, and 0 at the others.
  ghost predicate TakesUpTo(r: Poly, xs: seq<int>, ys: seq<int>, n: nat, p: int)
    requires p > 0 && |xs| == |ys|
  {
    forall k :: 0 <= k < |xs| ==> Cong(Eval(r, xs[k]), if k < n then ys[k] else 0, p)
  }

  // basis is the product of the x - xs[j], j < n, j != i, and denom its value at xs[i].
  ghost predicate IsBasis(basis: Poly, denom: int, xs: seq<int>, i: nat, n: nat, p: int)
    requires p > 0 && i < |xs| && n <= |xs|
  {
    && (forall x :: Cong(Eval(basis, x), ProdExcept(xs, x, i, n), p))
    && Cong(denom, ProdExcept(xs, xs[i], i, n), p)
    && basis != [] && |basis| <= (if i < n then n else n + 1)
  }

  lemma BasisStart(xs: seq<int>, i: nat, p: int)
    requires p > 0 && i < |xs|
    ensures IsBasis([1], 1, xs, i, 0, p)
  {
    forall x ensures Eval([1], x) == 1 {
      assert Eval([1], x) == 1 + x * Eval([], x);
    }
  }

  lemma ProdStep(xs: seq<int>, x: int, i: nat, j: nat)
    requires j < |xs| && i != j
    ensures ProdExcept(xs, x, i, j + 1) == ProdExcept(xs, x, i, j) * (x - xs[j])
  {
  }

  lemma BasisStepAt(v': int, v: int, c: int, xs: seq<int>, i: nat, j: nat, x: int, p: int)
    requires p > 0 && i < |xs| && j < |xs| && i != j
    requires Cong(v, ProdExcept(xs, x, i, j), p) && Cong(c, -xs[j], p)
    requires Cong(v', v * Eval([c, 1], x), p)
    ensures Cong(v', ProdExcept(xs, x, i, j + 1), p)
  {
    hide *;
    LinearEval(c, xs[j], x, p);
    MulThrough(v', v, Eval([c, 1], x), ProdExcept(xs, x, i, j), x - xs[j], p);
    ProdStep(xs, x, i, j);
  }

  lemma BasisStep(basis: Poly, denom: int, basis': Poly, c: int, xs: seq<int>, i: nat, j: nat, p: int)
    requires p > 0 && i < |xs| && j < |xs| && i != j
    requires IsBasis(basis, denom, xs, i, j, p)
    requires Cong(c, -xs[j], p)
    requires basis' != [] && |basis'| <= |basis| + 1
    requires forall x :: Cong(Eval(basis', x), Eval(basis, x) * Eval([c, 1], x), p)
    ensures IsBasis(basis', MulMod(denom, SubMod(xs[i], xs[j], p), p), xs, i, j + 1, p)
  {
    hide Cong, Eval, ProdExcept;
    forall x ensures Cong(Eval(basis', x), ProdExcept(xs, x, i, j + 1), p) {
      BasisStepAt(Eval(basis', x), Eval(basis, x), c, xs, i, j, x, p);
    }
    var d := SubMod(xs[i], xs[j], p);
    MulThrough(MulMod(denom, d, p), denom, d, ProdExcept(xs, xs[i], i, j), xs[i] - xs[j], p);
    ProdStep(xs, xs[i], i, j);
  }

  lemma BasisSkip(basis: Poly, denom: int, xs: seq<int>, i: nat, p: int)
    requires p > 0 && i < |xs| && IsBasis(basis, denom, xs, i, i, p)
    ensures IsBasis(basis, denom, xs, i, i + 1, p)
  {
    forall x ensures ProdExcept(xs, x, i, i + 1) == ProdExcept(xs, x, i, i) {}
    forall x ensures Cong(Eval(basis, x), ProdExcept(xs, x, i, i + 1), p) {
      assert Cong(Eval(basis, x), ProdExcept(xs, x, i, i), p);
    }
  }

  // Adding the scaled basis polynomial fixes the value at xs[i] and no other.
  lemma InterpolateStep(r: Poly, r': Poly, basis: Poly, denom: int, term: Poly, scale: int,
                        xs: seq<int>, ys: seq<int>, i: nat, p: int)
    requires IsPrime(p) && |xs| == |ys| && i < |xs| && DistinctMod(xs, p)
    requires TakesUpTo(r, xs, ys, i, p) && IsBasis(basis, denom, xs, i, |xs|, p)
    requires denom % p != 0 && scale == MulMod(ys[i], InvertMod(denom, p), p)
    requires forall x :: Cong(Eval(term, x), scale * Eval(basis, x), p)
    requires forall x :: Cong(Eval(r', x), Eval(r, x) + Eval(term, x), p)
    ensures TakesUpTo(r', xs, ys, i + 1, p)
  {
    forall k | 0 <= k < |xs| ensures Cong(Eval(r', xs[k]), if k < i + 1 then ys[k] else 0, p) {
      var x := xs[k];
      assert Cong(Eval(r', x), Eval(r, x) + Eval(term, x), p);
      assert Cong(Eval(basis, x), ProdExcept(xs, x, i, |xs|), p);
      assert Cong(Eval(term, x), scale * Eval(basis, x), p);
      if k == i {
        ScaleAtNode(scale, ys[i], denom, Eval(basis, x), p);
        AddCong(Eval(r, x), 0, Eval(term, x), ys[i], p);
      } else {
        ProdZero(xs, k, i, |xs|);
        MulCong(scale, scale, Eval(basis, x), 0, p);
        var y := if k < i then ys[k] else 0;
        AddCong(Eval(r, x), y, Eval(term, x), 0, p);
      }
    }
  }

  lemma ScaleAtNode(scale: int, y: int, denom: int, b: int, p: int)
    requires IsPrime(p) && denom % p != 0 && Cong(b, denom, p)
    requires scale == MulMod(y, InvertMod(denom, p), p)
    ensures Cong(scale * b, y, p)
  {
    var i := InvertMod(denom, p);
    MulCong(scale, y * i, b, denom, p);
    MulRotate(y, i, denom);
    MulCong(y, y, denom * i, 1, p);
  }

  method LagrangeInterpolate(xs: seq<int>, ys: seq<int>, p: int) returns (res: Result<Poly>)
    requires IsPrime(p)
    ensures |xs| != |ys| ==> res.Err?
    ensures |xs| == |ys| && DistinctMod(xs, p) ==>
      && res.Ok? && |res.value| <= |xs| && (xs != [] ==> res.value != []) && Reduced(res.value, p)
      && forall k :: 0 <= k < |xs| ==> Cong(Eval(res.value, xs[k]), ys[k], p)
  {
    if |xs| != |ys| {
      return Err;
    }
    var n := |xs|;
    var result := seq(n, i => 0);
    assert TakesUpTo(result, xs, ys, 0, p) by {
      forall k | 0 <= k < n ensures Eval(result, xs[k]) == 0 { EvalZero(result, xs[k]); }
    }
    for i := 0 to n
      invariant |result| <= n && (n > 0 ==> result != []) && Reduced(result, p)
      invariant DistinctMod(xs, p) ==> TakesUpTo(result, xs, ys, i, p)
    {
      if ys[i] == 0 {
        TakesZero(result, xs, ys, i, p);
      } else {
        var basis := [1];
        var denom := 1;
        BasisStart(xs, i, p);
        for j := 0 to n
          invariant IsBasis(basis, denom, xs, i, j, p)
        {
          if i == j {
            BasisSkip(basis, denom, xs, i, p);
          } else {
            var factor := [NegMod(xs[j], p), 1];
            var basis' := Mul(basis, factor, p);
            BasisStep(basis, denom, basis', factor[0], xs, i, j, p);
            basis := basis';
            denom := MulMod(denom, SubMod(xs[i], xs[j], p), p);
          }
        }
        if denom % p == 0 {
          if DistinctMod(xs, p) { ProdNonzero(xs, i, n, p); SmallMod(0, p); assert false; }
          return Err;
        }
        var scale := MulMod(ys[i], InvertMod(denom, p), p);
        var term := ScalarMul(basis, scale, p);
        var result' := Add(result, term, p);
        if DistinctMod(xs, p) {
          InterpolateStep(result, result', basis, denom, term, scale, xs, ys, i, p);
        }
        result := result';
      }
    }
    return Ok(result);
  }

  lemma TakesZero(r: Poly, xs: seq<int>, ys: seq<int>, i: nat, p: int)
    requires p > 0 && |xs| == |ys| && i < |xs| && ys[i] == 0
    ensures TakesUpTo(r, xs, ys, i, p) ==> TakesUpTo(r, xs, ys, i + 1, p)
  {
    if TakesUpTo(r, xs, ys, i, p) {
      forall k | 0 <= k < |xs| ensures Cong(Eval(r, xs[k]), if k < i + 1 then ys[k] else 0, p) {
        assert Cong(Eval(r, xs[k]), if k < i then ys[k] else 0, p);
      }
    }
  }

  // ---- The program of a constraint system ---------------------------------

  // The evaluation points 1, 2, ..., m.
  function Domain(m: nat): (d: seq<int>)
    ensures |d| == m && forall j :: 0 <= j < m ==> d[j] == j + 1
  {
    seq(m, j => j + 1)
  }

  lemma DomainDistinct(m: nat, p: int)
    requires 0 < p && m <= p
    ensures DistinctMod(Domain(m), p)
  {
    var d := Domain(m);
    forall i, j | 0 <= i < j < m ensures !Cong(d[j], d[i], p) {
      if Cong(d[j], d[i], p) {
        SubCong(d[j], d[i], d[i], d[i], p);
        assert Cong(j - i, 0, p);
        SmallMod(j - i, p);
        SmallMod(0, p);
      }
    }
  }

  // The polynomial of a column: its value at the point of constraint j is vals[j].
  ghost predicate IsColumn(a: Poly, vals: seq<int>, p: int)
    requires p > 0
  {
    && |a| <= |vals| && a != [] && Reduced(a, p)
    && forall j :: 0 <= j < |vals| ==> Cong(Eval(a, j + 1), vals[j], p)
  }

  function ColumnA(r: System, i: int): seq<int> {
    seq(|r.constraints|, j requires 0 <= j < |r.constraints| => TermCoef(r.constraints[j].a, i))
  }

  function ColumnB(r: System, i: int): seq<int> {
    seq(|r.constraints|, j requires 0 <= j < |r.constraints| => TermCoef(r.constraints[j].b, i))
  }

  function ColumnC(r: System, i: int): seq<int> {
    seq(|r.constraints|, j requires 0 <= j < |r.constraints| => TermCoef(r.constraints[j].c, i))
  }

  ghost predicate IsTarget(t: Poly, m: nat, p: int)
    requires p > 0
  {
    && |t| == m + 1 && t[m] == 1 && Reduced(t, p)
    && forall x :: Cong(Eval(t, x), RootsAt(Domain(m), x), p)
  }

  ghost predicate IsQapOf(q: QapSystem, r: System, p: int)
    requires p > 0
  {
    && |q.u| == |q.v| == |q.w| == r.numVariables
    && (forall i :: 0 <= i < |q.u| ==> IsColumn(q.u[i], ColumnA(r, i), p))
    && (forall i :: 0 <= i < |q.v| ==> IsColumn(q.v[i], ColumnB(r, i), p))
    && (forall i :: 0 <= i < |q.w| ==> IsColumn(q.w[i], ColumnC(r, i), p))
    && IsTarget(q.t, |r.constraints|, p)
  }

  // Interpolation of one column, skipped when the column is zero.
  method ColumnPoly(domain: seq<int>, vals: seq<int>, ghost column: seq<int>, p: int)
    returns (res: Result<Poly>)
    requires IsPrime(p) && 0 < |vals| <= p && domain == Domain(|vals|)
    requires |column| == |vals| && forall j :: 0 <= j < |vals| ==> Cong(vals[j], column[j], p)
    ensures res.Ok? && IsColumn(res.value, column, p)
  {
    var allZero := true;
    for j := 0 to |vals|
      invariant allZero <==> forall k :: 0 <= k < j ==> vals[k] == 0
    {
      if vals[j] != 0 {
        allZero := false;
      }
    }
    if allZero {
      forall j | 0 <= j < |vals| ensures Cong(Eval([0], j + 1), column[j], p) {
        EvalZero([0], j + 1);
        assert Cong(vals[j], column[j], p);
      }
      return Ok([0]);
    }
    DomainDistinct(|vals|, p);
    res := LagrangeInterpolate(domain, vals, p);
    NonzeroColumn(res.value, domain, vals, column, p);
  }

  lemma NonzeroColumn(a: Poly, domain: seq<int>, vals: seq<int>, column: seq<int>, p: int)
    requires p > 0 && |vals| > 0 && domain == Domain(|vals|)
    requires |column| == |vals| && forall j :: 0 <= j < |vals| ==> Cong(vals[j], column[j], p)
    requires |a| <= |vals| && Reduced(a, p)
    requires forall k :: 0 <= k < |vals| ==> Cong(Eval(a, domain[k]), vals[k], p)
    requires a != []
    ensures IsColumn(a, column, p)
  {
    forall j | 0 <= j < |vals| ensures Cong(Eval(a, j + 1), column[j], p) {
      assert Cong(Eval(a, domain[j]), vals[j], p);
      assert Cong(vals[j], column[j], p);
    }
  }

  method R1csToQap(r: System, p: int) returns (res: Result<QapSystem>)
    requires IsPrime(p) && |r.constraints| <= p
    ensures res.Ok? <==> |r.constraints| > 0 && r.numVariables > 0
    ensures res.Ok? ==> IsQapOf(res.value, r, p)
  {
    var m, n := |r.constraints|, r.numVariables;
    if m == 0 || n <= 0 {
      return Err;
    }
    var domain := Domain(m);
    var t := FromRoots(domain, p);
    var u, v, w: seq<Poly> := [], [], [];
    for i := 0 to n
      invariant |u| == |v| == |w| == i
      invariant forall k :: 0 <= k < i ==> IsColumn(u[k], ColumnA(r, k), p)
      invariant forall k :: 0 <= k < i ==> IsColumn(v[k], ColumnB(r, k), p)
      invariant forall k :: 0 <= k < i ==> IsColumn(w[k], ColumnC(r, k), p)
    {
      var us, vs, ws := seq(m, _ => 0), seq(m, _ => 0), seq(m, _ => 0);
      for j := 0 to m
        invariant |us| == |vs| == |ws| == m
        invariant forall k :: 0 <= k < j ==> Cong(us[k], ColumnA(r, i)[k], p)
        invariant forall k :: 0 <= k < j ==> Cong(vs[k], ColumnB(r, i)[k], p)
        invariant forall k :: 0 <= k < j ==> Cong(ws[k], ColumnC(r, i)[k], p)
        invariant forall k :: j <= k < m ==> us[k] == vs[k] == ws[k] == 0
      {
        var c := r.constraints[j];
        if i in c.a { us := us[j := Mod(c.a[i], p)]; }
        if i in c.b { vs := vs[j := Mod(c.b[i], p)]; }
        if i in c.c { ws := ws[j := Mod(c.c[i], p)]; }
      }
      var pu := ColumnPoly(domain, us, ColumnA(r, i), p);
      var pv := ColumnPoly(domain, vs, ColumnB(r, i), p);
      var pw := ColumnPoly(domain, ws, ColumnC(r, i), p);
      u, v, w := u + [pu.value], v + [pv.value], w + [pw.value];
    }
    return Ok(QapSystem(u, v, w, t));
  }
}
