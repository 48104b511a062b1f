// A witness against a QAP: the combined polynomials a, b, c, and the quotient
// and remainder of a*b - c by the target polynomial.
module QapWitness {
  import opened ModArith
  import opened Polynomial
  import opened Roots
  import opened R1cs
  import opened Qap

  // ---- The witness polynomials --------------------------------------------

  // The value at x of sum of w_i * us_i over i < n.
  function DotAt(w: seq<int>, us: seq<Poly>, x: int, n: nat): int
    requires n <= |w| && n <= |us|
  {
    if n == 0 then 0 else DotAt(w, us, x, n - 1) + w[n - 1] * Eval(us[n - 1], x)
  }

  ghost predicate IsCombination(a: Poly, w: seq<int>, us: seq<Poly>, n: nat, m: nat, p: int)
    requires p > 0 && n <= |w| && n <= |us|
  {
    && a != [] && |a| <= m && Reduced(a, p)
    && forall x :: Cong(Eval(a, x), DotAt(w, us, x, n), p)
  }

  ghost predicate ShortPolys(us: seq<Poly>, m: nat) {
    forall i :: 0 <= i < |us| ==> 0 < |us[i]| <= m
  }

  lemma CombinationStart(w: seq<int>, us: seq<Poly>, m: nat, p: int)
    requires p > 0 && m > 0
    ensures IsCombination([0], w, us, 0, m, p)
  {
    forall x ensures Eval([0], x) == 0 { EvalZero([0], x); }
  }

  lemma CombinationStep(a: Poly, a': Poly, term: Poly, w: seq<int>, us: seq<Poly>, i: nat, m: nat, p: int)
    requires p > 0 && i < |w| && i < |us|
    requires IsCombination(a, w, us, i, m, p)
    requires forall x :: Cong(Eval(term, x), w[i] * Eval(us[i], x), p)
    requires forall x :: Cong(Eval(a', x), Eval(a, x) + Eval(term, x), p)
    requires a' != [] && |a'| <= m && Reduced(a', p)
    ensures IsCombination(a', w, us, i + 1, m, p)
  {
    forall x ensures Cong(Eval(a', x), DotAt(w, us, x, i + 1), p) {
      assert Cong(Eval(a', x), Eval(a, x) + Eval(term, x), p);
      assert Cong(Eval(a, x), DotAt(w, us, x, i), p);
      AddCong(Eval(a, x), DotAt(w, us, x, i), Eval(term, x), w[i] * Eval(us[i], x), p);
    }
  }

  lemma CombinationSkip(a: Poly, w: seq<int>, us: seq<Poly>, i: nat, m: nat, p: int)
    requires p > 0 && i < |w| && i < |us| && w[i] == 0
    requires IsCombination(a, w, us, i, m, p)
    ensures IsCombination(a, w, us, i + 1, m, p)
  {
    forall x ensures DotAt(w, us, x, i + 1) == DotAt(w, us, x, i) {
      assert 0 * Eval(us[i], x) == 0;
    }
    forall x ensures Cong(Eval(a, x), DotAt(w, us, x, i + 1), p) {
      assert Cong(Eval(a, x), DotAt(w, us, x, i), p);
    }
  }

  method AddScaled(a: Poly, w: seq<int>, us: seq<Poly>, i: nat, m: nat, p: int) returns (a': Poly)
    requires p > 0 && i < |w| && i < |us| && ShortPolys(us, m)
    requires IsCombination(a, w, us, i, m, p)
    ensures IsCombination(a', w, us, i + 1, m, p)
  {
    var term := ScalarMul(us[i], w[i], p);
    a' := Add(a, term, p);
    CombinationStep(a, a', term, w, us, i, m, p);
  }

  // a, b and c: the witness combined with the u, the v and the w polynomials.
  method WitnessPolys(q: QapSystem, w: seq<int>, m: nat, p: int) returns (a: Poly, b: Poly, c: Poly)
    requires p > 0 && m > 0 && |w| == |q.u| == |q.v| == |q.w|
    requires ShortPolys(q.u, m) && ShortPolys(q.v, m) && ShortPolys(q.w, m)
    ensures IsCombination(a, w, q.u, |w|, m, p)
    ensures IsCombination(b, w, q.v, |w|, m, p)
    ensures IsCombination(c, w, q.w, |w|, m, p)
  {
    a, b, c := [0], [0], [0];
    CombinationStart(w, q.u, m, p);
    CombinationStart(w, q.v, m, p);
    CombinationStart(w, q.w, m, p);
    for i := 0 to |w|
      invariant IsCombination(a, w, q.u, i, m, p)
      invariant IsCombination(b, w, q.v, i, m, p)
      invariant IsCombination(c, w, q.w, i, m, p)
    {
      if w[i] == 0 {
        CombinationSkip(a, w, q.u, i, m, p);
        CombinationSkip(b, w, q.v, i, m, p);
        CombinationSkip(c, w, q.w, i, m, p);
      } else {
        a := AddScaled(a, w, q.u, i, m, p);
        b := AddScaled(b, w, q.v, i, m, p);
        c := AddScaled(c, w, q.w, i, m, p);
      }
    }
  }

  // ---- What divisibility by t means ---------------------------------------

  // At the point of constraint j the combination is the value of its linear combination.
  lemma {:induction false} DotColumn(w: seq<int>, us: seq<Poly>, t: Terms, j: nat, n: nat, p: int)
    requires p > 0 && n <= |w| && n <= |us|
    requires forall i :: 0 <= i < n ==> Cong(Eval(us[i], j + 1), TermCoef(t, i), p)
    ensures Cong(DotAt(w, us, j + 1, n), Value(t, At(w), n), p)
  {
    hide Cong, Eval, TermCoef;
    if n == 0 {
      CongRefl(0, p);
    } else {
      DotColumn(w, us, t, j, n - 1, p);
      var e, c := Eval(us[n - 1], j + 1), TermCoef(t, n - 1);
      assert Cong(e, c, p);
      CongRefl(w[n - 1], p);
      MulCong(w[n - 1], w[n - 1], e, c, p);
      assert w[n - 1] * c == c * At(w)(n - 1);
      AddCong(DotAt(w, us, j + 1, n - 1), Value(t, At(w), n - 1), w[n - 1] * e, c * At(w)(n - 1), p);
    }
  }

  lemma CombinationAtPoint(a: Poly, w: seq<int>, us: seq<Poly>, t: Terms, j: nat, m: nat, p: int)
    requires p > 0 && |w| == |us|
    requires IsCombination(a, w, us, |w|, m, p)
    requires forall i :: 0 <= i < |us| ==> Cong(Eval(us[i], j + 1), TermCoef(t, i), p)
    ensures Cong(Eval(a, j + 1), Value(t, At(w), |w|), p)
  {
    DotColumn(w, us, t, j, |w|, p);
  }

  // d is a*b - c and r its remainder by t.
  ghost predicate IsRemainder(a: Poly, b: Poly, c: Poly, t: Poly, h: Poly, rem: Poly, p: int)
    requires p > 0
  {
    && |rem| < |t| && Reduced(rem, p)
    && forall x :: RemainderAt(a, b, c, t, h, rem, x, p)
  }

  ghost predicate RemainderAt(a: Poly, b: Poly, c: Poly, t: Poly, h: Poly, rem: Poly, x: int, p: int)
    requires p > 0
  {
    Cong(Eval(a, x) * Eval(b, x) - Eval(c, x), Eval(h, x) * Eval(t, x) + Eval(rem, x), p)
  }

  ghost predicate AllZero(a: Poly) {
    forall i :: 0 <= i < |a| ==> a[i] == 0
  }

  // The remainder at the point of constraint j vanishes exactly when the constraint holds.
  lemma RemainderAtNode(q: QapSystem, r: System, w: seq<int>, a: Poly, b: Poly, c: Poly, h: Poly, rem: Poly, j: nat, p: int)
    requires p > 0 && IsQapOf(q, r, p) && |w| == r.numVariables && j < |r.constraints|
    requires IsCombination(a, w, q.u, |w|, |r.constraints|, p)
    requires IsCombination(b, w, q.v, |w|, |r.constraints|, p)
    requires IsCombination(c, w, q.w, |w|, |r.constraints|, p)
    requires IsRemainder(a, b, c, q.t, h, rem, p)
    ensures Cong(Eval(rem, j + 1), 0, p) <==> Holds(r.constraints[j], At(w), |w|, p)
  {
    var x, con, m := j + 1, r.constraints[j], |r.constraints|;
    forall i | 0 <= i < |w|
      ensures Cong(Eval(q.u[i], x), TermCoef(con.a, i), p)
      ensures Cong(Eval(q.v[i], x), TermCoef(con.b, i), p)
      ensures Cong(Eval(q.w[i], x), TermCoef(con.c, i), p)
    {
      assert Cong(Eval(q.u[i], x), ColumnA(r, i)[j], p);
      assert Cong(Eval(q.v[i], x), ColumnB(r, i)[j], p);
      assert Cong(Eval(q.w[i], x), ColumnC(r, i)[j], p);
    }
    CombinationAtPoint(a, w, q.u, con.a, j, m, p);
    CombinationAtPoint(b, w, q.v, con.b, j, m, p);
    CombinationAtPoint(c, w, q.w, con.c, j, m, p);
    RootsZero(Domain(m), j);
    assert Cong(Eval(q.t, x), RootsAt(Domain(m), x), p);
    assert RemainderAt(a, b, c, q.t, h, rem, x, p);
    var f := At(w);
    RemainderValue(Eval(a, x), Eval(b, x), Eval(c, x), Eval(h, x), Eval(q.t, x), Eval(rem, x),
                   Value(con.a, f, |w|), Value(con.b, f, |w|), Value(con.c, f, |w|), p);
  }

  lemma RemainderValue(a: int, b: int, c: int, h: int, t: int, r: int, a': int, b': int, c': int, p: int)
    requires p > 0 && Cong(a * b - c, h * t + r, p) && Cong(t, 0, p)
    requires Cong(a, a', p) && Cong(b, b', p) && Cong(c, c', p)
    ensures Cong(r, 0, p) <==> Cong(a' * b', c', p)
  {
    MulCong(h, h, t, 0, p);
    AddCong(h * t, 0, r, r, p);
    MulCong(a, a', b, b', p);
    SubCong(a * b, a' * b', c, c', p);
    assert Cong(r, a' * b' - c', p);
    if Cong(a' * b', c', p) {
      SubCong(a' * b', c', c', c', p);
    }
    if Cong(r, 0, p) {
      AddCong(a' * b' - c', 0, c', c', p);
    }
  }

  // The QAP means the same as the constraint system: the target polynomial
  // divides a*b - c exactly when every constraint is satisfied.
  lemma QapMeaning(q: QapSystem, r: System, w: seq<int>, a: Poly, b: Poly, c: Poly, h: Poly, rem: Poly, p: int)
    requires IsPrime(p) && IsQapOf(q, r, p) && |w| == r.numVariables
    requires |r.constraints| <= p
    requires IsCombination(a, w, q.u, |w|, |r.constraints|, p)
    requires IsCombination(b, w, q.v, |w|, |r.constraints|, p)
    requires IsCombination(c, w, q.w, |w|, |r.constraints|, p)
    requires IsRemainder(a, b, c, q.t, h, rem, p)
    ensures AllZero(rem) <==> Satisfied(r, At(w), p)
  {
    var m := |r.constraints|;
    forall j | 0 <= j < m
      ensures Cong(Eval(rem, j + 1), 0, p) <==> Holds(r.constraints[j], At(w), |w|, p)
    {
      RemainderAtNode(q, r, w, a, b, c, h, rem, j, p);
    }
    if AllZero(rem) {
      forall j | 0 <= j < m ensures Holds(r.constraints[j], At(w), |w|, p) {
        EvalZero(rem, j + 1);
        assert Cong(Eval(rem, j + 1), 0, p) <==> Holds(r.constraints[j], At(w), |w|, p);
      }
    }
    if Satisfied(r, At(w), p) {
      VanishingRemainder(rem, r, w, p);
    }
  }

  lemma VanishingRemainder(rem: Poly, r: System, w: seq<int>, p: int)
    requires IsPrime(p) && |w| == r.numVariables && |rem| <= |r.constraints| <= p && Reduced(rem, p)
    requires forall j :: 0 <= j < |r.constraints| ==>
      (Cong(Eval(rem, j + 1), 0, p) <==> Holds(r.constraints[j], At(w), |w|, p))
    requires Satisfied(r, At(w), p)
    ensures AllZero(rem)
  {
    var m := |r.constraints|;
    forall j | 0 <= j < m ensures Cong(Eval(rem, Domain(m)[j]), 0, p) {
      assert Holds(r.constraints[j], At(w), |w|, p);
    }
    DomainDistinct(m, p);
    ManyRoots(rem, Domain(m), p);
    forall i | 0 <= i < |rem| ensures rem[i] == 0 {
      assert Cong(Coef(rem, i), 0, p);
      CongSmall(rem[i], 0, p);
    }
  }

  // Two QAPs of one system agree everywhere, so Setup and Prove, which convert
  // separately, work with the same values.
  lemma QapUnique(q: QapSystem, q': QapSystem, r: System, i: nat, x: int, p: int)
    requires IsPrime(p) && |r.constraints| <= p && i < r.numVariables
    requires IsQapOf(q, r, p) && IsQapOf(q', r, p)
    ensures Cong(Eval(q.u[i], x), Eval(q'.u[i], x), p)
    ensures Cong(Eval(q.v[i], x), Eval(q'.v[i], x), p)
    ensures Cong(Eval(q.w[i], x), Eval(q'.w[i], x), p)
    ensures Cong(Eval(q.t, x), Eval(q'.t, x), p)
  {
    ColumnUnique(q.u[i], q'.u[i], ColumnA(r, i), x, p);
    ColumnUnique(q.v[i], q'.v[i], ColumnB(r, i), x, p);
    ColumnUnique(q.w[i], q'.w[i], ColumnC(r, i), x, p);
    assert Cong(Eval(q.t, x), RootsAt(Domain(|r.constraints|), x), p);
    assert Cong(Eval(q'.t, x), RootsAt(Domain(|r.constraints|), x), p);
  }

  lemma ColumnUnique(a: Poly, b: Poly, vals: seq<int>, x: int, p: int)
    requires IsPrime(p) && |vals| <= p && IsColumn(a, vals, p) && IsColumn(b, vals, p)
    ensures Cong(Eval(a, x), Eval(b, x), p)
  {
    var d := Domain(|vals|);
    DomainDistinct(|vals|, p);
    forall j | 0 <= j < |d| ensures Cong(Eval(a, d[j]), Eval(b, d[j]), p) {
      assert Cong(Eval(a, j + 1), vals[j], p) && Cong(Eval(b, j + 1), vals[j], p);
    }
    Agreement(a, b, d, p);
    EvalCong(a, b, x, p);
  }

  // h and the remainder, as Prove computes them.
  method Quotient(q: QapSystem, a: Poly, b: Poly, c: Poly, m: nat, p: int) returns (h: Poly, rem: Poly)
    requires IsPrime(p) && IsTarget(q.t, m, p) && m > 0
    requires 0 < |a| <= m && 0 < |b| <= m && 0 < |c| <= m
    ensures IsRemainder(a, b, c, q.t, h, rem, p)
    ensures |h| <= m
  {
    var ab := Mul(a, b, p);
    var d := Sub(ab, c, p);
    SmallMod(1, p);
    var dm := DivMod(d, q.t, p);
    h, rem := dm.value.0, dm.value.1;
    forall x ensures RemainderAt(a, b, c, q.t, h, rem, x, p) {
      DivisionEval(d, q.t, h, rem, x, p);
      assert Cong(Eval(d, x), Eval(ab, x) - Eval(c, x), p);
      assert Cong(Eval(ab, x), Eval(a, x) * Eval(b, x), p);
      SubCong(Eval(ab, x), Eval(a, x) * Eval(b, x), Eval(c, x), Eval(c, x), p);
    }
  }
}
