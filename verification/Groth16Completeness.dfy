// Completeness of Groth16: which public inputs Verify accepts for a proof that
// Prove built under Setup's keys.
module Groth16Completeness {
  import opened ModArith
  import opened Outcome
  import opened Polynomial
  import opened R1cs
  import opened Qap
  import opened QapWitness
  import opened Groth16

  // Sum of w[off + i] * Term(off + i) over i < n.
  function TermSum(td: Trapdoor, q: QapSystem, w: seq<int>, off: nat, n: nat): int
    requires off + n <= |w| && |q.u| == |q.v| == |q.w| >= off + n
  {
    if n == 0 then 0 else TermSum(td, q, w, off, n - 1) + w[off + n - 1] * Term(td, q, off + n - 1)
  }

  lemma {:induction false} InnerDot(w: seq<int>, points: seq<int>, us: seq<Poly>, tau: int, n: nat, p: int)
    requires p > 0 && n <= |w| && n <= |points| && n <= |us|
    requires forall i :: 0 <= i < n ==> Cong(points[i], Eval(us[i], tau), p)
    ensures Cong(Inner(w, 0, points, n), DotAt(w, us, tau, n), p)
  {
    if n > 0 {
      InnerDot(w, points, us, tau, n - 1, p);
      assert Cong(points[n - 1], Eval(us[n - 1], tau), p);
      MulCong(w[n - 1], w[n - 1], points[n - 1], Eval(us[n - 1], tau), p);
      AddCong(Inner(w, 0, points, n - 1), DotAt(w, us, tau, n - 1),
              w[n - 1] * points[n - 1], w[n - 1] * Eval(us[n - 1], tau), p);
    }
  }

  // One more term of a sum divided by d.
  lemma ScaledStep(sum: int, s: int, point: int, d: int, sum': int, v: int, p: int)
    requires p > 0 && Cong(sum * d, sum', p) && Cong(point * d, v, p)
    ensures Cong((sum + s * point) * d, sum' + s * v, p)
  {
    hide Cong;
    MulDist(sum, s * point, d);
    MulSwap(s, point, d);
    CongRefl(s, p);
    MulCong(s, s, point * d, v, p);
    AddCong(sum * d, sum', s * (point * d), s * v, p);
  }

  lemma {:induction false} InnerTerms(td: Trapdoor, q: QapSystem, w: seq<int>, off: nat, points: seq<int>, d: int, n: nat, p: int)
    requires p > 0 && off + n <= |w| && n <= |points| && |q.u| == |q.v| == |q.w| >= off + n
    requires forall i :: 0 <= i < n ==> Cong(points[i] * d, Term(td, q, i + off), p)
    ensures Cong(Inner(w, off, points, n) * d, TermSum(td, q, w, off, n), p)
  {
    if n > 0 {
      InnerTerms(td, q, w, off, points, d, n - 1, p);
      ScaledStep(Inner(w, off, points, n - 1), w[off + n - 1], points[n - 1], d,
                 TermSum(td, q, w, off, n - 1), Term(td, q, off + n - 1), p);
    }
  }

  // The h query recovers h(tau) * t(tau).
  lemma {:induction false} InnerH(h: Poly, hQuery: seq<int>, tau: int, t: int, d: int, n: nat, p: int)
    requires p > 0 && n <= |h| && n <= |hQuery|
    requires forall i :: 0 <= i < n ==> Cong(hQuery[i] * d, Pow(tau, i) * t, p)
    ensures Cong(Inner(h, 0, hQuery, n) * d, Eval(h[..n], tau) * t, p)
  {
    hide Cong, Eval, Pow;
    if n == 0 {
      EvalZero(h[..0], tau);
      CongRefl(0, p);
    } else {
      InnerH(h, hQuery, tau, t, d, n - 1, p);
      ScaledStep(Inner(h, 0, hQuery, n - 1), h[n - 1], hQuery[n - 1], d,
                 Eval(h[..n - 1], tau) * t, Pow(tau, n - 1) * t, p);
      SnocScaled(h, tau, t, n);
    }
  }

  lemma SnocScaled(h: Poly, tau: int, t: int, n: nat)
    requires 0 < n <= |h|
    ensures Eval(h[..n], tau) * t == Eval(h[..n - 1], tau) * t + h[n - 1] * (Pow(tau, n - 1) * t)
  {
    hide Eval, Pow;
    assert h[..n] == h[..n - 1] + [h[n - 1]];
    EvalSnoc(h[..n - 1], h[n - 1], tau);
    MulDist(Eval(h[..n - 1], tau), h[n - 1] * Pow(tau, n - 1), t);
    MulSwap(h[n - 1], Pow(tau, n - 1), t);
  }

  // The constant wire and the public inputs, as the key's ic entries see them.
  lemma PublicTerms(td: Trapdoor, q: QapSystem, x: seq<int>, ic: seq<int>, p: int)
    requires p > 0 && |ic| == |x| + 1 && |q.u| == |q.v| == |q.w| >= |x| + 1
    requires forall i :: 0 <= i < |ic| ==> Cong(ic[i] * td.gamma, Term(td, q, i), p)
    ensures Cong((ic[0] + Inner(x, 0, ic[1..], |x|)) * td.gamma, TermSum(td, q, [1] + x, 0, |x| + 1), p)
  {
    hide Cong, Inner, TermSum, Term;
    InnerPrepend(x, ic, |x|);
    InnerTerms(td, q, [1] + x, 0, ic, td.gamma, |x| + 1, p);
  }

  lemma {:induction false} InnerPrepend(x: seq<int>, ic: seq<int>, n: nat)
    requires n <= |x| && n + 1 <= |ic|
    ensures Inner([1] + x, 0, ic, n + 1) == ic[0] + Inner(x, 0, ic[1..], n)
  {
    if n == 0 {
      assert Inner([1] + x, 0, ic, 1) == Inner([1] + x, 0, ic, 0) + 1 * ic[0];
    } else {
      InnerPrepend(x, ic, n - 1);
    }
  }

  lemma {:induction false} TermSumSplit(td: Trapdoor, q: QapSystem, w: seq<int>, k: nat, n: nat)
    requires k + n <= |w| && |q.u| == |q.v| == |q.w| >= k + n
    ensures TermSum(td, q, w, 0, k + n) == TermSum(td, q, w, 0, k) + TermSum(td, q, w, k, n)
  {
    if n > 0 { TermSumSplit(td, q, w, k, n - 1); }
  }

  // All terms together: beta*U + alpha*V + W.
  lemma {:induction false} TermSumTotal(td: Trapdoor, q: QapSystem, w: seq<int>, n: nat)
    requires n <= |w| && |q.u| == |q.v| == |q.w| >= n
    ensures TermSum(td, q, w, 0, n) ==
      td.beta * DotAt(w, q.u, td.tau, n) + td.alpha * DotAt(w, q.v, td.tau, n) + DotAt(w, q.w, td.tau, n)
  {
    if n > 0 {
      TermSumTotal(td, q, w, n - 1);
      var s, x, y, z := w[n - 1], Eval(q.u[n - 1], td.tau), Eval(q.v[n - 1], td.tau), Eval(q.w[n - 1], td.tau);
      DistributeTerm(td.beta, td.alpha, DotAt(w, q.u, td.tau, n - 1), DotAt(w, q.v, td.tau, n - 1), s, x, y, z);
    }
  }

  lemma DistributeTerm(be: int, al: int, u: int, v: int, s: int, x: int, y: int, z: int)
    ensures be * u + al * v + s * (be * x + al * y + z) == be * (u + s * x) + al * (v + s * y) + s * z
  {
  }

  lemma {:induction false} DotCong(w: seq<int>, us: seq<Poly>, vs: seq<Poly>, x: int, n: nat, p: int)
    requires p > 0 && n <= |w| && n <= |us| && n <= |vs|
    requires forall i :: 0 <= i < n ==> Cong(Eval(us[i], x), Eval(vs[i], x), p)
    ensures Cong(DotAt(w, us, x, n), DotAt(w, vs, x, n), p)
  {
    if n > 0 {
      DotCong(w, us, vs, x, n - 1, p);
      assert Cong(Eval(us[n - 1], x), Eval(vs[n - 1], x), p);
      MulCong(w[n - 1], w[n - 1], Eval(us[n - 1], x), Eval(vs[n - 1], x), p);
      AddCong(DotAt(w, us, x, n - 1), DotAt(w, vs, x, n - 1), w[n - 1] * Eval(us[n - 1], x), w[n - 1] * Eval(vs[n - 1], x), p);
    }
  }

  // The identity behind e(A, B) = e(alpha, beta) * e(L, gamma) * e(C, delta).
  lemma PairingIdentity(al: int, be: int, de: int, u: int, v: int, w: int, pub: int, priv: int, rr: int, ss: int)
    requires pub + priv == be * u + al * v + w
    ensures
      var a, b := al + u + rr * de, be + v + ss * de;
      a * b - al * be - ((u * v - w) + priv + ss * a * de + rr * b * de - rr * ss * de * de) == pub
  {
    var a, b := al + u + rr * de, be + v + ss * de;
    var x, y := al + u, be + v;
    assert a * b == x * y + x * (ss * de) + (rr * de) * y + (rr * de) * (ss * de) by { Foil(x, rr * de, y, ss * de); }
    assert ss * a * de == x * (ss * de) + (rr * de) * (ss * de) by { Scale3(ss, x, rr * de, de); }
    assert rr * b * de == (rr * de) * y + (rr * de) * (ss * de) by { Scale3(rr, y, ss * de, de); }
    assert rr * ss * de * de == (rr * de) * (ss * de);
    Foil(al, u, be, v);
  }

  lemma Foil(x: int, y: int, z: int, t: int)
    ensures (x + y) * (z + t) == x * z + x * t + y * z + y * t
  {
  }

  lemma Scale3(s: int, x: int, y: int, d: int)
    ensures s * (x + y) * d == x * (s * d) + y * (s * d)
  {
  }

  // alpha + sum + blind * delta, with every part read off a key.
  lemma BlindedCong(e: int, g: int, inner: int, s: int, d: int, g': int, inner': int, d': int, p: int)
    requires p > 0 && Cong(e, g + inner + s * d, p)
    requires Cong(g, g', p) && Cong(inner, inner', p) && Cong(d, d', p)
    ensures Cong(e, g' + inner' + s * d', p)
  {
    MulCong(s, s, d, d', p);
    AddCong(g, g', inner, inner', p);
    AddCong(g + inner, g' + inner', s * d, s * d', p);
  }

  // C * delta in terms of the exact A and B.
  lemma CTimesDelta(c: int, hq: int, lq: int, ss: int, rr: int, a: int, b: int, dG1: int, de: int,
                    a': int, b': int, uvw: int, priv: int, p: int)
    requires p > 0 && Cong(c, hq + lq + ss * a + rr * b - rr * ss * dG1, p)
    requires Cong(hq * de, uvw, p) && Cong(lq * de, priv, p)
    requires Cong(a, a', p) && Cong(b, b', p) && Cong(dG1, de, p)
    ensures Cong(c * de, uvw + priv + ss * a' * de + rr * b' * de - rr * ss * de * de, p)
  {
    MulCong(ss, ss, a, a', p);
    MulCong(rr, rr, b, b', p);
    MulCong(rr * ss, rr * ss, dG1, de, p);
    AddCong(ss * a, ss * a', rr * b, rr * b', p);
    SubCong(ss * a + rr * b, ss * a' + rr * b', rr * ss * dG1, rr * ss * de, p);
    var x, x' := ss * a + rr * b - rr * ss * dG1, ss * a' + rr * b' - rr * ss * de;
    MulCong(x, x', de, de, p);
    MulCong(c, hq + lq + x, de, de, p);
    AddCong(hq * de, uvw, lq * de, priv, p);
    AddCong(hq * de + lq * de, uvw + priv, x * de, x' * de, p);
    Spread3(hq, lq, x, de);
    Spread3(ss * a', rr * b', -(rr * ss * de), de);
    assert -(rr * ss * de) * de == -(rr * ss * de * de);
  }

  lemma Spread3(x: int, y: int, z: int, d: int)
    ensures (x + y + z) * d == x * d + y * d + z * d
  {
  }

  // The verification equation reduces to the public part.
  lemma EquationReduces(a: int, b: int, a': int, b': int, abGt: int, al: int, be: int, icSum: int, gG2: int, ga: int,
                        x: int, c: int, dG2: int, de: int, t: int, pub: int, p: int)
    requires p > 0 && Cong(a, a', p) && Cong(b, b', p) && Cong(abGt, al * be, p)
    requires Cong(gG2, ga, p) && Cong(icSum * ga, x, p) && Cong(dG2, de, p) && Cong(c * de, t, p)
    requires a' * b' - al * be - t == pub
    ensures Cong(a * b, abGt + icSum * gG2 + c * dG2, p) <==> Cong(x, pub, p)
  {
    MulCong(a, a', b, b', p);
    MulCong(icSum, icSum, gG2, ga, p);
    MulCong(c, c, dG2, de, p);
    AddCong(abGt, al * be, icSum * gG2, x, p);
    AddCong(abGt + icSum * gG2, al * be + x, c * dG2, t, p);
    var k := al * be + t;
    assert Cong(a * b, k + pub, p) && Cong(abGt + icSum * gG2 + c * dG2, k + x, p);
    if Cong(x, pub, p) {
      AddCong(k, k, x, pub, p);
    }
    if Cong(k + pub, k + x, p) {
      SubCong(k + x, k + pub, k, k, p);
    }
  }

  // An honest proof: keys from one run of Setup, elements from one run of Prove.
  ghost predicate Honest(r: System, td: Trapdoor, qs: QapSystem, pk: ProvingKey, vk: VerificationKey, w: seq<int>,
                         q: QapSystem, a: Poly, b: Poly, c: Poly, h: Poly, rem: Poly, rr: int, ss: int, proof: Proof, p: int)
    requires p > 0
  {
    && IsQapOf(qs, r, p) && ProvingKeyFor(td, qs, r, pk, p) && VerificationKeyFor(td, qs, r, vk, p)
    && IsQapOf(q, r, p) && |w| == r.numVariables
    && IsCombination(a, w, q.u, |w|, |r.constraints|, p)
    && IsCombination(b, w, q.v, |w|, |r.constraints|, p)
    && IsCombination(c, w, q.w, |w|, |r.constraints|, p)
    && IsRemainder(a, b, c, q.t, h, rem, p) && AllZero(rem) && |h| <= |pk.hQuery|
    && IsProof(pk, w, r.numPublic, h, rr, ss, proof, p)
  }

  // h(tau) * t(tau) is u*v - w under Setup's own QAP.
  lemma QuotientAtTau(r: System, tau: int, qs: QapSystem, w: seq<int>, q: QapSystem,
                      a: Poly, b: Poly, c: Poly, h: Poly, rem: Poly, p: int)
    requires IsPrime(p) && |r.constraints| <= p && IsQapOf(qs, r, p) && IsQapOf(q, r, p) && 0 < |w| == r.numVariables
    requires IsCombination(a, w, q.u, |w|, |r.constraints|, p)
    requires IsCombination(b, w, q.v, |w|, |r.constraints|, p)
    requires IsCombination(c, w, q.w, |w|, |r.constraints|, p)
    requires IsRemainder(a, b, c, q.t, h, rem, p) && AllZero(rem)
    ensures Cong(Eval(h, tau) * Eval(qs.t, tau),
                 DotAt(w, qs.u, tau, |w|) * DotAt(w, qs.v, tau, |w|) - DotAt(w, qs.w, tau, |w|), p)
  {
    hide *;
    var n := |w|;
    SetupSizes(qs, q, r, p);
    CombinationsMove(r, tau, qs, w, q, a, b, c, p);
    QapUnique(q, qs, r, 0, tau, p);
    RemainderVanishes(a, b, c, q.t, h, rem, tau, p);
    ExactDivision(a, b, c, q.t, h, rem, tau, p);
    QuotientCong(Eval(a, tau), Eval(b, tau), Eval(c, tau), Eval(h, tau), Eval(q.t, tau), Eval(qs.t, tau),
                 DotAt(w, qs.u, tau, n), DotAt(w, qs.v, tau, n), DotAt(w, qs.w, tau, n), p);
  }

  lemma SetupSizes(qs: QapSystem, q: QapSystem, r: System, p: int)
    requires IsPrime(p) && IsQapOf(qs, r, p) && IsQapOf(q, r, p)
    ensures p > 0
    ensures |qs.u| == |qs.v| == |qs.w| == r.numVariables
    ensures |q.u| == |q.v| == |q.w| == r.numVariables
  {
  }

  lemma CombinationsMove(r: System, tau: int, qs: QapSystem, w: seq<int>, q: QapSystem, a: Poly, b: Poly, c: Poly, p: int)
    requires IsPrime(p) && |r.constraints| <= p && IsQapOf(qs, r, p) && IsQapOf(q, r, p) && |w| == r.numVariables
    requires IsCombination(a, w, q.u, |w|, |r.constraints|, p)
    requires IsCombination(b, w, q.v, |w|, |r.constraints|, p)
    requires IsCombination(c, w, q.w, |w|, |r.constraints|, p)
    ensures Cong(Eval(a, tau), DotAt(w, qs.u, tau, |w|), p)
    ensures Cong(Eval(b, tau), DotAt(w, qs.v, tau, |w|), p)
    ensures Cong(Eval(c, tau), DotAt(w, qs.w, tau, |w|), p)
  {
    forall i | 0 <= i < |w|
      ensures Cong(Eval(q.u[i], tau), Eval(qs.u[i], tau), p)
      ensures Cong(Eval(q.v[i], tau), Eval(qs.v[i], tau), p)
      ensures Cong(Eval(q.w[i], tau), Eval(qs.w[i], tau), p)
    {
      QapUnique(q, qs, r, i, tau, p);
    }
    CombinationMoves(a, w, q.u, qs.u, tau, |r.constraints|, p);
    CombinationMoves(b, w, q.v, qs.v, tau, |r.constraints|, p);
    CombinationMoves(c, w, q.w, qs.w, tau, |r.constraints|, p);
  }

  lemma ExactDivision(a: Poly, b: Poly, c: Poly, t: Poly, h: Poly, rem: Poly, x: int, p: int)
    requires p > 0 && RemainderAt(a, b, c, t, h, rem, x, p) && Eval(rem, x) == 0
    ensures Cong(Eval(a, x) * Eval(b, x) - Eval(c, x), Eval(h, x) * Eval(t, x), p)
  {
    hide Eval;
  }

  lemma RemainderVanishes(a: Poly, b: Poly, c: Poly, t: Poly, h: Poly, rem: Poly, x: int, p: int)
    requires p > 0 && IsRemainder(a, b, c, t, h, rem, p) && AllZero(rem)
    ensures RemainderAt(a, b, c, t, h, rem, x, p) && Eval(rem, x) == 0
  {
    hide RemainderAt;
    EvalZero(rem, x);
  }

  lemma CombinationMoves(a: Poly, w: seq<int>, us: seq<Poly>, vs: seq<Poly>, x: int, m: nat, p: int)
    requires p > 0 && |w| == |us| == |vs| && IsCombination(a, w, us, |w|, m, p)
    requires forall i :: 0 <= i < |w| ==> Cong(Eval(us[i], x), Eval(vs[i], x), p)
    ensures Cong(Eval(a, x), DotAt(w, vs, x, |w|), p)
  {
    DotCong(w, us, vs, x, |w|, p);
  }

  lemma QuotientCong(a: int, b: int, c: int, h: int, t: int, t': int, a': int, b': int, c': int, p: int)
    requires p > 0 && Cong(a * b - c, h * t, p) && Cong(t, t', p)
    requires Cong(a, a', p) && Cong(b, b', p) && Cong(c, c', p)
    ensures Cong(h * t', a' * b' - c', p)
  {
    MulCong(h, h, t, t', p);
    MulCong(a, a', b, b', p);
    SubCong(a * b, a' * b', c, c', p);
  }

  // The integers that the proof elements of an honest proof stand for.
  function ExactA(td: Trapdoor, q: QapSystem, w: seq<int>, rr: int): int
    requires |q.u| == |w|
  {
    td.alpha + DotAt(w, q.u, td.tau, |w|) + rr * td.delta
  }

  function ExactB(td: Trapdoor, q: QapSystem, w: seq<int>, ss: int): int
    requires |q.v| == |w|
  {
    td.beta + DotAt(w, q.v, td.tau, |w|) + ss * td.delta
  }

  function ExactC(td: Trapdoor, q: QapSystem, w: seq<int>, l: nat, rr: int, ss: int): int
    requires |q.u| == |q.v| == |q.w| == |w| && l < |w|
  {
    DotAt(w, q.u, td.tau, |w|) * DotAt(w, q.v, td.tau, |w|) - DotAt(w, q.w, td.tau, |w|)
    + TermSum(td, q, w, l + 1, |w| - 1 - l)
    + ss * ExactA(td, q, w, rr) * td.delta + rr * ExactB(td, q, w, ss) * td.delta - rr * ss * td.delta * td.delta
  }

  lemma ExactIdentity(td: Trapdoor, q: QapSystem, w: seq<int>, l: nat, rr: int, ss: int)
    requires |q.u| == |q.v| == |q.w| == |w| && l < |w|
    ensures ExactA(td, q, w, rr) * ExactB(td, q, w, ss) - td.alpha * td.beta - ExactC(td, q, w, l, rr, ss)
         == TermSum(td, q, w, 0, l + 1)
  {
    var n := |w|;
    TermSumSplit(td, q, w, l + 1, n - 1 - l);
    TermSumTotal(td, q, w, n);
    PairingIdentity(td.alpha, td.beta, td.delta, DotAt(w, q.u, td.tau, n), DotAt(w, q.v, td.tau, n), DotAt(w, q.w, td.tau, n),
                    TermSum(td, q, w, 0, l + 1), TermSum(td, q, w, l + 1, n - 1 - l), rr, ss);
  }

  lemma HonestA(r: System, td: Trapdoor, q: QapSystem, pk: ProvingKey, w: seq<int>, rr: int, a: int, p: int)
    requires p > 0 && ProvingKeyFor(td, q, r, pk, p) && |w| == r.numVariables
    requires Cong(a, pk.alphaG1 + Inner(w, 0, pk.aQuery, |w|) + rr * pk.deltaG1, p)
    ensures Cong(a, ExactA(td, q, w, rr), p)
  {
    InnerDot(w, pk.aQuery, q.u, td.tau, |w|, p);
    BlindedCong(a, pk.alphaG1, Inner(w, 0, pk.aQuery, |w|), rr, pk.deltaG1,
                td.alpha, DotAt(w, q.u, td.tau, |w|), td.delta, p);
  }

  lemma HonestB(r: System, td: Trapdoor, q: QapSystem, pk: ProvingKey, w: seq<int>, ss: int, b: int, p: int)
    requires p > 0 && ProvingKeyFor(td, q, r, pk, p) && |w| == r.numVariables
    requires Cong(b, pk.betaG2 + Inner(w, 0, pk.bG2Query, |w|) + ss * pk.deltaG2, p)
    ensures Cong(b, ExactB(td, q, w, ss), p)
    ensures Cong(pk.betaG1 + Inner(w, 0, pk.bG1Query, |w|) + ss * pk.deltaG1, ExactB(td, q, w, ss), p)
  {
    var n := |w|;
    InnerDot(w, pk.bG2Query, q.v, td.tau, n, p);
    InnerDot(w, pk.bG1Query, q.v, td.tau, n, p);
    BlindedCong(b, pk.betaG2, Inner(w, 0, pk.bG2Query, n), ss, pk.deltaG2, td.beta, DotAt(w, q.v, td.tau, n), td.delta, p);
    var bG1 := pk.betaG1 + Inner(w, 0, pk.bG1Query, n) + ss * pk.deltaG1;
    BlindedCong(bG1, pk.betaG1, Inner(w, 0, pk.bG1Query, n), ss, pk.deltaG1,
                td.beta, DotAt(w, q.v, td.tau, n), td.delta, p);
  }

  lemma HonestC(r: System, td: Trapdoor, q: QapSystem, pk: ProvingKey, w: seq<int>, h: Poly, rr: int, ss: int,
                proof: Proof, p: int)
    requires p > 0 && ProvingKeyFor(td, q, r, pk, p) && |w| == r.numVariables && |h| <= |pk.hQuery|
    requires IsProof(pk, w, r.numPublic, h, rr, ss, proof, p)
    requires Cong(Eval(h, td.tau) * Eval(q.t, td.tau),
                  DotAt(w, q.u, td.tau, |w|) * DotAt(w, q.v, td.tau, |w|) - DotAt(w, q.w, td.tau, |w|), p)
    ensures Cong(proof.c * td.delta, ExactC(td, q, w, r.numPublic, rr, ss), p)
  {
    hide Cong, TermSum, ExactA, ExactB, ExactC, Inner, DotAt, Eval;
    HonestA(r, td, q, pk, w, rr, proof.a, p);
    HonestB(r, td, q, pk, w, ss, proof.b, p);
    HonestQueries(r, td, q, pk, w, h, p);
    CongTrans(Inner(h, 0, pk.hQuery, |h|) * td.delta, Eval(h, td.tau) * Eval(q.t, td.tau),
              DotAt(w, q.u, td.tau, |w|) * DotAt(w, q.v, td.tau, |w|) - DotAt(w, q.w, td.tau, |w|), p);
    CFromParts(td, q, w, r.numPublic, rr, ss, proof.c, Inner(h, 0, pk.hQuery, |h|),
               Inner(w, r.numPublic + 1, pk.lQuery, |w| - 1 - r.numPublic), proof.a,
               pk.betaG1 + Inner(w, 0, pk.bG1Query, |w|) + ss * pk.deltaG1, pk.deltaG1, p);
  }

  lemma CFromParts(td: Trapdoor, q: QapSystem, w: seq<int>, l: nat, rr: int, ss: int,
                   c: int, hq: int, lq: int, a: int, b: int, dG1: int, p: int)
    requires p > 0 && |q.u| == |q.v| == |q.w| == |w| && l < |w|
    requires Cong(c, hq + lq + ss * a + rr * b - rr * ss * dG1, p)
    requires Cong(hq * td.delta,
                  DotAt(w, q.u, td.tau, |w|) * DotAt(w, q.v, td.tau, |w|) - DotAt(w, q.w, td.tau, |w|), p)
    requires Cong(lq * td.delta, TermSum(td, q, w, l + 1, |w| - 1 - l), p)
    requires Cong(a, ExactA(td, q, w, rr), p) && Cong(b, ExactB(td, q, w, ss), p) && Cong(dG1, td.delta, p)
    ensures Cong(c * td.delta, ExactC(td, q, w, l, rr, ss), p)
  {
    hide Cong, ExactA, ExactB;
    CTimesDelta(c, hq, lq, ss, rr, a, b, dG1, td.delta, ExactA(td, q, w, rr), ExactB(td, q, w, ss),
                DotAt(w, q.u, td.tau, |w|) * DotAt(w, q.v, td.tau, |w|) - DotAt(w, q.w, td.tau, |w|),
                TermSum(td, q, w, l + 1, |w| - 1 - l), p);
  }

  lemma HonestQueries(r: System, td: Trapdoor, q: QapSystem, pk: ProvingKey, w: seq<int>, h: Poly, p: int)
    requires p > 0 && ProvingKeyFor(td, q, r, pk, p) && |w| == r.numVariables && |h| <= |pk.hQuery|
    ensures Cong(Inner(h, 0, pk.hQuery, |h|) * td.delta, Eval(h, td.tau) * Eval(q.t, td.tau), p)
    ensures Cong(Inner(w, r.numPublic + 1, pk.lQuery, |w| - 1 - r.numPublic) * td.delta,
                 TermSum(td, q, w, r.numPublic + 1, |w| - 1 - r.numPublic), p)
  {
    hide Cong, TermSum, Inner, Eval;
    InnerH(h, pk.hQuery, td.tau, Eval(q.t, td.tau), td.delta, |h|, p);
    assert h[..|h|] == h;
    InnerTerms(td, q, w, r.numPublic + 1, pk.lQuery, td.delta, |w| - 1 - r.numPublic, p);
  }

  lemma VerificationReduces(r: System, td: Trapdoor, q: QapSystem, vk: VerificationKey, w: seq<int>, rr: int, ss: int,
                            proof: Proof, x: seq<int>, p: int)
    requires p > 0 && VerificationKeyFor(td, q, r, vk, p) && |w| == r.numVariables && |x| == r.numPublic
    requires Cong(proof.a, ExactA(td, q, w, rr), p) && Cong(proof.b, ExactB(td, q, w, ss), p)
    requires Cong(proof.c * td.delta, ExactC(td, q, w, r.numPublic, rr, ss), p)
    ensures Accepts(vk, x, proof, p) <==>
      Cong(TermSum(td, q, [1] + x, 0, r.numPublic + 1), TermSum(td, q, w, 0, r.numPublic + 1), p)
  {
    var l := r.numPublic;
    PublicTerms(td, q, x, vk.ic, p);
    ExactIdentity(td, q, w, l, rr, ss);
    EquationReduces(proof.a, proof.b, ExactA(td, q, w, rr), ExactB(td, q, w, ss), vk.alphaBetaGt, td.alpha, td.beta,
                    vk.ic[0] + Inner(x, 0, vk.ic[1..], |x|), vk.gammaG2, td.gamma, TermSum(td, q, [1] + x, 0, l + 1),
                    proof.c, vk.deltaG2, td.delta, ExactC(td, q, w, l, rr, ss), TermSum(td, q, w, 0, l + 1), p);
  }

  // Verify accepts an honest proof for public inputs x exactly when x and the
  // constant 1 commit, under the trapdoor, to the same value as the witness's
  // own constant wire and public part.
  lemma HonestProofAccepted(r: System, td: Trapdoor, qs: QapSystem, pk: ProvingKey, vk: VerificationKey, w: seq<int>,
                            q: QapSystem, a: Poly, b: Poly, c: Poly, h: Poly, rem: Poly, rr: int, ss: int,
                            proof: Proof, x: seq<int>, p: int)
    requires IsPrime(p) && |r.constraints| <= p
    requires Honest(r, td, qs, pk, vk, w, q, a, b, c, h, rem, rr, ss, proof, p) && |x| == r.numPublic
    ensures Accepts(vk, x, proof, p) <==>
      Cong(TermSum(td, qs, [1] + x, 0, r.numPublic + 1), TermSum(td, qs, w, 0, r.numPublic + 1), p)
  {
    HonestA(r, td, qs, pk, w, rr, proof.a, p);
    HonestB(r, td, qs, pk, w, ss, proof.b, p);
    QuotientAtTau(r, td.tau, qs, w, q, a, b, c, h, rem, p);
    HonestC(r, td, qs, pk, w, h, rr, ss, proof, p);
    VerificationReduces(r, td, qs, vk, w, rr, ss, proof, x, p);
  }

  lemma {:induction false} TermSumPrefix(td: Trapdoor, q: QapSystem, w: seq<int>, v: seq<int>, n: nat)
    requires n <= |w| && n <= |v| && |q.u| == |q.v| == |q.w| >= n
    requires forall i :: 0 <= i < n ==> w[i] == v[i]
    ensures TermSum(td, q, w, 0, n) == TermSum(td, q, v, 0, n)
  {
    if n > 0 { TermSumPrefix(td, q, w, v, n - 1); }
  }

  // Setup, Prove and Verify in sequence, on the public part of the witness.
  method SetupProveVerify(r: System, td: Trapdoor, w: seq<int>, rr: int, ss: int, p: int) returns (res: Result<bool>)
    requires IsPrime(p) && |r.constraints| <= p
    requires !Cong(td.gamma, 0, p) && !Cong(td.delta, 0, p)
    ensures res.Ok? <==>
      && |r.constraints| > 0 && 0 <= r.numPublic < r.numVariables
      && |w| == r.numVariables && Satisfied(r, At(w), p)
    ensures res.Ok? && w[0] == 1 ==> res.value
  {
    var keys, qs := Setup(r, td, p);
    if keys.Err? {
      return Err;
    }
    var (pk, vk) := keys.value;
    var pf, q, a, b, c, h, rem := Prove(pk, w, r, rr, ss, p);
    if pf.Err? {
      return Err;
    }
    var x := w[1..r.numPublic + 1];
    res := Verify(vk, x, pf.value, p);
    HonestProofAccepted(r, td, qs, pk, vk, w, q, a, b, c, h, rem, rr, ss, pf.value, x, p);
    if w[0] == 1 {
      TermSumPrefix(td, qs, [1] + x, w, r.numPublic + 1);
    }
  }
}
