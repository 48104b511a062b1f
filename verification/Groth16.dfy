// The Groth16 argument. A group element is its discrete logarithm modulo the
// group order p, so that scalar multiplication, addition and the pairing are
// arithmetic modulo p; the toxic waste and the blinding factors are parameters.
module Groth16 {
  import opened ModArith
  import opened Outcome
  import opened Polynomial
  import opened R1cs
  import opened Qap
  import opened QapWitness

  datatype Trapdoor = Trapdoor(tau: int, alpha: int, beta: int, gamma: int, delta: int)

  datatype ProvingKey = ProvingKey(
    alphaG1: int, betaG1: int, betaG2: int, deltaG1: int, deltaG2: int,
    hQuery: seq<int>, lQuery: seq<int>, aQuery: seq<int>, bG1Query: seq<int>, bG2Query: seq<int>)

  datatype VerificationKey = VerificationKey(
    alphaG1: int, betaG2: int, gammaG2: int, deltaG2: int, alphaBetaGt: int, ic: seq<int>)

  datatype Proof = Proof(a: int, b: int, c: int)

  // ---- What the keys commit to --------------------------------------------

  // beta*u_i(tau) + alpha*v_i(tau) + w_i(tau): what variable i contributes.
  function Term(td: Trapdoor, q: QapSystem, i: int): int
    requires 0 <= i < |q.u| == |q.v| == |q.w|
  {
    td.beta * Eval(q.u[i], td.tau) + td.alpha * Eval(q.v[i], td.tau) + Eval(q.w[i], td.tau)
  }

  ghost predicate ProvingKeyFor(td: Trapdoor, q: QapSystem, r: System, pk: ProvingKey, p: int)
    requires p > 0
  {
    var n, l, m := r.numVariables, r.numPublic, |r.constraints|;
    && |q.u| == |q.v| == |q.w| == n && 0 <= l < n
    && Cong(pk.alphaG1, td.alpha, p) && Cong(pk.betaG1, td.beta, p) && Cong(pk.betaG2, td.beta, p)
    && Cong(pk.deltaG1, td.delta, p) && Cong(pk.deltaG2, td.delta, p)
    && |pk.aQuery| == |pk.bG1Query| == |pk.bG2Query| == n
    && (forall i :: 0 <= i < n ==> Cong(pk.aQuery[i], Eval(q.u[i], td.tau), p))
    && (forall i :: 0 <= i < n ==> Cong(pk.bG1Query[i], Eval(q.v[i], td.tau), p))
    && (forall i :: 0 <= i < n ==> Cong(pk.bG2Query[i], Eval(q.v[i], td.tau), p))
    && |pk.hQuery| == m
    && (forall i :: 0 <= i < m ==> Cong(pk.hQuery[i] * td.delta, Pow(td.tau, i) * Eval(q.t, td.tau), p))
    && |pk.lQuery| == n - 1 - l
    && (forall j :: 0 <= j < n - 1 - l ==> Cong(pk.lQuery[j] * td.delta, Term(td, q, j + 1 + l), p))
  }

  ghost predicate VerificationKeyFor(td: Trapdoor, q: QapSystem, r: System, vk: VerificationKey, p: int)
    requires p > 0
  {
    var n, l := r.numVariables, r.numPublic;
    && |q.u| == |q.v| == |q.w| == n && 0 <= l < n
    && Cong(vk.alphaG1, td.alpha, p) && Cong(vk.betaG2, td.beta, p)
    && Cong(vk.gammaG2, td.gamma, p) && Cong(vk.deltaG2, td.delta, p)
    && Cong(vk.alphaBetaGt, td.alpha * td.beta, p)
    && |vk.ic| == l + 1
    && (forall i :: 0 <= i < l + 1 ==> Cong(vk.ic[i] * td.gamma, Term(td, q, i), p))
  }

  // ---- Setup --------------------------------------------------------------

  // (beta*u + alpha*v + w) / d, the scalar of an l-query or ic entry.
  method TermOver(beta: int, alpha: int, u: int, v: int, w: int, dInv: int, ghost d: int, p: int) returns (val: int)
    requires p > 0 && Cong(d * dInv, 1, p)
    ensures Cong(val * d, beta * u + alpha * v + w, p)
  {
    var s := AddMod(AddMod(MulMod(beta, u, p), MulMod(alpha, v, p), p), w, p);
    AddCong(MulMod(beta, u, p), beta * u, MulMod(alpha, v, p), alpha * v, p);
    AddCong(AddMod(MulMod(beta, u, p), MulMod(alpha, v, p), p), beta * u + alpha * v, w, w, p);
    val := MulMod(s, dInv, p);
    Undivide(val, s, dInv, d, p);
  }

  lemma Undivide(val: int, s: int, dInv: int, d: int, p: int)
    requires p > 0 && Cong(d * dInv, 1, p) && Cong(val, s * dInv, p)
    ensures Cong(val * d, s, p)
  {
    MulCong(val, s * dInv, d, d, p);
    MulRotate(s, dInv, d);
    MulCong(s, s, d * dInv, 1, p);
  }

  lemma TermCong(td: Trapdoor, q: QapSystem, i: nat, u: int, v: int, w: int, p: int)
    requires p > 0 && i < |q.u| == |q.v| == |q.w|
    requires Cong(u, Eval(q.u[i], td.tau), p) && Cong(v, Eval(q.v[i], td.tau), p) && Cong(w, Eval(q.w[i], td.tau), p)
    ensures Cong(td.beta * u + td.alpha * v + w, Term(td, q, i), p)
  {
    MulCong(td.beta, td.beta, u, Eval(q.u[i], td.tau), p);
    MulCong(td.alpha, td.alpha, v, Eval(q.v[i], td.tau), p);
    AddCong(td.beta * u, td.beta * Eval(q.u[i], td.tau), td.alpha * v, td.alpha * Eval(q.v[i], td.tau), p);
    AddCong(td.beta * u + td.alpha * v, td.beta * Eval(q.u[i], td.tau) + td.alpha * Eval(q.v[i], td.tau),
            w, Eval(q.w[i], td.tau), p);
  }

  method EvaluateAll(us: seq<Poly>, tau: int, p: int) returns (vals: seq<int>)
    requires p > 0
    ensures |vals| == |us| && forall i :: 0 <= i < |us| ==> Cong(vals[i], Eval(us[i], tau), p)
  {
    vals := [];
    for i := 0 to |us|
      invariant |vals| == i && forall k :: 0 <= k < i ==> Cong(vals[k], Eval(us[k], tau), p)
    {
      var v := Evaluate(us[i], tau, p);
      vals := vals + [v];
    }
  }

  // [tau^i * t(tau) / delta]_1 for i below m.
  method PowersOver(tau: int, tTau: int, deltaInv: int, ghost td: Trapdoor, ghost t: Poly, m: nat, p: int) returns (h: seq<int>)
    requires p > 1 && td.tau == tau && Cong(td.delta * deltaInv, 1, p) && Cong(tTau, Eval(t, tau), p)
    ensures |h| == m
    ensures forall i :: 0 <= i < m ==> Cong(h[i] * td.delta, Pow(tau, i) * Eval(t, tau), p)
  {
    var tTauDelta := MulMod(tTau, deltaInv, p);
    Undivide(tTauDelta, tTau, deltaInv, td.delta, p);
    var power := 1;
    h := [];
    for i := 0 to m
      invariant |h| == i && Cong(power, Pow(tau, i), p)
      invariant forall k :: 0 <= k < i ==> Cong(h[k] * td.delta, Pow(tau, k) * Eval(t, tau), p)
    {
      var scalar := MulMod(power, tTauDelta, p);
      PowerEntry(scalar, power, tTauDelta, td.delta, Pow(tau, i), Eval(t, tau), p);
      h := h + [scalar];
      MulCong(power, Pow(tau, i), tau, tau, p);
      assert Pow(tau, i) * tau == Pow(tau, i + 1);
      power := MulMod(power, tau, p);
    }
  }

  lemma PowerEntry(scalar: int, power: int, td: int, delta: int, x: int, y: int, p: int)
    requires p > 0 && Cong(scalar, power * td, p) && Cong(power, x, p) && Cong(td * delta, y, p)
    ensures Cong(scalar * delta, x * y, p)
  {
    MulCong(scalar, power * td, delta, delta, p);
    MulSwap(power, td, delta);
    MulCong(power, x, td * delta, y, p);
  }

  method Setup(r: System, td: Trapdoor, p: int)
    returns (res: Result<(ProvingKey, VerificationKey)>, ghost q: QapSystem)
    requires IsPrime(p) && |r.constraints| <= p
    requires !Cong(td.gamma, 0, p) && !Cong(td.delta, 0, p)
    ensures res.Ok? <==> r.numVariables > 0 && |r.constraints| > 0 && 0 <= r.numPublic < r.numVariables
    ensures res.Ok? ==>
      && IsQapOf(q, r, p)
      && ProvingKeyFor(td, q, r, res.value.0, p)
      && VerificationKeyFor(td, q, r, res.value.1, p)
  {
    q := QapSystem([], [], [], []);
    var n, l, m := r.numVariables, r.numPublic, |r.constraints|;
    if n <= 0 || m <= 0 || l < 0 || l >= n {
      return Err, q;
    }
    var qap := R1csToQap(r, p);
    q := qap.value;
    SmallMod(0, p);
    var gammaInv := InvertMod(td.gamma, p);
    var deltaInv := InvertMod(td.delta, p);
    var u := EvaluateAll(qap.value.u, td.tau, p);
    var v := EvaluateAll(qap.value.v, td.tau, p);
    var w := EvaluateAll(qap.value.w, td.tau, p);
    var tTau := Evaluate(qap.value.t, td.tau, p);
    var h := PowersOver(td.tau, tTau, deltaInv, td, q.t, m, p);
    var lq: seq<int> := [];
    for j := 0 to n - 1 - l
      invariant |lq| == j
      invariant forall k :: 0 <= k < j ==> Cong(lq[k] * td.delta, Term(td, q, k + 1 + l), p)
    {
      var idx := j + 1 + l;
      var val := TermOver(td.beta, td.alpha, u[idx], v[idx], w[idx], deltaInv, td.delta, p);
      TermCong(td, q, idx, u[idx], v[idx], w[idx], p);
      lq := lq + [val];
    }
    var ic: seq<int> := [];
    for i := 0 to l + 1
      invariant |ic| == i
      invariant forall k :: 0 <= k < i ==> Cong(ic[k] * td.gamma, Term(td, q, k), p)
    {
      var val := TermOver(td.beta, td.alpha, u[i], v[i], w[i], gammaInv, td.gamma, p);
      TermCong(td, q, i, u[i], v[i], w[i], p);
      ic := ic + [val];
    }
    var pk := ProvingKey(Mod(td.alpha, p), Mod(td.beta, p), Mod(td.beta, p), Mod(td.delta, p), Mod(td.delta, p),
                         h, lq, u, v, v);
    MulCong(pk.alphaG1, td.alpha, pk.betaG2, td.beta, p);
    var vk := VerificationKey(pk.alphaG1, pk.betaG2, Mod(td.gamma, p), pk.deltaG2, MulMod(pk.alphaG1, pk.betaG2, p), ic);
    return Ok((pk, vk)), q;
  }

  // ---- Prove --------------------------------------------------------------

  // Sum of w[off + i] * points[i] over i < n.
  function Inner(w: seq<int>, off: nat, points: seq<int>, n: nat): int
    requires off + n <= |w| && n <= |points|
  {
    if n == 0 then 0 else Inner(w, off, points, n - 1) + w[off + n - 1] * points[n - 1]
  }

  // The accumulation loops of Prove and Verify: zero scalars are skipped.
  method Accumulate(start: int, w: seq<int>, off: nat, points: seq<int>, n: nat, p: int) returns (acc: int)
    requires p > 0 && off + n <= |w| && n <= |points|
    ensures Cong(acc, start + Inner(w, off, points, n), p)
  {
    acc := start;
    for i := 0 to n
      invariant Cong(acc, start + Inner(w, off, points, i), p)
    {
      if w[off + i] != 0 {
        var term := MulMod(points[i], w[off + i], p);
        AccumulateStep(acc, start + Inner(w, off, points, i), term, points[i], w[off + i], p);
        acc := AddMod(acc, term, p);
      }
    }
  }

  lemma AccumulateStep(acc: int, sum: int, term: int, point: int, s: int, p: int)
    requires p > 0 && Cong(acc, sum, p) && term == MulMod(point, s, p)
    ensures Cong(AddMod(acc, term, p), sum + s * point, p)
  {
    assert point * s == s * point;
    AddCong(acc, sum, term, s * point, p);
  }

  // The proof elements in terms of the key, the witness, h and the blinding.
  ghost predicate IsProof(pk: ProvingKey, w: seq<int>, l: nat, h: Poly, rr: int, ss: int, proof: Proof, p: int)
    requires p > 0 && l < |w| == |pk.aQuery| == |pk.bG1Query| == |pk.bG2Query|
    requires |pk.lQuery| == |w| - 1 - l && |h| <= |pk.hQuery|
  {
    var n := |w|;
    var bG1 := pk.betaG1 + Inner(w, 0, pk.bG1Query, n) + ss * pk.deltaG1;
    && Cong(proof.a, pk.alphaG1 + Inner(w, 0, pk.aQuery, n) + rr * pk.deltaG1, p)
    && Cong(proof.b, pk.betaG2 + Inner(w, 0, pk.bG2Query, n) + ss * pk.deltaG2, p)
    && Cong(proof.c, Inner(h, 0, pk.hQuery, |h|) + Inner(w, l + 1, pk.lQuery, n - 1 - l)
                     + ss * proof.a + rr * bG1 - rr * ss * pk.deltaG1, p)
  }

  ghost predicate KeyShape(pk: ProvingKey, r: System) {
    && 0 <= r.numPublic < r.numVariables
    && |pk.aQuery| == |pk.bG1Query| == |pk.bG2Query| == r.numVariables
    && |pk.lQuery| == r.numVariables - 1 - r.numPublic
    && |pk.hQuery| == |r.constraints|
  }

  // start + sum of w[i] * points[i] + s * delta.
  method Blinded(start: int, w: seq<int>, points: seq<int>, delta: int, s: int, p: int) returns (acc: int)
    requires p > 0 && |w| <= |points|
    ensures Cong(acc, start + Inner(w, 0, points, |w|) + s * delta, p)
  {
    acc := Accumulate(start, w, 0, points, |w|, p);
    AccumulateStep(acc, start + Inner(w, 0, points, |w|), MulMod(delta, s, p), delta, s, p);
    acc := AddMod(acc, MulMod(delta, s, p), p);
  }

  method Prove(pk: ProvingKey, w: seq<int>, r: System, rr: int, ss: int, p: int)
    returns (res: Result<Proof>, ghost q: QapSystem, ghost a: Poly, ghost b: Poly, ghost c: Poly, ghost h: Poly, ghost rem: Poly)
    requires IsPrime(p) && |r.constraints| <= p && KeyShape(pk, r)
    ensures res.Ok? <==> |w| == r.numVariables && |r.constraints| > 0 && Satisfied(r, At(w), p)
    ensures res.Ok? ==>
      && IsQapOf(q, r, p)
      && IsCombination(a, w, q.u, |w|, |r.constraints|, p)
      && IsCombination(b, w, q.v, |w|, |r.constraints|, p)
      && IsCombination(c, w, q.w, |w|, |r.constraints|, p)
      && IsRemainder(a, b, c, q.t, h, rem, p) && AllZero(rem)
      && |h| <= |pk.hQuery|
      && IsProof(pk, w, r.numPublic, h, rr, ss, res.value, p)
  {
    hide Cong, Satisfied, IsRemainder, Inner, IsPrime, IsCombination, IsProof;
    q, a, b, c, h, rem := QapSystem([], [], [], []), [], [], [], [], [];
    var n, l, m := r.numVariables, r.numPublic, |r.constraints|;
    if |w| != n {
      return Err, q, a, b, c, h, rem;
    }
    var qap := R1csToQap(r, p);
    if qap.Err? {
      return Err, q, a, b, c, h, rem;
    }
    q := qap.value;
    var aPoly, bPoly, cPoly := WitnessPolys(qap.value, w, m, p);
    var hPoly, remainder := Quotient(qap.value, aPoly, bPoly, cPoly, m, p);
    a, b, c, h, rem := aPoly, bPoly, cPoly, hPoly, remainder;
    QapMeaning(q, r, w, a, b, c, h, rem, p);
    var remainderZero := true;
    for i := 0 to |remainder|
      invariant remainderZero <==> forall k :: 0 <= k < i ==> remainder[k] == 0
    {
      if remainder[i] != 0 {
        remainderZero := false;
        break;
      }
    }
    if !remainderZero {
      return Err, q, a, b, c, h, rem;
    }
    var proof := Assemble(pk, w, l, hPoly, rr, ss, p);
    return Ok(proof), q, a, b, c, h, rem;
  }

  // The elements of the proof.
  method Assemble(pk: ProvingKey, w: seq<int>, l: nat, h: Poly, rr: int, ss: int, p: int) returns (proof: Proof)
    requires p > 0 && l < |w| == |pk.aQuery| == |pk.bG1Query| == |pk.bG2Query|
    requires |pk.lQuery| == |w| - 1 - l && |h| <= |pk.hQuery|
    ensures IsProof(pk, w, l, h, rr, ss, proof, p)
  {
    hide Cong, Inner;
    var proofA := Blinded(pk.alphaG1, w, pk.aQuery, pk.deltaG1, rr, p);
    var proofB := Blinded(pk.betaG2, w, pk.bG2Query, pk.deltaG2, ss, p);
    var bG1 := Blinded(pk.betaG1, w, pk.bG1Query, pk.deltaG1, ss, p);
    var proofC := AssembleC(pk, h, w, l, proofA, bG1,
                            pk.betaG1 + Inner(w, 0, pk.bG1Query, |w|) + ss * pk.deltaG1, rr, ss, p);
    proof := Proof(proofA, proofB, proofC);
  }

  // The element C. The h loop is bounded by the h polynomial and by the key.
  method AssembleC(pk: ProvingKey, h: Poly, w: seq<int>, l: nat, proofA: int, bG1: int, ghost bSum: int,
                   rr: int, ss: int, p: int) returns (c: int)
    requires p > 0 && l < |w| && |pk.lQuery| == |w| - 1 - l && |h| <= |pk.hQuery|
    requires Cong(bG1, bSum, p)
    ensures Cong(c, Inner(h, 0, pk.hQuery, |h|) + Inner(w, l + 1, pk.lQuery, |w| - 1 - l)
                    + ss * proofA + rr * bSum - rr * ss * pk.deltaG1, p)
  {
    var hLen := if |h| <= |pk.hQuery| then |h| else |pk.hQuery|;
    var c0 := Accumulate(0, h, 0, pk.hQuery, hLen, p);
    var c1 := Accumulate(c0, w, l + 1, pk.lQuery, |w| - 1 - l, p);
    var c2 := AddMod(c1, MulMod(proofA, ss, p), p);
    var c3 := AddMod(c2, MulMod(bG1, rr, p), p);
    var rs := MulMod(rr, ss, p);
    c := SubMod(c3, MulMod(pk.deltaG1, rs, p), p);
    CTotal(c, c0, c1, c2, c3, rs, Inner(h, 0, pk.hQuery, |h|), Inner(w, l + 1, pk.lQuery, |w| - 1 - l),
           proofA, bG1, bSum, rr, ss, pk.deltaG1, p);
  }

  lemma CTotal(c: int, c0: int, c1: int, c2: int, c3: int, rs: int, x: int, y: int,
               proofA: int, bG1: int, bSum: int, rr: int, ss: int, delta: int, p: int)
    requires p > 0 && Cong(c0, x, p) && Cong(c1, c0 + y, p) && Cong(bG1, bSum, p)
    requires c2 == AddMod(c1, MulMod(proofA, ss, p), p) && c3 == AddMod(c2, MulMod(bG1, rr, p), p)
    requires rs == MulMod(rr, ss, p) && c == SubMod(c3, MulMod(delta, rs, p), p)
    ensures Cong(c, x + y + ss * proofA + rr * bSum - rr * ss * delta, p)
  {
    AddCong(c0, x, y, y, p);
    AccumulateStep(c1, x + y, MulMod(proofA, ss, p), proofA, ss, p);
    var s2 := x + y + ss * proofA;
    AccumulateStep(c2, s2, MulMod(bG1, rr, p), bG1, rr, p);
    MulCong(rr, rr, bG1, bSum, p);
    AddCong(s2, s2, rr * bG1, rr * bSum, p);
    var s3 := s2 + rr * bSum;
    MulCong(delta, delta, rs, rr * ss, p);
    assert delta * (rr * ss) == rr * ss * delta;
    SubCong(c3, s3, MulMod(delta, rs, p), rr * ss * delta, p);
  }

  // ---- Verify -------------------------------------------------------------

  ghost predicate Accepts(vk: VerificationKey, x: seq<int>, proof: Proof, p: int)
    requires p > 0 && |x| + 1 == |vk.ic|
  {
    Cong(proof.a * proof.b,
         vk.alphaBetaGt + (vk.ic[0] + Inner(x, 0, vk.ic[1..], |x|)) * vk.gammaG2 + proof.c * vk.deltaG2, p)
  }

  method Verify(vk: VerificationKey, x: seq<int>, proof: Proof, p: int) returns (res: Result<bool>)
    requires p > 0
    ensures res.Ok? <==> |x| + 1 == |vk.ic|
    ensures res.Ok? ==> (res.value <==> Accepts(vk, x, proof, p))
  {
    if |x| + 1 != |vk.ic| {
      return Err;
    }
    var acc := Accumulate(vk.ic[0], x, 0, vk.ic[1..], |x|, p);
    var lhs := MulMod(proof.a, proof.b, p);
    var rhs2 := MulMod(acc, vk.gammaG2, p);
    var rhs3 := MulMod(proof.c, vk.deltaG2, p);
    var rhs := AddMod(vk.alphaBetaGt, rhs2, p);
    ghost var sum := vk.ic[0] + Inner(x, 0, vk.ic[1..], |x|);
    VerifyRhs(vk.alphaBetaGt, acc, sum, vk.gammaG2, rhs2, rhs3, proof.c * vk.deltaG2, p);
    rhs := AddMod(rhs, rhs3, p);
    if Cong(lhs, rhs, p) { CongSmall(lhs, rhs, p); }
    return Ok(lhs == rhs);
  }

  lemma VerifyRhs(g: int, acc: int, sum: int, gamma: int, rhs2: int, rhs3: int, t: int, p: int)
    requires p > 0 && Cong(acc, sum, p) && rhs2 == MulMod(acc, gamma, p) && Cong(rhs3, t, p)
    ensures Cong(AddMod(AddMod(g, rhs2, p), rhs3, p), g + sum * gamma + t, p)
  {
    MulCong(acc, sum, gamma, gamma, p);
    AddCong(g, g, rhs2, sum * gamma, p);
    AddCong(AddMod(g, rhs2, p), g + sum * gamma, rhs3, t, p);
  }
}
