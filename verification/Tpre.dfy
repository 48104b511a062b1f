// Threshold proxy re-encryption. Group elements are their exponents modulo the
// prime order q: the generator is 1, multiplying a point is a product.
module Tpre {
  import opened ModArith
  import opened Outcome
  import opened Polynomial
  import opened Roots
  import opened LagrangeZero

  // Hashes to scalars: of points, of an identity with D, and of the long string
  // that binds a fragment; and the key derivation.
  datatype Hashes<!Key> = Hashes(points: seq<int> -> int, identity: (int, int) -> int, fragment: seq<int> -> int, kdf: int -> Key)

  datatype KeyPair = KeyPair(y: int, x: int)

  datatype KFrag = KFrag(id: int, rk: int, xA: int, u: int, u1: int, z1: int, z2: int)

  datatype CapsuleStruct = CapsuleStruct(e: int, v: int, s: int)

  datatype CFrag = CFrag(e1: int, v1: int, id: int, xA: int)

  // Scalar multiplication and addition of points.
  function PMul(a: int, k: int, q: int): (r: int)
    requires q > 0
    ensures 0 <= r < q && Cong(r, a * k, q)
  {
    MulMod(a, k, q)
  }

  function PAdd(a: int, b: int, q: int): (r: int)
    requires q > 0
    ensures 0 <= r < q && Cong(r, a + b, q)
  {
    AddMod(a, b, q)
  }

  method GenerateKeyPair(x: int, q: int) returns (k: KeyPair)
    requires q > 0
    ensures k == KeyPair(PMul(1, x, q), x) && Cong(k.y, x, q)
  {
    assert 1 * x == x;
    k := KeyPair(PMul(1, x, q), x);
  }

  // ---- Re-encryption keys -------------------------------------------------

  // The secrets shared by A and B, from either side.
  function SharedD<K>(yA: int, yB: int, common: int, h: Hashes<K>): int { h.points([yA, yB, common]) }
  function SharedSmallD<K>(xA: int, yB: int, common: int, h: Hashes<K>): int { h.points([xA, yB, common]) }

  // The polynomial at the point of one fragment, term by term.
  method EvalShare(coefs: seq<int>, s: int, q: int) returns (rk: int)
    requires q > 0 && coefs != []
    ensures Cong(rk, Eval(coefs, s), q)
  {
    hide Cong, Eval, PowMod, Pow, MulMod, AddMod;
    rk := coefs[0];
    FirstTerm(coefs, s);
    CongRefl(coefs[0], q);
    for j := 1 to |coefs|
      invariant Cong(rk, Eval(coefs[..j], s), q)
    {
      var power := PowMod(s, j, q);
      var term := MulMod(coefs[j], power, q);
      NextTerm(coefs, s, j, rk, power, q);
      rk := AddMod(rk, term, q);
    }
    assert coefs[..|coefs|] == coefs;
  }

  function PowMod(x: int, k: nat, q: int): (r: int)
    requires q > 0
    ensures Cong(r, Pow(x, k), q)
  {
    ModCong(Pow(x, k), q);
    Pow(x, k) % q
  }

  lemma NextTerm(coefs: seq<int>, s: int, j: nat, rk: int, power: int, q: int)
    requires q > 0 && j < |coefs| && Cong(rk, Eval(coefs[..j], s), q) && Cong(power, Pow(s, j), q)
    ensures Cong(AddMod(rk, MulMod(coefs[j], power, q), q), Eval(coefs[..j + 1], s), q)
  {
    hide Cong, Eval, Pow;
    assert coefs[..j + 1] == coefs[..j] + [coefs[j]];
    EvalSnoc(coefs[..j], coefs[j], s);
    CongRefl(coefs[j], q);
    var term := MulMod(coefs[j], power, q);
    MulThrough(term, coefs[j], power, coefs[j], Pow(s, j), q);
    AddThrough(AddMod(rk, term, q), rk, term, Eval(coefs[..j], s), coefs[j] * Pow(s, j), q);
  }

  lemma FirstTerm(coefs: seq<int>, s: int)
    requires coefs != []
    ensures Eval(coefs[..1], s) == coefs[0]
  {
    assert coefs[..1] == [coefs[0]] && [coefs[0]][1..] == [];
    assert Eval([coefs[0]], s) == coefs[0] + s * Eval([], s);
  }

  // What a fragment of the polynomial is.
  ghost predicate IsFragment<K>(k: KFrag, coefs: seq<int>, bigD: int, xA: int, h: Hashes<K>, q: int)
    requires q > 0
  {
    Cong(k.rk, Eval(coefs, h.identity(k.id, bigD)), q) && k.xA == xA
  }

  // GenerateReKey: N fragments of a polynomial with t coefficients whose constant
  // term is a / d. It fails when d has no inverse.
  method GenerateReKey<K>(a: int, yA: int, yB: int, n: int, t: int, x: int, rest: nat -> int, ids: nat -> int, ys: nat -> int,
                          r0: int, h: Hashes<K>, q: int)
    returns (res: Result<seq<KFrag>>, ghost coefs: seq<int>)
    requires IsPrime(q)
    ensures res.Ok? <==> SharedSmallD(PMul(1, x, q), yB, PMul(yB, x, q), h) % q != 0
    ensures res.Ok? ==> |res.value| == (if n > 0 then n else 0) && forall i :: 0 <= i < |res.value| ==> res.value[i].id == ids(i)
    ensures res.Ok? ==>
      var xA := PMul(1, x, q);
      && |coefs| == (if t > 1 then t else 1) && Cong(coefs[0] * SharedSmallD(xA, yB, PMul(yB, x, q), h), a, q)
      && forall i :: 0 <= i < |res.value| ==>
           IsFragment(res.value[i], coefs, SharedD(yA, yB, PMul(yB, a, q), h), xA, h, q)
  {
    hide Cong, Eval;
    coefs := [];
    var xA := PMul(1, x, q);
    var d := SharedSmallD(xA, yB, PMul(yB, x, q), h);
    if d % q == 0 { return Err, coefs; }
    var f0 := MulMod(a, InvertMod(d, q), q);
    ConstantTerm(f0, a, d, q);
    var cs := [f0];
    for j := 1 to (if t > 1 then t else 1)
      invariant |cs| == j && cs[0] == f0
    {
      cs := cs + [rest(j)];
    }
    coefs := cs;
    var bigD := SharedD(yA, yB, PMul(yB, a, q), h);
    var u := PMul(1, r0, q);
    var frags: seq<KFrag> := [];
    for i := 0 to (if n > 0 then n else 0)
      invariant |frags| == i
      invariant forall j :: 0 <= j < i ==> frags[j].id == ids(j) && IsFragment(frags[j], cs, bigD, xA, h, q)
    {
      var s := h.identity(ids(i), bigD);
      var rk := EvalShare(cs, s, q);
      var u1 := PMul(u, rk, q);
      var z1 := h.fragment([PMul(1, ys(i), q), ids(i), yA, yB, u1, xA]);
      var z2 := SubMod(ys(i), MulMod(a, z1, q), q);
      frags := frags + [KFrag(ids(i), rk, xA, u, u1, z1, z2)];
    }
    res := Ok(frags);
  }

  lemma ConstantTerm(f0: int, a: int, d: int, q: int)
    requires IsPrime(q) && d % q != 0 && f0 == MulMod(a, InvertMod(d, q), q)
    ensures Cong(f0 * d, a, q)
  {
    hide Cong;
    var e := InvertMod(d, q);
    CongRefl(d, q);
    CongRefl(a, q);
    MulCong(f0, a * e, d, d, q);
    MulCong(a, a, d * e, 1, q);
    MulOrder(a, e, d);
    assert a * e * d == a * (d * e) by { MulRotate(a, e, d); }
    CongTrans(f0 * d, a * (d * e), a * 1, q);
  }

  // ---- Capsules -----------------------------------------------------------

  method EnCapsulate<K>(yA: int, r: int, u: int, h: Hashes<K>, q: int) returns (c: CapsuleStruct, k: K)
    requires q > 0
    ensures c == CapsuleStruct(PMul(1, r, q), PMul(1, u, q), AddMod(u, MulMod(r, h.points([c.e, c.v]), q), q))
    ensures k == h.kdf(PMul(yA, AddMod(u, r, q), q))
  {
    var e, v := PMul(1, r, q), PMul(1, u, q);
    c := CapsuleStruct(e, v, AddMod(u, MulMod(r, h.points([e, v]), q), q));
    k := h.kdf(PMul(yA, AddMod(u, r, q), q));
  }

  method DeCapsulate<K>(x: int, c: CapsuleStruct, h: Hashes<K>, q: int) returns (k: K)
    requires q > 0
    ensures k == h.kdf(PMul(PAdd(c.e, c.v, q), x, q))
  {
    k := h.kdf(PMul(PAdd(c.e, c.v, q), x, q));
  }

  // The equation CheckCapsule tests.
  ghost predicate Sound<K>(c: CapsuleStruct, h: Hashes<K>, q: int)
    requires q > 0
  {
    Cong(c.s, c.v + c.e * h.points([c.e, c.v]), q)
  }

  method CheckCapsule<K>(c: CapsuleStruct, h: Hashes<K>, q: int) returns (ok: bool)
    requires q > 0
    ensures ok <==> Sound(c, h, q)
  {
    hide Cong;
    var tmp0 := PMul(1, c.s, q);
    var hev := h.points([c.e, c.v]);
    var tmp1 := PAdd(c.v, PMul(c.e, hev, q), q);
    ok := tmp0 == tmp1;
    CongRefl(c.v, q);
    AddThrough(tmp1, c.v, PMul(c.e, hev, q), c.v, c.e * hev, q);
    CheckArith(tmp0, tmp1, c.s, c.v + c.e * hev, q);
  }

  lemma CheckArith(x: int, y: int, s: int, t: int, q: int)
    requires q > 0 && 0 <= x < q && 0 <= y < q && Cong(x, 1 * s, q) && Cong(y, t, q)
    ensures x == y <==> Cong(s, t, q)
  {
    if Cong(s, t, q) { CongSmall(x, y, q); }
  }

  // Every honest capsule passes.
  lemma HonestCapsule<K>(r: int, u: int, c: CapsuleStruct, h: Hashes<K>, q: int)
    requires q > 0
    requires c == CapsuleStruct(PMul(1, r, q), PMul(1, u, q), AddMod(u, MulMod(r, h.points([c.e, c.v]), q), q))
    ensures Sound(c, h, q)
  {
    hide Cong;
    var hev := h.points([c.e, c.v]);
    assert 1 * r == r && 1 * u == u;
    CongRefl(hev, q);
    CongSym(c.e, r, q);
    CongSym(c.v, u, q);
    MulThrough(MulMod(r, hev, q), r, hev, c.e, hev, q);
    AddThrough(c.s, u, MulMod(r, hev, q), c.v, c.e * hev, q);
  }

  // ReEncapsulate refuses a damaged capsule.
  method ReEncapsulate<K>(k: KFrag, c: CapsuleStruct, h: Hashes<K>, q: int) returns (res: Result<CFrag>)
    requires q > 0
    ensures res.Ok? <==> Sound(c, h, q)
    ensures res.Ok? ==> res.value == CFrag(PMul(c.e, k.rk, q), PMul(c.v, k.rk, q), k.id, k.xA)
  {
    var ok := CheckCapsule(c, h, q);
    if !ok { return Err; }
    res := Ok(CFrag(PMul(c.e, k.rk, q), PMul(c.v, k.rk, q), k.id, k.xA));
  }

  // ---- Decapsulation from fragments ---------------------------------------

  // The Lagrange coefficient of fragment i; it fails when another fragment has
  // the same point.
  method Lambda(s: seq<int>, i: nat, q: int) returns (res: Result<int>)
    requires IsPrime(q) && i < |s|
    ensures res.Ok? <==> forall j :: 0 <= j < |s| && j != i ==> !Cong(s[j], s[i], q)
    ensures res.Ok? ==> IsWeight(res.value, s, i, |s|, q)
  {
    hide Cong, ProdExcept;
    var weight := 1;
    NoFactors(s, i, q);
    for j := 0 to |s|
      invariant IsWeight(weight, s, i, j, q)
      invariant forall k :: 0 <= k < j && k != i ==> !Cong(s[k], s[i], q)
    {
      if i != j {
        var diff := SubMod(s[j], s[i], q);
        Differs(diff, s[j], s[i], q);
        if diff % q == 0 { return Err; }
        var inv := InvertMod(diff, q);
        var factor := MulMod(inv, s[j], q);
        OneFactor(weight, factor, inv, diff, s, i, j, q);
        weight := MulMod(weight, factor, q);
      } else {
        SkipFactor(s, i);
      }
    }
    res := Ok(weight);
  }

  lemma NoFactors(s: seq<int>, i: nat, q: int)
    requires q > 0 && i < |s|
    ensures IsWeight(1, s, i, 0, q)
  {
    assert ProdExcept(s, s[i], i, 0) == 1 && ProdExcept(s, 0, i, 0) == 1;
  }

  lemma SkipFactor(s: seq<int>, i: nat)
    requires i < |s|
    ensures ProdExcept(s, s[i], i, i + 1) == ProdExcept(s, s[i], i, i)
    ensures ProdExcept(s, 0, i, i + 1) == ProdExcept(s, 0, i, i)
  {
  }

  lemma Differs(diff: int, a: int, b: int, q: int)
    requires q > 0 && diff == SubMod(a, b, q)
    ensures diff % q == 0 <==> Cong(a, b, q)
  {
    SmallMod(0, q);
    SmallMod(diff, q);
    if Cong(a, b, q) { SubCong(a, b, b, b, q); }
    if diff == 0 { AddCong(a - b, 0, b, b, q); }
  }

  lemma OneFactor(l: int, factor: int, inv: int, diff: int, s: seq<int>, i: nat, j: nat, q: int)
    requires q > 0 && i < |s| && j < |s| && i != j && IsWeight(l, s, i, j, q)
    requires diff == SubMod(s[j], s[i], q) && Cong(diff * inv, 1, q) && factor == MulMod(inv, s[j], q)
    ensures IsWeight(MulMod(l, factor, q), s, i, j + 1, q)
  {
    hide Cong;
    var a, b := ProdExcept(s, s[i], i, j), ProdExcept(s, 0, i, j);
    FactorCong(factor, inv, diff, s[j], s[i], q);
    WeightStep(l, factor, a, b, s[i] - s[j], 0 - s[j], MulMod(l, factor, q), q);
  }

  // factor * (x - y) is -y when factor is y over y - x.
  lemma FactorCong(factor: int, inv: int, diff: int, y: int, x: int, q: int)
    requires q > 0 && diff == SubMod(y, x, q) && Cong(diff * inv, 1, q) && factor == MulMod(inv, y, q)
    ensures Cong(factor * (x - y), 0 - y, q)
  {
    hide Cong;
    CongRefl(y, q);
    CongSym(diff, y - x, q);
    MulCong(factor, inv * y, y - x, diff, q);
    MulCong(diff * inv, 1, y, y, q);
    MulOrder(diff, inv, y);
    CongTrans(factor * (y - x), inv * y * diff, 1 * y, q);
    NegCong(factor * (y - x), y, q);
    NegProduct(factor, x, y);
  }

  lemma NegProduct(f: int, x: int, y: int)
    ensures -(f * (y - x)) == f * (x - y)
  {
  }

  lemma WeightStep(l: int, f: int, a: int, b: int, d: int, z: int, m: int, q: int)
    requires q > 0 && Cong(l * a, b, q) && Cong(f * d, z, q) && Cong(m, l * f, q)
    ensures Cong(m * (a * d), b * z, q)
  {
    hide Cong;
    CongRefl(a * d, q);
    MulCong(m, l * f, a * d, a * d, q);
    MulCong(l * a, b, f * d, z, q);
    FourFactors(l, f, a, d);
    CongTrans(m * (a * d), l * f * (a * d), b * z, q);
  }

  lemma FourFactors(l: int, f: int, a: int, d: int)
    ensures l * f * (a * d) == l * a * (f * d)
  {
    assert l * f * (a * d) == l * (f * (a * d));
    assert f * (a * d) == a * (f * d);
    assert l * a * (f * d) == l * (a * (f * d));
  }

  function Points<K>(frags: seq<CFrag>, bigD: int, h: Hashes<K>): (s: seq<int>)
    ensures |s| == |frags| && forall i :: 0 <= i < |s| ==> s[i] == h.identity(frags[i].id, bigD)
  {
    seq(|frags|, i requires 0 <= i < |frags| => h.identity(frags[i].id, bigD))
  }

  // All coefficients; it fails when two points are equal.
  method Lambdas(s: seq<int>, q: int) returns (res: Result<seq<int>>)
    requires IsPrime(q)
    ensures res.Ok? <==> DistinctMod(s, q)
    ensures res.Ok? ==> |res.value| == |s| && forall i :: 0 <= i < |s| ==> IsWeight(res.value[i], s, i, |s|, q)
  {
    hide Cong, IsWeight;
    var ls: seq<int> := [];
    for i := 0 to |s|
      invariant |ls| == i && forall k :: 0 <= k < i ==> IsWeight(ls[k], s, k, |s|, q)
      invariant forall k, j :: 0 <= k < i && 0 <= j < |s| && j != k ==> !Cong(s[j], s[k], q)
    {
      var l := Lambda(s, i, q);
      if l.Err? {
        Collision(s, i, q);
        return Err;
      }
      ls := ls + [l.value];
    }
    res := Ok(ls);
  }

  lemma Collision(s: seq<int>, i: nat, q: int)
    requires q > 0 && i < |s| && !(forall j :: 0 <= j < |s| && j != i ==> !Cong(s[j], s[i], q))
    ensures !DistinctMod(s, q)
  {
    var j :| 0 <= j < |s| && j != i && Cong(s[j], s[i], q);
    if j < i { CongSym(s[j], s[i], q); }
  }

  // The weighted sum of points.
  method Combine(ps: seq<int>, ls: seq<int>, q: int) returns (r: int)
    requires q > 0 && |ps| == |ls| > 0
    ensures 0 <= r < q && Cong(r, Weighted(ls, ps, |ls|), q)
  {
    hide Cong;
    r := PMul(ps[0], ls[0], q);
    assert Weighted(ls, ps, 1) == ls[0] * ps[0];
    for i := 1 to |ps|
      invariant 0 <= r < q && Cong(r, Weighted(ls, ps, i), q)
    {
      var p := PMul(ps[i], ls[i], q);
      AddThrough(PAdd(r, p, q), r, p, Weighted(ls, ps, i), ls[i] * ps[i], q);
      r := PAdd(r, p, q);
    }
  }

  function FirstPoints(frags: seq<CFrag>): (s: seq<int>)
    ensures |s| == |frags| && forall i :: 0 <= i < |s| ==> s[i] == frags[i].e1
  {
    seq(|frags|, i requires 0 <= i < |frags| => frags[i].e1)
  }

  function SecondPoints(frags: seq<CFrag>): (s: seq<int>)
    ensures |s| == |frags| && forall i :: 0 <= i < |s| ==> s[i] == frags[i].v1
  {
    seq(|frags|, i requires 0 <= i < |frags| => frags[i].v1)
  }

  // DeCapsulateFrags.
  method DeCapsulateFrags<K>(b: int, yA: int, yB: int, frags: seq<CFrag>, h: Hashes<K>, q: int)
    returns (res: Result<K>, ghost ls: seq<int>, ghost point: int)
    requires IsPrime(q) && frags != []
    ensures res.Ok? <==> DistinctMod(Points(frags, SharedD(yA, yB, PMul(yA, b, q), h), h), q)
    ensures res.Ok? ==> 0 <= point < q && res.value == h.kdf(point)
    ensures res.Ok? ==>
      var s := Points(frags, SharedD(yA, yB, PMul(yA, b, q), h), h);
      && |ls| == |s| && (forall i :: 0 <= i < |s| ==> IsWeight(ls[i], s, i, |s|, q))
      && Cong(point, (Weighted(ls, FirstPoints(frags), |ls|) + Weighted(ls, SecondPoints(frags), |ls|))
                     * SharedSmallD(frags[0].xA, yB, PMul(frags[0].xA, b, q), h), q)
  {
    hide Cong, IsWeight, DistinctMod, Weighted, IsPrime, PMul, PAdd;
    ls, point := [], 0;
    assert q > 0 by { PrimePositive(q); }
    var bigD := SharedD(yA, yB, PMul(yA, b, q), h);
    var s := Points(frags, bigD, h);
    var lambdas := Lambdas(s, q);
    if lambdas.Err? { return Err, ls, point; }
    var e := Combine(FirstPoints(frags), lambdas.value, q);
    var v := Combine(SecondPoints(frags), lambdas.value, q);
    var d := SharedSmallD(frags[0].xA, yB, PMul(frags[0].xA, b, q), h);
    var p := PMul(PAdd(e, v, q), d, q);
    ls, point := lambdas.value, p;
    RaisedSum(e, v, Weighted(ls, FirstPoints(frags), |ls|), Weighted(ls, SecondPoints(frags), |ls|), d, q);
    res := Ok(h.kdf(p));
  }

  lemma RaisedSum(e: int, v: int, w: int, x: int, d: int, q: int)
    requires q > 0 && Cong(e, w, q) && Cong(v, x, q)
    ensures Cong(PMul(PAdd(e, v, q), d, q), (w + x) * d, q)
  {
    hide Cong;
    AddThrough(PAdd(e, v, q), e, v, w, x, q);
    CongRefl(d, q);
    MulThrough(PMul(PAdd(e, v, q), d, q), PAdd(e, v, q), d, w + x, d, q);
  }

  lemma PrimePositive(q: int)
    requires IsPrime(q)
    ensures q > 0
  {
  }

  // ---- The theorem --------------------------------------------------------

  // The weighted sum of the points of enough fragments is the capsule's point
  // times the constant term.
  lemma {:induction false} CombinedShares(coefs: seq<int>, s: seq<int>, ls: seq<int>, ps: seq<int>, rks: seq<int>, e: int, q: int)
    requires IsPrime(q) && DistinctMod(s, q) && 0 < |coefs| <= |s| == |ls| == |ps| == |rks|
    requires forall i :: 0 <= i < |s| ==> IsWeight(ls[i], s, i, |s|, q) && Cong(rks[i], Eval(coefs, s[i]), q) && Cong(ps[i], e * rks[i], q)
    ensures Cong(Weighted(ls, ps, |ls|), e * coefs[0], q)
  {
    hide Cong, DistinctMod, IsWeight, Eval;
    Recombine(coefs, s, ls, rks, q);
    ScaledSum(ls, ps, rks, e, |ls|, q);
    CongRefl(e, q);
    MulCong(e, e, Weighted(ls, rks, |ls|), Coef(coefs, 0), q);
    CongTrans(Weighted(ls, ps, |ls|), e * Weighted(ls, rks, |ls|), e * coefs[0], q);
  }

  lemma {:induction false} ScaledSum(ls: seq<int>, ps: seq<int>, rks: seq<int>, e: int, k: nat, q: int)
    requires q > 0 && k <= |ls| == |ps| == |rks| && forall i :: 0 <= i < |ps| ==> Cong(ps[i], e * rks[i], q)
    ensures Cong(Weighted(ls, ps, k), e * Weighted(ls, rks, k), q)
  {
    hide Cong;
    if k == 0 {
      CongRefl(0, q);
    } else {
      ScaledSum(ls, ps, rks, e, k - 1, q);
      ScaledStep(Weighted(ls, ps, k - 1), Weighted(ls, rks, k - 1), ls[k - 1], ps[k - 1], rks[k - 1], e, q);
    }
  }

  lemma ScaledStep(w: int, v: int, l: int, p: int, rk: int, e: int, q: int)
    requires q > 0 && Cong(w, e * v, q) && Cong(p, e * rk, q)
    ensures Cong(w + l * p, e * (v + l * rk), q)
  {
    hide Cong;
    CongRefl(l, q);
    MulCong(l, l, p, e * rk, q);
    MulOrder3(l, e, rk);
    AddCong(w, e * v, l * p, e * (l * rk), q);
    MulDist3(e, v, l * rk);
  }

  // Diffie-Hellman: both sides compute the same point.
  lemma SamePoint(yA: int, a: int, yB: int, b: int, q: int)
    requires q > 0 && Cong(yA, a, q) && Cong(yB, b, q)
    ensures PMul(yB, a, q) == PMul(yA, b, q)
  {
    hide Cong;
    CongRefl(a, q);
    CongRefl(b, q);
    MulThrough(PMul(yB, a, q), yB, a, b, a, q);
    MulThrough(PMul(yA, b, q), yA, b, a, b, q);
    CongSym(PMul(yA, b, q), a * b, q);
    CongTrans(PMul(yB, a, q), a * b, PMul(yA, b, q), q);
    CongSmall(PMul(yB, a, q), PMul(yA, b, q), q);
  }

  // The points of the fragments of the chosen proxies.
  function ProxyPoints<K>(ids: nat -> int, proxies: seq<nat>, bigD: int, h: Hashes<K>): (s: seq<int>)
    ensures |s| == |proxies| && forall i :: 0 <= i < |s| ==> s[i] == h.identity(ids(proxies[i]), bigD)
  {
    seq(|proxies|, i requires 0 <= i < |proxies| => h.identity(ids(proxies[i]), bigD))
  }

  // A run of the whole scheme: A's key, B's key, a rekey with threshold t, an
  // honest capsule, and the fragments of at least t proxies. B derives the key of
  // the capsule, and fails exactly when d has no inverse or two points are equal.
  method Run<K>(a: int, b: int, n: int, t: int, x: int, rest: nat -> int, ids: nat -> int, ys: nat -> int, r0: int,
                r: int, u: int, proxies: seq<nat>, h: Hashes<K>, q: int)
    returns (res: Result<K>, k: K, k': K)
    requires IsPrime(q) && proxies != [] && |proxies| >= t
    requires forall i :: 0 <= i < |proxies| ==> proxies[i] < n
    ensures k == k' == h.kdf(PMul(PMul(1, a, q), AddMod(u, r, q), q))
    ensures
      var yA, yB, xA := PMul(1, a, q), PMul(1, b, q), PMul(1, x, q);
      res.Ok? <==>
        && SharedSmallD(xA, yB, PMul(yB, x, q), h) % q != 0
        && DistinctMod(ProxyPoints(ids, proxies, SharedD(yA, yB, PMul(yB, a, q), h), h), q)
    ensures res.Ok? ==> res.value == k
  {
    hide Cong, IsWeight, Weighted, IsPrime, Eval, DistinctMod, Sound, IsFragment;
    assert q > 0 by { PrimePositive(q); }
    var keyA := GenerateKeyPair(a, q);
    var keyB := GenerateKeyPair(b, q);
    var yA, yB := keyA.y, keyB.y;
    var c;
    c, k := EnCapsulate(yA, r, u, h, q);
    HonestCapsule(r, u, c, h, q);
    k' := DeCapsulate(a, c, h, q);
    DirectKey(yA, a, r, u, c.e, c.v, q);
    var frags;
    ghost var coefs;
    frags, coefs := GenerateReKey(a, yA, yB, n, t, x, rest, ids, ys, r0, h, q);
    if frags.Err? { return Err, k, k'; }
    ghost var bigD := SharedD(yA, yB, PMul(yB, a, q), h);
    var cfs: seq<CFrag> := [];
    ghost var rks: seq<int> := [];
    for i := 0 to |proxies|
      invariant |cfs| == |rks| == i
      invariant forall j :: 0 <= j < i ==> Made(cfs[j], rks[j], c, frags.value[proxies[j]], q)
    {
      var kf := frags.value[proxies[i]];
      var cf := ReEncapsulate(kf, c, h, q);
      cfs, rks := cfs + [cf.value], rks + [kf.rk];
    }
    SamePoint(yA, a, yB, b, q);
    assert Points(cfs, bigD, h) == ProxyPoints(ids, proxies, bigD, h);
    ghost var ls, point;
    res, ls, point := DeCapsulateFrags(b, yA, yB, cfs, h, q);
    if res.Ok? {
      FragmentsKey(a, b, yA, yB, x, r, u, c, coefs, frags.value, proxies, cfs, rks, ls, point, h, q);
    }
  }

  ghost predicate Made(cf: CFrag, rk: int, c: CapsuleStruct, k: KFrag, q: int)
    requires q > 0
  {
    rk == k.rk && cf == CFrag(PMul(c.e, rk, q), PMul(c.v, rk, q), k.id, k.xA)
  }

  // EnCapsulate and DeCapsulate derive the same key.
  lemma DirectKey(yA: int, a: int, r: int, u: int, e: int, v: int, q: int)
    requires q > 0 && Cong(yA, a, q) && e == PMul(1, r, q) && v == PMul(1, u, q)
    ensures PMul(yA, AddMod(u, r, q), q) == PMul(PAdd(e, v, q), a, q)
  {
    hide Cong;
    assert 1 * r == r && 1 * u == u;
    CongRefl(a, q);
    MulThrough(PMul(yA, AddMod(u, r, q), q), yA, AddMod(u, r, q), a, u + r, q);
    AddThrough(PAdd(e, v, q), e, v, r, u, q);
    MulThrough(PMul(PAdd(e, v, q), a, q), PAdd(e, v, q), a, r + u, a, q);
    assert a * (u + r) == (r + u) * a;
    CongSym(PMul(PAdd(e, v, q), a, q), (r + u) * a, q);
    CongTrans(PMul(yA, AddMod(u, r, q), q), (r + u) * a, PMul(PAdd(e, v, q), a, q), q);
    CongSmall(PMul(yA, AddMod(u, r, q), q), PMul(PAdd(e, v, q), a, q), q);
  }

  // Threshold re-encryption: at least t fragments with distinct points derive the
  // key of the capsule.
  lemma FragmentsKey<K>(a: int, b: int, yA: int, yB: int, x: int, r: int, u: int, c: CapsuleStruct, coefs: seq<int>,
                        frags: seq<KFrag>, proxies: seq<nat>, cfs: seq<CFrag>, rks: seq<int>, ls: seq<int>, point: int,
                        h: Hashes<K>, q: int)
    requires IsPrime(q) && Cong(yA, a, q) && Cong(yB, b, q)
    requires c.e == PMul(1, r, q) && c.v == PMul(1, u, q)
    requires proxies != [] && 0 < |coefs| <= |proxies| == |cfs| == |rks|
    requires forall i :: 0 <= i < |proxies| ==> proxies[i] < |frags| && Made(cfs[i], rks[i], c, frags[proxies[i]], q)
    requires
      var xA := PMul(1, x, q);
      var d := SharedSmallD(xA, yB, PMul(yB, x, q), h);
      && Cong(coefs[0] * d, a, q)
      && forall i :: 0 <= i < |frags| ==> IsFragment(frags[i], coefs, SharedD(yA, yB, PMul(yB, a, q), h), xA, h, q)
    requires
      var s := Points(cfs, SharedD(yA, yB, PMul(yA, b, q), h), h);
      && DistinctMod(s, q) && |ls| == |s| && (forall i :: 0 <= i < |s| ==> IsWeight(ls[i], s, i, |s|, q))
      && 0 <= point < q
      && Cong(point, (Weighted(ls, FirstPoints(cfs), |ls|) + Weighted(ls, SecondPoints(cfs), |ls|))
                     * SharedSmallD(cfs[0].xA, yB, PMul(cfs[0].xA, b, q), h), q)
    ensures point == PMul(yA, AddMod(u, r, q), q)
  {
    hide Cong, IsWeight, Weighted, IsPrime, Eval, DistinctMod, PMul, FirstPoints, SecondPoints;
    assert q > 0 by { PrimePositive(q); }
    var xA := PMul(1, x, q);
    SamePoint(yA, a, yB, b, q);
    assert Made(cfs[0], rks[0], c, frags[proxies[0]], q)
      && IsFragment(frags[proxies[0]], coefs, SharedD(yA, yB, PMul(yB, a, q), h), xA, h, q);
    assert 1 * x == x;
    SamePoint(xA, x, yB, b, q);
    var s := Points(cfs, SharedD(yA, yB, PMul(yA, b, q), h), h);
    forall i | 0 <= i < |s|
      ensures Cong(rks[i], Eval(coefs, s[i]), q)
      ensures Cong(FirstPoints(cfs)[i], c.e * rks[i], q) && Cong(SecondPoints(cfs)[i], c.v * rks[i], q)
    {
      assert Made(cfs[i], rks[i], c, frags[proxies[i]], q);
      assert IsFragment(frags[proxies[i]], coefs, SharedD(yA, yB, PMul(yB, a, q), h), xA, h, q);
    }
    CombinedShares(coefs, s, ls, FirstPoints(cfs), rks, c.e, q);
    CombinedShares(coefs, s, ls, SecondPoints(cfs), rks, c.v, q);
    var d := SharedSmallD(xA, yB, PMul(yB, x, q), h);
    KeyArith(Weighted(ls, FirstPoints(cfs), |ls|), Weighted(ls, SecondPoints(cfs), |ls|), c.e, c.v, coefs[0], d, a, yA, r, u, point, q);
  }

  lemma KeyArith(w: int, z: int, e: int, v: int, f0: int, d: int, a: int, yA: int, r: int, u: int, point: int, q: int)
    requires q > 0 && Cong(w, e * f0, q) && Cong(z, v * f0, q) && Cong(f0 * d, a, q) && Cong(yA, a, q)
    requires e == PMul(1, r, q) && v == PMul(1, u, q) && 0 <= point < q && Cong(point, (w + z) * d, q)
    ensures point == PMul(yA, AddMod(u, r, q), q)
  {
    hide Cong, PMul, PAdd;
    DirectKey(yA, a, r, u, e, v, q);
    AddCong(w, e * f0, z, v * f0, q);
    CongRefl(d, q);
    CongRefl(e + v, q);
    CongRefl(a, q);
    MulCong(w + z, e * f0 + v * f0, d, d, q);
    Regroup(e, v, f0, d);
    MulCong(e + v, e + v, f0 * d, a, q);
    CongTrans((w + z) * d, (e + v) * (f0 * d), (e + v) * a, q);
    CongTrans(point, (w + z) * d, (e + v) * a, q);
    MulThrough(PMul(PAdd(e, v, q), a, q), PAdd(e, v, q), a, e + v, a, q);
    CongSym(PMul(PAdd(e, v, q), a, q), (e + v) * a, q);
    CongTrans(point, (e + v) * a, PMul(PAdd(e, v, q), a, q), q);
    CongSmall(point, PMul(PAdd(e, v, q), a, q), q);
  }

  lemma Regroup(e: int, v: int, f: int, d: int)
    ensures (e * f + v * f) * d == (e + v) * (f * d)
  {
    assert e * f + v * f == (e + v) * f;
  }
}
