// Polynomials over integers modulo m as coefficient vectors, lowest first, and
// the operations of poly_ops. Each method is proved against the coefficients
// of the mathematical sum, difference, product or quotient.
module Polynomial {
  import opened ModArith
  import opened Outcome

  type Poly = seq<int>

  // Coefficient k, zero outside the vector.
  function Coef(a: Poly, k: int): int {
    if 0 <= k < |a| then a[k] else 0
  }

  // The integer value at x.
  function Eval(a: Poly, x: int): int {
    if a == [] then 0 else a[0] + x * Eval(a[1..], x)
  }

  // Coefficient k of the product a * b.
  function Conv(a: Poly, b: Poly, k: int): int
    decreases |a|
  {
    if a == [] then 0
    else Conv(a[..|a| - 1], b, k) + a[|a| - 1] * Coef(b, k - (|a| - 1))
  }

  ghost predicate Reduced(a: Poly, m: int) {
    forall i :: 0 <= i < |a| ==> 0 <= a[i] < m
  }

  ghost predicate Trimmed(a: Poly) {
    |a| > 1 ==> a[|a| - 1] != 0
  }

  ghost predicate SameCoefs(a: Poly, b: Poly, m: int)
    requires m > 0
  {
    forall k :: Cong(Coef(a, k), Coef(b, k), m)
  }

  function Max(x: nat, y: nat): nat { if x < y then y else x }

  // ---- Evaluation ---------------------------------------------------------

  // Evaluation only sees the coefficients.
  lemma {:induction false} EvalCong(a: Poly, b: Poly, x: int, m: int)
    requires m > 0 && SameCoefs(a, b, m)
    ensures Cong(Eval(a, x), Eval(b, x), m)
    decreases |a| + |b|
  {
    if a != [] || b != [] {
      var a', b' := if a == [] then [] else a[1..], if b == [] then [] else b[1..];
      forall k ensures Cong(Coef(a', k), Coef(b', k), m) {
        assert Cong(Coef(a, k + 1), Coef(b, k + 1), m);
        if k >= 0 {
          assert Coef(a', k) == Coef(a, k + 1) && Coef(b', k) == Coef(b, k + 1);
        } else {
          assert Coef(a', k) == 0 && Coef(b', k) == 0;
        }
      }
      EvalCong(a', b', x, m);
      EvalHead(a, x);
      EvalHead(b, x);
      assert Cong(Coef(a, 0), Coef(b, 0), m);
      MulCong(x, x, Eval(a', x), Eval(b', x), m);
      AddCong(Coef(a, 0), Coef(b, 0), x * Eval(a', x), x * Eval(b', x), m);
    }
  }

  lemma EvalHead(a: Poly, x: int)
    ensures Eval(a, x) == Coef(a, 0) + x * Eval(if a == [] then [] else a[1..], x)
  {
  }

  lemma {:induction false} EvalSnoc(a: Poly, c: int, x: int)
    ensures Eval(a + [c], x) == Eval(a, x) + c * Pow(x, |a|)
  {
    if a == [] {
      assert a + [c] == [c];
      assert Eval([c], x) == c + x * Eval([], x);
    } else {
      EvalSnoc(a[1..], c, x);
      assert (a + [c])[1..] == a[1..] + [c];
      assert Eval(a + [c], x) == a[0] + x * (Eval(a[1..], x) + c * Pow(x, |a| - 1));
      assert x * (c * Pow(x, |a| - 1)) == c * Pow(x, |a|);
    }
  }

  function Pow(x: int, k: nat): int {
    if k == 0 then 1 else x * Pow(x, k - 1)
  }

  // The list of the first n coefficients of a function, as a polynomial.
  ghost function Tabulate(f: int -> int, n: nat): (a: Poly)
    ensures |a| == n && forall i :: 0 <= i < n ==> a[i] == f(i)
  {
    seq(n, i => f(i))
  }

  lemma {:induction false} EvalAdd(a: Poly, b: Poly, c: Poly, x: int)
    requires |a| == |b| == |c|
    requires forall i :: 0 <= i < |a| ==> c[i] == a[i] + b[i]
    ensures Eval(c, x) == Eval(a, x) + Eval(b, x)
  {
    if a != [] {
      EvalAdd(a[1..], b[1..], c[1..], x);
      MulDist3(x, Eval(a[1..], x), Eval(b[1..], x));
    }
  }

  lemma {:induction false} EvalScale(a: Poly, s: int, c: Poly, x: int)
    requires |a| == |c|
    requires forall i :: 0 <= i < |a| ==> c[i] == s * a[i]
    ensures Eval(c, x) == s * Eval(a, x)
  {
    if a != [] {
      EvalScale(a[1..], s, c[1..], x);
      calc {
        Eval(c, x);
        s * a[0] + x * (s * Eval(a[1..], x));
        { MulSwap(x, s, Eval(a[1..], x)); MulSwap(s, x, Eval(a[1..], x)); }
        s * a[0] + s * (x * Eval(a[1..], x));
        { MulDist3(s, a[0], x * Eval(a[1..], x)); }
        s * Eval(a, x);
      }
    }
  }

  // Appending zeros does not change the value.
  lemma {:induction false} EvalPad(a: Poly, n: nat, x: int)
    requires n >= |a|
    ensures Eval(Pad(a, n), x) == Eval(a, x)
  {
    if n == |a| {
      assert Pad(a, n) == a;
    } else {
      EvalPad(a, n - 1, x);
      assert Pad(a, n) == Pad(a, n - 1) + [0];
      EvalSnoc(Pad(a, n - 1), 0, x);
    }
  }

  ghost function Pad(a: Poly, n: nat): (b: Poly)
    ensures |b| == n && forall i :: 0 <= i < n ==> b[i] == Coef(a, i)
  {
    Tabulate(i => Coef(a, i), n)
  }

  // The exact sum a + s*b.
  ghost function LinearComb(a: Poly, b: Poly, s: int): (c: Poly)
    ensures forall k :: Coef(c, k) == Coef(a, k) + s * Coef(b, k)
  {
    var c := Tabulate(i => Coef(a, i) + s * Coef(b, i), Max(|a|, |b|));
    assert forall k :: k < 0 || k >= |c| ==> Coef(a, k) == 0 && Coef(b, k) == 0 && s * 0 == 0;
    c
  }

  lemma LinearCombEval(a: Poly, b: Poly, s: int, x: int)
    ensures Eval(LinearComb(a, b, s), x) == Eval(a, x) + s * Eval(b, x)
  {
    var n := Max(|a|, |b|);
    var sb := Tabulate(i => s * Coef(b, i), n);
    EvalPad(a, n, x);
    EvalPad(b, n, x);
    EvalScale(Pad(b, n), s, sb, x);
    EvalAdd(Pad(a, n), sb, LinearComb(a, b, s), x);
  }

  // Coefficientwise congruence to a + s*b carries over to every point.
  lemma SumEval(r: Poly, a: Poly, b: Poly, s: int, x: int, m: int)
    requires m > 0
    requires forall k :: Cong(Coef(r, k), Coef(a, k) + s * Coef(b, k), m)
    ensures Cong(Eval(r, x), Eval(a, x) + s * Eval(b, x), m)
  {
    hide *;
    EvalCong(r, LinearComb(a, b, s), x, m);
    LinearCombEval(a, b, s, x);
  }

  // ---- The product --------------------------------------------------------

  // The coefficients Conv(a, b, _) are those of the product polynomial.
  lemma {:induction false} ConvEval(a: Poly, b: Poly, n: nat, x: int)
    requires n >= |a| + |b|
    ensures Eval(Tabulate(k => Conv(a, b, k), n), x) == Eval(a, x) * Eval(b, x)
    decreases |a|
  {
    var c := Tabulate(k => Conv(a, b, k), n);
    if a == [] {
      EvalZero(c, x);
    } else {
      var l := |a| - 1;
      var a' := a[..l];
      var sh := Tabulate(k => Coef(b, k - l), n);
      var d := Tabulate(k => a[l] * Coef(b, k - l), n);
      ConvEval(a', b, n, x);
      EvalShift(b, l, n, x);
      EvalScale(sh, a[l], d, x);
      EvalAdd(Tabulate(k => Conv(a', b, k), n), d, c, x);
      EvalSnoc(a', a[l], x);
      assert a == a' + [a[l]];
      assert a[l] * (Pow(x, l) * Eval(b, x)) == (a[l] * Pow(x, l)) * Eval(b, x) by {
        MulSwap(a[l], Pow(x, l), Eval(b, x));
      }
      MulDist(Eval(a', x), a[l] * Pow(x, l), Eval(b, x));
    }
  }

  lemma {:induction false} EvalZero(c: Poly, x: int)
    requires forall i :: 0 <= i < |c| ==> c[i] == 0
    ensures Eval(c, x) == 0
  {
    if c != [] { EvalZero(c[1..], x); }
  }

  lemma {:induction false} EvalShift(b: Poly, l: nat, n: nat, x: int)
    requires n >= l + |b|
    ensures Eval(Tabulate(k => Coef(b, k - l), n), x) == Pow(x, l) * Eval(b, x)
    decreases l
  {
    var c := Tabulate(k => Coef(b, k - l), n);
    if l == 0 {
      assert c == Pad(b, n);
      EvalPad(b, n, x);
    } else {
      EvalShift(b, l - 1, n - 1, x);
      assert c[1..] == Tabulate(k => Coef(b, k - (l - 1)), n - 1);
      assert c[0] == 0;
      MulSwap(x, Pow(x, l - 1), Eval(b, x));
    }
  }

  lemma {:induction false} ConvOutside(a: Poly, b: Poly, k: int)
    requires k < 0 || k >= |a| + |b| - 1
    ensures Conv(a, b, k) == 0
    decreases |a|
  {
    if a != [] {
      ConvOutside(a[..|a| - 1], b, k);
      assert Coef(b, k - (|a| - 1)) == 0;
    }
  }

  // The exact product.
  ghost function Product(a: Poly, b: Poly): (c: Poly)
    ensures forall k :: Coef(c, k) == Conv(a, b, k)
  {
    var c := Tabulate(k => Conv(a, b, k), |a| + |b|);
    assert forall k :: Coef(c, k) == Conv(a, b, k) by {
      forall k ensures Coef(c, k) == Conv(a, b, k) {
        if !(0 <= k < |c|) { ConvOutside(a, b, k); }
      }
    }
    c
  }

  lemma ProductValue(a: Poly, b: Poly, x: int)
    ensures Eval(Product(a, b), x) == Eval(a, x) * Eval(b, x)
  {
    ConvEval(a, b, |a| + |b|, x);
  }

  // Coefficientwise congruence to a * b carries over to every point.
  lemma ProductEval(r: Poly, a: Poly, b: Poly, x: int, m: int)
    requires m > 0
    requires forall k :: Cong(Coef(r, k), Conv(a, b, k), m)
    ensures Cong(Eval(r, x), Eval(a, x) * Eval(b, x), m)
  {
    hide *;
    EvalCong(r, Product(a, b), x, m);
    ProductValue(a, b, x);
  }

  // ---- The operations of poly_ops -----------------------------------------

  method Trim(p: Poly) returns (r: Poly)
    ensures |r| <= |p| && r == p[..|r|]
    ensures p != [] ==> r != []
    ensures forall k :: Coef(r, k) == Coef(p, k)
    ensures Trimmed(r)
  {
    r := p;
    while |r| > 1 && r[|r| - 1] == 0
      invariant |r| <= |p| && r == p[..|r|] && (p != [] ==> r != [])
      invariant forall k :: |r| <= k < |p| ==> p[k] == 0
    {
      r := r[..|r| - 1];
    }
  }

  method Add(a: Poly, b: Poly, m: int) returns (r: Poly)
    requires m > 0
    ensures forall k :: Cong(Coef(r, k), Coef(a, k) + Coef(b, k), m)
    ensures forall x :: Cong(Eval(r, x), Eval(a, x) + Eval(b, x), m)
    ensures |r| <= Max(|a|, |b|) && (Max(|a|, |b|) > 0 ==> r != [])
    ensures Reduced(a, m) ==> Reduced(r, m)
    ensures Trimmed(r)
  {
    var n := Max(|a|, |b|);
    var res := seq(n, i => 0);
    for i := 0 to |a|
      invariant |res| == n
      invariant forall k :: 0 <= k < i ==> res[k] == a[k]
      invariant forall k :: i <= k < n ==> res[k] == 0
    {
      res := res[i := a[i]];
    }
    for i := 0 to |b|
      invariant |res| == n
      invariant forall k :: 0 <= k < i ==> res[k] == AddMod(Coef(a, k), b[k], m)
      invariant forall k :: i <= k < n ==> res[k] == Coef(a, k)
    {
      res := res[i := AddMod(res[i], b[i], m)];
    }
    r := Trim(res);
    assert Reduced(a, m) ==> Reduced(res, m);
    forall x ensures Cong(Eval(r, x), Eval(a, x) + Eval(b, x), m) {
      SumEval(r, a, b, 1, x, m);
    }
  }

  method Sub(a: Poly, b: Poly, m: int) returns (r: Poly)
    requires m > 0
    ensures forall k :: Cong(Coef(r, k), Coef(a, k) - Coef(b, k), m)
    ensures forall x :: Cong(Eval(r, x), Eval(a, x) - Eval(b, x), m)
    ensures |r| <= Max(|a|, |b|) && (Max(|a|, |b|) > 0 ==> r != [])
    ensures Reduced(a, m) ==> Reduced(r, m)
    ensures Trimmed(r)
  {
    var n := Max(|a|, |b|);
    var res := seq(n, i => 0);
    for i := 0 to |a|
      invariant |res| == n
      invariant forall k :: 0 <= k < i ==> res[k] == a[k]
      invariant forall k :: i <= k < n ==> res[k] == 0
    {
      res := res[i := a[i]];
    }
    for i := 0 to |b|
      invariant |res| == n
      invariant forall k :: 0 <= k < i ==> res[k] == SubMod(Coef(a, k), b[k], m)
      invariant forall k :: i <= k < n ==> res[k] == Coef(a, k)
    {
      res := res[i := SubMod(res[i], b[i], m)];
    }
    r := Trim(res);
    assert Reduced(a, m) ==> Reduced(res, m);
    forall x ensures Cong(Eval(r, x), Eval(a, x) - Eval(b, x), m) {
      SumEval(r, a, b, -1, x, m);
    }
  }

  lemma ScaleEval(r: Poly, a: Poly, s: int, m: int)
    requires m > 0
    requires forall k :: Cong(Coef(r, k), s * Coef(a, k), m)
    ensures forall x :: Cong(Eval(r, x), s * Eval(a, x), m)
  {
    hide Cong;
    forall k ensures Cong(Coef(r, k), Coef([], k) + s * Coef(a, k), m) {
      assert Cong(Coef(r, k), s * Coef(a, k), m);
    }
    forall x ensures Cong(Eval(r, x), s * Eval(a, x), m) {
      SumEval(r, [], a, s, x, m);
    }
  }

  method ScalarMul(a: Poly, s: int, m: int) returns (r: Poly)
    requires m > 0
    ensures forall k :: Cong(Coef(r, k), s * Coef(a, k), m)
    ensures forall x :: Cong(Eval(r, x), s * Eval(a, x), m)
    ensures |r| <= |a| && (a != [] ==> r != [])
    ensures Reduced(r, m) && Trimmed(r)
  {
    var res := seq(|a|, i => 0);
    for i := 0 to |a|
      invariant |res| == |a|
      invariant forall k :: 0 <= k < i ==> res[k] == MulMod(a[k], s, m)
    {
      res := res[i := MulMod(a[i], s, m)];
    }
    r := Trim(res);
    forall k ensures Cong(Coef(r, k), s * Coef(a, k), m) {
      assert Coef(r, k) == Coef(res, k);
      if 0 <= k < |a| { assert a[k] * s == s * a[k]; }
    }
    ScaleEval(r, a, s, m);
  }

  ghost predicate IsProduct(r: Poly, a: Poly, b: Poly, m: int)
    requires m > 0
  {
    forall k :: Cong(Coef(r, k), Conv(a, b, k), m)
  }

  // Coefficient k of c * x^i * b.
  function Shifted(c: int, b: Poly, i: nat, k: int): int {
    c * Coef(b, k - i)
  }

  // One row of the product, up to column j: r = before + c * x^i * b[..j].
  ghost predicate IsRow(r: Poly, before: Poly, c: int, b: Poly, i: nat, j: nat, m: int)
    requires m > 0
  {
    forall k :: Cong(Coef(r, k), Coef(before, k) + (if k < i + j then Shifted(c, b, i, k) else 0), m)
  }

  lemma RowStart(r: Poly, c: int, b: Poly, i: nat, m: int)
    requires m > 0
    ensures IsRow(r, r, c, b, i, 0, m)
  {
    forall k | k < i ensures Shifted(c, b, i, k) == 0 {
      assert Coef(b, k - i) == 0;
    }
  }

  lemma RowStep(r: Poly, before: Poly, c: int, b: Poly, i: nat, j: nat, m: int)
    requires m > 0 && j < |b| && i + j < |r|
    requires IsRow(r, before, c, b, i, j, m)
    ensures IsRow(r[i + j := AddMod(r[i + j], MulMod(c, b[j], m), m)], before, c, b, i, j + 1, m)
  {
    var r' := r[i + j := AddMod(r[i + j], MulMod(c, b[j], m), m)];
    forall k ensures Cong(Coef(r', k), Coef(before, k) + (if k < i + j + 1 then Shifted(c, b, i, k) else 0), m) {
      assert Cong(Coef(r, k), Coef(before, k) + (if k < i + j then Shifted(c, b, i, k) else 0), m);
      if k == i + j {
        AddCong(r[k], Coef(before, k), MulMod(c, b[j], m), c * b[j], m);
      } else {
        assert Coef(r', k) == Coef(r, k);
      }
    }
  }

  lemma RowEnd(r: Poly, before: Poly, a: Poly, b: Poly, i: nat, m: int)
    requires m > 0 && i < |a|
    requires IsProduct(before, a[..i], b, m) && IsRow(r, before, a[i], b, i, |b|, m)
    ensures IsProduct(r, a[..i + 1], b, m)
  {
    hide Cong, Conv, Coef;
    forall k ensures Cong(Coef(r, k), Conv(a[..i + 1], b, k), m) {
      assert Cong(Coef(before, k), Conv(a[..i], b, k), m);
      var t := Shifted(a[i], b, i, k);
      ConvRow(a, b, i, k);
      if k >= i + |b| { RowOutside(a[i], b, i, k); }
      assert Cong(Coef(r, k), Coef(before, k) + (if k < i + |b| then t else 0), m);
      CongRefl(t, m);
      AddCong(Coef(before, k), Conv(a[..i], b, k), t, t, m);
      CongTrans(Coef(r, k), Coef(before, k) + t, Conv(a[..i], b, k) + t, m);
    }
  }

  lemma ConvRow(a: Poly, b: Poly, i: nat, k: int)
    requires i < |a|
    ensures Conv(a[..i + 1], b, k) == Conv(a[..i], b, k) + Shifted(a[i], b, i, k)
  {
    assert a[..i + 1][..i] == a[..i];
  }

  // A row has no coefficients behind its last.
  lemma RowOutside(c: int, b: Poly, i: nat, k: int)
    requires k >= i + |b|
    ensures Shifted(c, b, i, k) == 0
  {
    assert Coef(b, k - i) == 0;
  }

  method Mul(a: Poly, b: Poly, m: int) returns (r: Poly)
    requires m > 0
    ensures forall k :: Cong(Coef(r, k), Conv(a, b, k), m)
    ensures forall x :: Cong(Eval(r, x), Eval(a, x) * Eval(b, x), m)
    ensures r != [] && (a != [] && b != [] ==> |r| <= |a| + |b| - 1)
    ensures Reduced(r, m) && Trimmed(r)
  {
    if a == [] || b == [] {
      r := [0];
      forall k ensures Coef(r, k) == Conv(a, b, k) {
        if b == [] { ConvEmpty(a, k); }
      }
    } else {
      var res := seq(|a| + |b| - 1, i => 0);
      assert IsProduct(res, a[..0], b, m) by {
        assert a[..0] == [];
      }
      for i := 0 to |a|
        invariant |res| == |a| + |b| - 1 && Reduced(res, m)
        invariant IsProduct(res, a[..i], b, m)
      {
        ghost var before := res;
        RowStart(res, a[i], b, i, m);
        if a[i] == 0 {
          assert forall k :: Shifted(a[i], b, i, k) == 0;
          assert IsRow(res, before, a[i], b, i, |b|, m);
        } else {
          for j := 0 to |b|
            invariant |res| == |a| + |b| - 1 && Reduced(res, m)
            invariant IsRow(res, before, a[i], b, i, j, m)
          {
            var term := MulMod(a[i], b[j], m);
            RowStep(res, before, a[i], b, i, j, m);
            res := res[i + j := AddMod(res[i + j], term, m)];
          }
        }
        RowEnd(res, before, a, b, i, m);
      }
      assert a[..|a|] == a;
      r := Trim(res);
    }
    forall x ensures Cong(Eval(r, x), Eval(a, x) * Eval(b, x), m) {
      ProductEval(r, a, b, x, m);
    }
  }

  lemma {:induction false} ConvEmpty(a: Poly, k: int)
    ensures Conv(a, [], k) == 0
    decreases |a|
  {
    if a != [] { ConvEmpty(a[..|a| - 1], k); }
  }

  lemma LastCoefficient(p: Poly, x: int)
    requires p != []
    ensures Eval(p[|p| - 1..], x) == p[|p| - 1]
  {
    var c := p[|p| - 1];
    assert p[|p| - 1..] == [c] && [c][1..] == [];
    assert Eval([c], x) == c + x * Eval([], x);
  }

  lemma HornerStep(p: Poly, x: int, i: nat, v: int, m: int)
    requires m > 0 && i + 1 < |p| && Cong(v, Eval(p[i + 1..], x), m)
    ensures Cong(AddMod(MulMod(v, x, m), p[i], m), Eval(p[i..], x), m)
  {
    hide Cong;
    var e := Eval(p[i + 1..], x);
    assert p[i..][1..] == p[i + 1..];
    assert Eval(p[i..], x) == p[i] + x * e;
    CongRefl(x, m);
    CongRefl(p[i], m);
    MulThrough(MulMod(v, x, m), v, x, e, x, m);
    AddThrough(AddMod(MulMod(v, x, m), p[i], m), MulMod(v, x, m), p[i], e * x, p[i], m);
  }

  // Horner's rule.
  method Evaluate(p: Poly, x: int, m: int) returns (v: int)
    requires m > 0
    ensures Cong(v, Eval(p, x), m)
    ensures Reduced(p, m) ==> 0 <= v < m
  {
    hide Cong, Eval, AddMod, MulMod;
    if p == [] {
      EvalZero([], x);
      CongRefl(0, m);
      return 0;
    }
    v := p[|p| - 1];
    LastCoefficient(p, x);
    CongRefl(v, m);
    var i := |p| - 2;
    while i >= 0
      invariant -1 <= i <= |p| - 2
      invariant Cong(v, Eval(p[i + 1..], x), m)
      invariant Reduced(p, m) ==> 0 <= v < m
    {
      HornerStep(p, x, i, v, m);
      v := AddMod(MulMod(v, x, m), p[i], m);
      i := i - 1;
    }
    assert p[0..] == p;
  }

  function NegMod(v: int, m: int): (r: int)
    requires m > 0
    ensures Cong(r, -v, m)
  {
    if v == 0 then 0
    else
      ModCong(v, m);
      SubCong(0, 0, Mod(v, m), v, m);
      assert m - Mod(v, m) - (-Mod(v, m)) == 1 * m;
      CongIntro(m - Mod(v, m), -Mod(v, m), 1, m);
      m - Mod(v, m)
  }

  // The value at x of the monic polynomial with the given roots.
  function RootsAt(roots: seq<int>, x: int): int {
    if roots == [] then 1
    else RootsAt(roots[..|roots| - 1], x) * (x - roots[|roots| - 1])
  }

  lemma LinearEval(c: int, root: int, x: int, m: int)
    requires m > 0 && Cong(c, -root, m)
    ensures Cong(Eval([c, 1], x), x - root, m)
  {
    hide Cong;
    assert [c, 1][1..] == [1] && [1][1..] == [];
    assert Eval([1], x) == 1 + x * Eval([], x);
    assert Eval([c, 1], x) == c + x * Eval([1], x);
    CongRefl(x, m);
    AddCong(c, -root, x, x, m);
  }

  method FromRoots(roots: seq<int>, m: int) returns (r: Poly)
    requires m > 1
    ensures forall x :: Cong(Eval(r, x), RootsAt(roots, x), m)
    ensures |r| == |roots| + 1 && r[|roots|] == 1
    ensures Reduced(r, m)
  {
    r := [1];
    forall x ensures Eval([1], x) == 1 && RootsAt(roots[..0], x) == 1 {
      assert Eval([1], x) == 1 + x * Eval([], x);
    }
    for i := 0 to |roots|
      invariant |r| == i + 1 && r[i] == 1 && Reduced(r, m)
      invariant forall x :: Cong(Eval(r, x), RootsAt(roots[..i], x), m)
    {
      var factor := [NegMod(roots[i], m), 1];
      ghost var before := r;
      r := Mul(r, factor, m);
      forall x ensures Cong(Eval(r, x), RootsAt(roots[..i + 1], x), m) {
        assert roots[..i + 1][..i] == roots[..i];
        LinearEval(factor[0], roots[i], x, m);
        assert Cong(Eval(before, x), RootsAt(roots[..i], x), m);
        MulCong(Eval(before, x), RootsAt(roots[..i], x), Eval(factor, x), x - roots[i], m);
      }
      ConvTop(before, factor);
      assert Cong(Coef(r, i + 1), 1, m);
      SmallMod(1, m);
      if |r| <= i + 1 { SmallMod(0, m); }
      CongSmall(r[i + 1], 1, m);
    }
    assert roots[..|roots|] == roots;
  }

  // The top coefficient of a product is the product of the top coefficients.
  lemma ConvTop(a: Poly, b: Poly)
    requires a != [] && b != []
    ensures Conv(a, b, |a| + |b| - 2) == a[|a| - 1] * b[|b| - 1]
  {
    ConvOutside(a[..|a| - 1], b, |a| + |b| - 2);
  }

  // ---- Division -----------------------------------------------------------

  // a = q * b + r, coefficient by coefficient.
  ghost predicate IsDivision(a: Poly, b: Poly, q: Poly, r: Poly, m: int)
    requires m > 0
  {
    forall k :: Cong(Coef(a, k), Conv(q, b, k) + Coef(r, k), m)
  }

  lemma {:induction false} ConvUpdate(q: Poly, b: Poly, i: nat, c: int, k: int)
    requires i < |q| && q[i] == 0
    ensures Conv(q[i := c], b, k) == Conv(q, b, k) + Shifted(c, b, i, k)
    decreases |q|
  {
    var q' := q[i := c];
    var l := |q| - 1;
    if i == l {
      assert q'[..l] == q[..l];
    } else {
      assert q'[..l] == q[..l][i := c];
      ConvUpdate(q[..l], b, i, c, k);
    }
  }

  lemma {:induction false} ConvTrim(q: Poly, n: nat, b: Poly, k: int)
    requires n <= |q| && forall i :: n <= i < |q| ==> q[i] == 0
    ensures Conv(q[..n], b, k) == Conv(q, b, k)
    decreases |q|
  {
    if n == |q| {
      assert q[..n] == q;
    } else {
      var l := |q| - 1;
      assert q[..l][..n] == q[..n];
      ConvTrim(q[..l], n, b, k);
    }
  }

  lemma {:induction false} ConvZero(q: Poly, b: Poly, k: int)
    requires forall i :: 0 <= i < |q| ==> q[i] == 0
    ensures Conv(q, b, k) == 0
    decreases |q|
  {
    if q != [] { ConvZero(q[..|q| - 1], b, k); }
  }

  lemma DivisionStart(a: Poly, b: Poly, q: Poly, m: int)
    requires m > 0 && forall i :: 0 <= i < |q| ==> q[i] == 0
    ensures IsDivision(a, b, q, a, m)
  {
    forall k ensures Conv(q, b, k) == 0 { ConvZero(q, b, k); }
  }

  // r' = r - c * x^i * b[..j].
  ghost predicate IsReduction(r': Poly, r: Poly, c: int, b: Poly, i: nat, j: nat, m: int)
    requires m > 0
  {
    forall k :: Cong(Coef(r', k), Coef(r, k) - (if k < i + j then Shifted(c, b, i, k) else 0), m)
  }

  lemma ReductionStart(r: Poly, c: int, b: Poly, i: nat, m: int)
    requires m > 0
    ensures IsReduction(r, r, c, b, i, 0, m)
  {
    forall k | k < i ensures Shifted(c, b, i, k) == 0 {
      assert Coef(b, k - i) == 0;
    }
  }

  lemma ReductionStep(r': Poly, r: Poly, c: int, b: Poly, i: nat, j: nat, m: int)
    requires m > 0 && j < |b| && i + j < |r'|
    requires IsReduction(r', r, c, b, i, j, m)
    ensures IsReduction(r'[i + j := SubMod(r'[i + j], MulMod(c, b[j], m), m)], r, c, b, i, j + 1, m)
  {
    var s := r'[i + j := SubMod(r'[i + j], MulMod(c, b[j], m), m)];
    forall k ensures Cong(Coef(s, k), Coef(r, k) - (if k < i + j + 1 then Shifted(c, b, i, k) else 0), m) {
      assert Cong(Coef(r', k), Coef(r, k) - (if k < i + j then Shifted(c, b, i, k) else 0), m);
      if k == i + j {
        SubCong(r'[k], Coef(r, k), MulMod(c, b[j], m), c * b[j], m);
      } else {
        assert Coef(s, k) == Coef(r', k);
      }
    }
  }

  // Moving c * x^i * b from the remainder to the quotient.
  lemma DivisionStep(a: Poly, b: Poly, q: Poly, r: Poly, c: int, i: nat, r': Poly, m: int)
    requires m > 0 && i < |q| && q[i] == 0
    requires IsDivision(a, b, q, r, m) && IsReduction(r', r, c, b, i, |b|, m)
    ensures IsDivision(a, b, q[i := c], r', m)
  {
    forall k ensures Cong(Coef(a, k), Conv(q[i := c], b, k) + Coef(r', k), m) {
      assert Cong(Coef(a, k), Conv(q, b, k) + Coef(r, k), m);
      ConvUpdate(q, b, i, c, k);
      var t := Shifted(c, b, i, k);
      assert k >= i + |b| ==> t == 0 by {
        if k >= i + |b| { assert Coef(b, k - i) == 0; }
      }
      assert Cong(Coef(r', k), Coef(r, k) - t, m);
      AddCong(Conv(q, b, k) + t, Conv(q, b, k) + t, Coef(r', k), Coef(r, k) - t, m);
    }
  }

  // The step clears the leading coefficient, and touches nothing above it.
  lemma LeadCleared(r': Poly, r: Poly, c: int, b: Poly, i: nat, m: int)
    requires m > 0 && b != [] && |r'| == |r| && i + |b| <= |r|
    requires IsReduction(r', r, c, b, i, |b|, m)
    requires Cong(c * b[|b| - 1], r[i + |b| - 1], m) && 0 <= r'[i + |b| - 1] < m
    ensures r'[i + |b| - 1] == 0
  {
    var k := i + |b| - 1;
    assert Cong(Coef(r', k), Coef(r, k) - Shifted(c, b, i, k), m);
    SubCong(r[k], r[k], c * b[|b| - 1], r[k], m);
    CongSmall(r'[k], 0, m);
  }

  lemma DivisionEnd(a: Poly, b: Poly, q: Poly, r: Poly, q': Poly, r': Poly, m: int)
    requires m > 0 && IsDivision(a, b, q, r, m)
    requires |q'| <= |q| && q' == q[..|q'|] && forall k :: Coef(q', k) == Coef(q, k)
    requires forall k :: Coef(r', k) == Coef(r, k)
    ensures IsDivision(a, b, q', r', m)
  {
    forall i | |q'| <= i < |q| ensures q[i] == 0 {
      assert Coef(q', i) == Coef(q, i);
    }
    forall k ensures Cong(Coef(a, k), Conv(q', b, k) + Coef(r', k), m) {
      assert Cong(Coef(a, k), Conv(q, b, k) + Coef(r, k), m);
      ConvTrim(q, |q'|, b, k);
    }
  }

  lemma DivisionCoefs(a: Poly, b: Poly, q: Poly, r: Poly, m: int)
    requires m > 0 && IsDivision(a, b, q, r, m)
    ensures SameCoefs(a, LinearComb(Product(q, b), r, 1), m)
  {
    var c := LinearComb(Product(q, b), r, 1);
    forall k ensures Cong(Coef(a, k), Coef(c, k), m) {
      assert Cong(Coef(a, k), Conv(q, b, k) + Coef(r, k), m);
      assert Coef(Product(q, b), k) == Conv(q, b, k);
      assert Coef(c, k) == Conv(q, b, k) + Coef(r, k);
    }
  }

  lemma DivisionEval(a: Poly, b: Poly, q: Poly, r: Poly, x: int, m: int)
    requires m > 0 && IsDivision(a, b, q, r, m)
    ensures Cong(Eval(a, x), Eval(q, x) * Eval(b, x) + Eval(r, x), m)
  {
    hide *;
    DivisionCoefs(a, b, q, r, m);
    EvalCong(a, LinearComb(Product(q, b), r, 1), x, m);
    LinearCombEval(Product(q, b), r, 1, x);
    ProductValue(q, b, x);
  }

  lemma QuotientCoef(lead: int, top: int, m: int)
    requires IsPrime(m) && top % m != 0
    ensures Cong(MulMod(lead, InvertMod(top, m), m) * top, lead, m)
  {
    var i := InvertMod(top, m);
    MulCong(MulMod(lead, i, m), lead * i, top, top, m);
    MulCong(lead, lead, top * i, 1, m);
    assert (lead * i) * top == lead * (top * i);
  }

  // Schoolbook division. The divisor must be nonempty with a nonzero leading
  // coefficient, and that coefficient invertible once it is needed.
  method DivMod(a: Poly, b: Poly, m: int) returns (res: Result<(Poly, Poly)>)
    requires IsPrime(m)
    ensures res.Err? <==> b == [] || b[|b| - 1] == 0 || (|a| >= |b| && b[|b| - 1] % m == 0)
    ensures res.Ok? ==>
      var (q, r) := res.value;
      && IsDivision(a, b, q, r, m)
      && |r| < |b|
      && q != [] && (|q| == 1 || |q| <= |a| - |b| + 1) && Trimmed(q)
      && (Reduced(a, m) ==> Reduced(r, m))
  {
    if b == [] || b[|b| - 1] == 0 {
      return Err;
    }
    if |a| < |b| {
      DivisionStart(a, b, [0], m);
      return Ok(([0], a));
    }
    if b[|b| - 1] % m == 0 {
      return Err;
    }
    var rem := a;
    var size := |a| - |b| + 1;
    var quotient := seq(size, i => 0);
    var inv := InvertMod(b[|b| - 1], m);
    DivisionStart(a, b, quotient, m);
    var i := size - 1;
    while i >= 0
      invariant -1 <= i < size == |quotient| && |rem| == |a|
      invariant forall k :: 0 <= k <= i ==> quotient[k] == 0
      invariant forall k :: i + |b| <= k < |rem| ==> rem[k] == 0
      invariant IsDivision(a, b, quotient, rem, m)
      invariant Reduced(a, m) ==> Reduced(rem, m)
    {
      var coeff := MulMod(rem[i + |b| - 1], inv, m);
      QuotientCoef(rem[i + |b| - 1], b[|b| - 1], m);
      ghost var before := rem;
      ReductionStart(rem, coeff, b, i, m);
      for j := 0 to |b|
        invariant |rem| == |a| && IsReduction(rem, before, coeff, b, i, j, m)
        invariant forall k :: i + |b| <= k < |rem| ==> rem[k] == 0
        invariant forall k :: i <= k < i + j ==> 0 <= rem[k] < m
        invariant Reduced(a, m) ==> Reduced(rem, m)
      {
        var sub := MulMod(coeff, b[j], m);
        ReductionStep(rem, before, coeff, b, i, j, m);
        rem := rem[i + j := SubMod(rem[i + j], sub, m)];
      }
      LeadCleared(rem, before, coeff, b, i, m);
      DivisionStep(a, b, quotient, before, coeff, i, rem, m);
      quotient := quotient[i := coeff];
      i := i - 1;
    }
    var r := rem[..|b| - 1];
    var q' := Trim(quotient);
    var r' := Trim(r);
    DivisionEnd(a, b, quotient, rem, q', r', m);
    return Ok((q', r'));
  }
}
