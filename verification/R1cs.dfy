// Rank-1 constraint systems: linear combinations as finite maps from variable
// to coefficient, their evaluation on a witness, and satisfaction.
module R1cs {
  import opened ModArith
  import opened Outcome
  import opened OrderedMap

  type Terms = map<int, int>

  function TermCoef(t: Terms, v: int): int {
    if v in t then t[v] else 0
  }

  // The integer value of a linear combination of the variables below n.
  function Value(t: Terms, f: int -> int, n: nat): int {
    if n == 0 then 0 else Value(t, f, n - 1) + TermCoef(t, n - 1) * f(n - 1)
  }

  ghost predicate KeysBelow(t: Terms, n: nat) {
    forall v :: v in t ==> 0 <= v < n
  }

  // A witness as a valuation.
  function At(w: seq<int>): int -> int {
    i => if 0 <= i < |w| then w[i] else 0
  }

  lemma {:induction false} ValueSame(t: Terms, s: Terms, f: int -> int, g: int -> int, n: nat)
    requires forall v :: 0 <= v < n ==> TermCoef(t, v) * f(v) == TermCoef(s, v) * g(v)
    ensures Value(t, f, n) == Value(s, g, n)
  {
    if n > 0 { ValueSame(t, s, f, g, n - 1); }
  }

  lemma {:induction false} ValueShift(t: Terms, s: Terms, f: int -> int, v: int, c: int, n: nat)
    requires 0 <= v < n && TermCoef(s, v) == TermCoef(t, v) + c
    requires forall u :: 0 <= u < n && u != v ==> TermCoef(s, u) == TermCoef(t, u)
    ensures Value(s, f, n) == Value(t, f, n) + c * f(v)
  {
    if v == n - 1 {
      ValueSame(t, s, f, f, n - 1);
      MulDist(TermCoef(t, v), c, f(v));
    } else {
      ValueShift(t, s, f, v, c, n - 1);
    }
  }

  lemma {:induction false} ValueLinear(t: Terms, s: Terms, r: Terms, f: int -> int, k: int, n: nat)
    requires forall v :: 0 <= v < n ==> TermCoef(r, v) == TermCoef(t, v) + k * TermCoef(s, v)
    ensures Value(r, f, n) == Value(t, f, n) + k * Value(s, f, n)
  {
    if n > 0 {
      ValueLinear(t, s, r, f, k, n - 1);
      var x, y, z := TermCoef(t, n - 1), TermCoef(s, n - 1), f(n - 1);
      MulDist(x, k * y, z);
      MulSwap(k, y, z);
      MulDist3(k, Value(s, f, n - 1), y * z);
    }
  }

  lemma {:induction false} ValueEmpty(f: int -> int, n: nat)
    ensures Value(map[], f, n) == 0
  {
    if n > 0 { ValueEmpty(f, n - 1); }
  }

  // Variables that do not occur do not count.
  lemma {:induction false} ValueBound(t: Terms, f: int -> int, k: nat, n: nat)
    requires k <= n && KeysBelow(t, k)
    ensures Value(t, f, n) == Value(t, f, k)
    decreases n
  {
    if k < n { ValueBound(t, f, k, n - 1); }
  }

  // What AddTerm leaves in the map: a term whose coefficient becomes zero goes.
  function AddTermTo(t: Terms, v: int, c: int): (s: Terms)
    ensures TermCoef(s, v) == TermCoef(t, v) + c
    ensures forall u :: u != v ==> TermCoef(s, u) == TermCoef(t, u)
    ensures forall u :: u in s ==> u in t || u == v
  {
    if v in t then
      if t[v] + c == 0 then t - {v} else t[v := t[v] + c]
    else if c != 0 then t[v := c]
    else t
  }

  class LinearCombination {
    var terms: Terms

    constructor ()
      ensures terms == map[]
    {
      terms := map[];
    }

    method AddTerm(v: int, c: int)
      modifies this
      ensures terms == AddTermTo(old(terms), v, c)
    {
      if v in terms {
        terms := terms[v := terms[v] + c];
        if terms[v] == 0 {
          terms := terms - {v};
        }
      } else {
        if c != 0 {
          terms := terms[v := c];
        }
      }
    }

    method Evaluate(wit: seq<int>, m: int) returns (res: Result<int>)
      requires m > 0
      ensures res.Ok? <==> KeysBelow(terms, |wit|)
      ensures res.Ok? ==> IsPartial(res.value, terms, wit, m)
    {
      res := EvaluateTerms(terms, wit, m);
    }
  }

  // result is the value mod m of the terms visited so far.
  ghost predicate IsPartial(result: int, done: Terms, wit: seq<int>, m: int)
    requires m > 0
  {
    && KeysBelow(done, |wit|)
    && 0 <= result < m && Cong(result, Value(done, At(wit), |wit|), m)
  }

  lemma EvaluateStart(wit: seq<int>, m: int)
    requires m > 0
    ensures IsPartial(0, map[], wit, m)
  {
    ValueEmpty(At(wit), |wit|);
  }

  lemma EvaluateStep(done: Terms, v: int, c: int, wit: seq<int>, result: int, m: int)
    requires m > 0 && 0 <= v < |wit| && v !in done
    requires IsPartial(result, done, wit, m)
    ensures IsPartial(AddMod(result, MulMod(c, wit[v], m), m), done[v := c], wit, m)
  {
    var f := At(wit);
    ValueShift(done, done[v := c], f, v, c, |wit|);
    AddCong(result, Value(done, f, |wit|), MulMod(c, wit[v], m), c * f(v), m);
  }

  // The loop of Evaluate.
  method EvaluateTerms(terms: Terms, wit: seq<int>, m: int) returns (res: Result<int>)
    requires m > 0
    ensures res.Ok? <==> KeysBelow(terms, |wit|)
    ensures res.Ok? ==> IsPartial(res.value, terms, wit, m)
  {
    var result := 0;
    var keys := Keys(terms.Keys);
    EvaluateStart(wit, m);
    for i := 0 to |keys|
      invariant IsPartial(result, Visited(terms, i), wit, m)
    {
      var v := keys[i];
      VisitedStep(terms, i);
      if !(0 <= v < |wit|) {
        return Err;
      }
      var term := MulMod(terms[v], wit[v], m);
      EvaluateStep(Visited(terms, i), v, terms[v], wit, result, m);
      result := AddMod(result, term, m);
    }
    VisitedAll(terms);
    return Ok(result);
  }

  datatype Constraint = Constraint(a: Terms, b: Terms, c: Terms)

  datatype System = System(constraints: seq<Constraint>, numVariables: int, numPublic: int)

  ghost predicate WellFormed(r: System) {
    && r.numVariables > 0
    && forall j :: 0 <= j < |r.constraints| ==> InRange(r.constraints[j], r.numVariables)
  }

  ghost predicate InRange(c: Constraint, n: nat) {
    KeysBelow(c.a, n) && KeysBelow(c.b, n) && KeysBelow(c.c, n)
  }

  // Constraint c holds of the valuation f.
  ghost predicate Holds(c: Constraint, f: int -> int, n: nat, m: int)
    requires m > 0
  {
    Cong(Value(c.a, f, n) * Value(c.b, f, n), Value(c.c, f, n), m)
  }

  ghost predicate Satisfied(r: System, f: int -> int, m: int)
    requires m > 0 && r.numVariables >= 0
  {
    forall j :: 0 <= j < |r.constraints| ==> Holds(r.constraints[j], f, r.numVariables, m)
  }

  // Constraint i is the first that decides: the earlier ones are in range and hold.
  ghost predicate Reached(r: System, f: int -> int, n: nat, i: nat, m: int)
    requires m > 0 && i < |r.constraints|
  {
    forall j :: 0 <= j < i ==> InRange(r.constraints[j], n) && Holds(r.constraints[j], f, n, m)
  }

  // It fails on a wrong length or constant wire, and on a constraint that is
  // reached and mentions a variable out of range.
  method IsSatisfied(r: System, wit: seq<int>, m: int) returns (res: Result<bool>)
    requires m > 0
    ensures res.Err? <==>
      || |wit| != r.numVariables || wit == [] || wit[0] != 1
      || exists i :: 0 <= i < |r.constraints| && !InRange(r.constraints[i], |wit|) && Reached(r, At(wit), |wit|, i, m)
    ensures res.Ok? ==> (res.value <==> Satisfied(r, At(wit), m))
  {
    hide Value, Cong;
    if |wit| != r.numVariables || wit == [] || wit[0] != 1 {
      return Err;
    }
    var n := |wit|;
    ghost var f := At(wit);
    for i := 0 to |r.constraints|
      invariant forall j :: 0 <= j < i ==> InRange(r.constraints[j], n) && Holds(r.constraints[j], f, n, m)
    {
      var c := r.constraints[i];
      var a := EvaluateTerms(c.a, wit, m);
      if a.Err? {
        assert Reached(r, f, n, i, m) && !InRange(c, n);
        return Err;
      }
      var b := EvaluateTerms(c.b, wit, m);
      if b.Err? {
        assert Reached(r, f, n, i, m) && !InRange(c, n);
        return Err;
      }
      var cc := EvaluateTerms(c.c, wit, m);
      if cc.Err? {
        assert Reached(r, f, n, i, m) && !InRange(c, n);
        return Err;
      }
      var ab := MulMod(a.value, b.value, m);
      ProductDecides(c, a.value, b.value, cc.value, wit, m);
      if ab != cc.value {
        assert !Holds(r.constraints[i], f, n, m);
        return Ok(false);
      }
    }
    return Ok(true);
  }

  lemma ProductDecides(c: Constraint, a: int, b: int, d: int, wit: seq<int>, m: int)
    requires m > 0 && IsPartial(a, c.a, wit, m) && IsPartial(b, c.b, wit, m) && IsPartial(d, c.c, wit, m)
    ensures MulMod(a, b, m) == d <==> Holds(c, At(wit), |wit|, m)
  {
    hide Value, Cong;
    var f, n := At(wit), |wit|;
    MulThrough(MulMod(a, b, m), a, b, Value(c.a, f, n), Value(c.b, f, n), m);
    var x := Value(c.a, f, n) * Value(c.b, f, n);
    if MulMod(a, b, m) == d {
      CongSym(d, x, m);
      CongTrans(x, d, Value(c.c, f, n), m);
    }
    if Holds(c, f, n, m) {
      CongTrans(MulMod(a, b, m), x, Value(c.c, f, n), m);
      CongSym(d, Value(c.c, f, n), m);
      CongTrans(MulMod(a, b, m), Value(c.c, f, n), d, m);
      CongSmall(MulMod(a, b, m), d, m);
    }
  }
}
