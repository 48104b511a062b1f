// ComputeWitness: values are propagated through the circuit until nothing more
// is known, then laid out in the order of the R1CS.
module CircuitWitness {
  import opened ModArith
  import opened OrderedMap
  import opened Outcome
  import opened R1cs
  import opened CircuitBuilder
  import opened CircuitBuild

  // The known values as a valuation.
  function Env(values: map<int, int>): int -> int {
    v => if v in values then values[v] else 0
  }

  ghost predicate Known(lc: Terms, values: map<int, int>) {
    forall v :: v in lc ==> v in values
  }

  // try_eval_lc: the value modulo p, if every variable has one.
  method TryEvalLc(lc: Terms, values: map<int, int>, p: int, ghost n: nat) returns (r: Result<int>)
    requires p > 0
    ensures r.Ok? <==> Known(lc, values)
    ensures r.Ok? ==> 0 <= r.value < p && (KeysBelow(lc, n) ==> Cong(r.value, Value(lc, Env(values), n), p))
  {
    hide Value, Cong, Keys;
    var val, keys := 0, Keys(lc.Keys);
    ValueEmpty(Env(values), n);
    CongRefl(0, p);
    for i := 0 to |keys|
      invariant Known(Visited(lc, i), values) && 0 <= val < p
      invariant KeysBelow(Visited(lc, i), n) ==> Cong(val, Value(Visited(lc, i), Env(values), n), p)
    {
      VisitedStep(lc, i);
      var v := keys[i];
      if v !in values { return Err; }
      if KeysBelow(Visited(lc, i + 1), n) {
        EvalStep(Visited(lc, i), v, lc[v], values, val, p, n);
      }
      val := AddMod(val, MulMod(lc[v], values[v], p), p);
    }
    VisitedAll(lc);
    r := Ok(val);
  }

  lemma EvalStep(done: Terms, v: int, c: int, values: map<int, int>, val: int, p: int, n: nat)
    requires p > 0 && v !in done && v in values && KeysBelow(done[v := c], n)
    requires KeysBelow(done, n) ==> Cong(val, Value(done, Env(values), n), p)
    ensures KeysBelow(done, n)
    ensures Cong(AddMod(val, MulMod(c, values[v], p), p), Value(done[v := c], Env(values), n), p)
  {
    hide Value, Cong;
    assert KeysBelow(done, n) by {
      forall u | u in done ensures 0 <= u < n { assert u in done[v := c]; }
    }
    assert v in done[v := c];
    var f := Env(values);
    ValueShift(done, done[v := c], f, v, c, n);
    AddThrough(AddMod(val, MulMod(c, values[v], p), p), val, MulMod(c, values[v], p), Value(done, f, n), c * f(v), p);
  }

  // ---- What is kept during propagation ------------------------------------

  // All variables that exist before constraint t have values.
  ghost predicate Settled(c: Circuit, values: map<int, int>, t: nat) {
    forall v :: c.Before(v, t) ==> v in values
  }

  // The result of a Mul that has a value is the product of its operands.
  ghost predicate Justified(c: Circuit, values: map<int, int>, p: int)
    requires c.Valid() && p > 0
  {
    forall v :: v in c.results && v in values ==> ProductHolds(c, values, v, p)
  }

  ghost predicate ProductHolds(c: Circuit, values: map<int, int>, v: int, p: int)
    requires c.Valid() && p > 0 && v in c.results
  {
    assert c.ResultAt(v);
    var k := c.constraints[c.results[v]];
    Known(k.a, values) && Known(k.b, values) && Holds(k, Env(values), c.nextVar, p)
  }

  ghost predicate Extends(values: map<int, int>, was: map<int, int>) {
    forall v :: v in was ==> v in values && values[v] == was[v]
  }

  // New values do not change combinations whose variables were known.
  lemma SameValue(lc: Terms, was: map<int, int>, values: map<int, int>, n: nat)
    requires Known(lc, was) && Extends(values, was)
    ensures Known(lc, values) && Value(lc, Env(values), n) == Value(lc, Env(was), n)
  {
    forall v | 0 <= v < n ensures TermCoef(lc, v) * Env(values)(v) == TermCoef(lc, v) * Env(was)(v) {
      if v !in lc { assert TermCoef(lc, v) == 0; }
    }
    ValueSame(lc, lc, Env(values), Env(was), n);
  }

  // A value for a variable that is no result.
  lemma OtherValue(c: Circuit, was: map<int, int>, v: int, x: int, p: int)
    requires c.Valid() && p > 0 && v !in was && v !in c.results && Justified(c, was, p)
    ensures Justified(c, was[v := x], p)
  {
    StillJustified(c, was, was[v := x], v, p);
  }

  lemma StillJustified(c: Circuit, was: map<int, int>, values: map<int, int>, v: int, p: int)
    requires c.Valid() && p > 0 && Justified(c, was, p) && v !in was && Extends(values, was)
    requires forall u :: u in values ==> u in was || u == v
    requires v in c.results ==> ProductHolds(c, values, v, p)
    ensures Justified(c, values, p)
  {
    hide Value, Cong;
    forall u | u in c.results && u in values ensures ProductHolds(c, values, u, p) {
      if u != v {
        assert ProductHolds(c, was, u, p) && c.ResultAt(u);
        var k := c.constraints[c.results[u]];
        SameValue(k.a, was, values, c.nextVar);
        SameValue(k.b, was, values, c.nextVar);
        SameValue(k.c, was, values, c.nextVar);
      }
    }
  }

  // The value propagation gives to the result of constraint t.
  lemma ProductValue(c: Circuit, was: map<int, int>, v: int, a: int, b: int, p: int)
    requires c.Valid() && c.Grounded() && p > 0 && v in c.results && v !in was && Justified(c, was, p)
    requires
      assert c.ResultAt(v);
      var k := c.constraints[c.results[v]];
      && Known(k.a, was) && Known(k.b, was)
      && Cong(a, Value(k.a, Env(was), c.nextVar), p) && Cong(b, Value(k.b, Env(was), c.nextVar), p)
    ensures Justified(c, was[v := MulMod(a, b, p)], p)
  {
    hide Value, Cong;
    assert c.ResultAt(v);
    var k, x := c.constraints[c.results[v]], MulMod(a, b, p);
    var values := was[v := x];
    SameValue(k.a, was, values, c.nextVar);
    SameValue(k.b, was, values, c.nextVar);
    SingleOf(c, v);
    assert Value(k.c, Env(values), c.nextVar) == Env(values)(v) == x;
    MulThrough(x, a, b, Value(k.a, Env(values), c.nextVar), Value(k.b, Env(values), c.nextVar), p);
    CongSym(x, Value(k.a, Env(values), c.nextVar) * Value(k.b, Env(values), c.nextVar), p);
    StillJustified(c, was, values, v, p);
  }

  lemma SingleOf(c: Circuit, v: int)
    requires c.Valid() && v in c.results
    ensures c.results[v] < |c.constraints| && c.constraints[c.results[v]].c == map[v := 1]
    ensures forall f: int -> int :: Value(map[v := 1], f, c.nextVar) == f(v)
  {
    hide Value;
    assert c.ResultAt(v);
    InPrivate(c, v);
    SingleValue(v, 1);
    assert AddTermTo(map[], v, 1) == map[v := 1];
  }

  // The variables propagation can give values to.
  ghost function Targets(c: Circuit): set<int> {
    c.varInfo.Keys + set v | v in AllKeys(c.constraints)
  }

  ghost function Left(c: Circuit, values: map<int, int>): nat {
    |Targets(c) - values.Keys|
  }

  lemma OneLess(c: Circuit, values: map<int, int>, v: int, x: int)
    requires v in Targets(c) && v !in values
    ensures Left(c, values[v := x]) < Left(c, values) && Extends(values[v := x], values)
  {
    hide Targets;
    var s := Targets(c) - values.Keys;
    assert Targets(c) - values[v := x].Keys == s - {v};
    assert v in s;
  }

  // What a pass may do.
  ghost predicate Passed(c: Circuit, was: map<int, int>, values: map<int, int>, changed: bool) {
    && Extends(values, was)
    && (if changed then Left(c, values) < Left(c, was) else values == was)
  }

  // One pass over the computed variables.
  method ComputedPass(b: Builder, was: map<int, int>, p: int) returns (values: map<int, int>, changed: bool)
    requires b.Now().Valid() && p > 0
    ensures Passed(b.Now(), was, values, changed)
    ensures Justified(b.Now(), was, p) ==> Justified(b.Now(), values, p)
  {
    hide Justified, Left, Distinct, Passed, Targets, Circuit.Valid;
    ghost var c := b.Now();
    NothingPassed(c, was);
    var keys := Keys(b.varInfo.Keys);
    values, changed := was, false;
    for i := 0 to |keys|
      invariant Passed(c, was, values, changed)
      invariant Justified(c, was, p) ==> Justified(c, values, p)
    {
      var v := keys[i];
      assert v in keys;
      if b.varInfo[v].isComputed && v !in values {
        var val := TryEvalLc(b.varInfo[v].lc, values, p, c.nextVar);
        if val.Ok? {
          OneMoreComputed(c, was, values, changed, v, val.value, p);
          values, changed := values[v := val.value], true;
        }
      }
    }
  }

  lemma NothingPassed(c: Circuit, was: map<int, int>)
    ensures Passed(c, was, was, false)
  {
  }

  lemma OneMoreComputed(c: Circuit, was: map<int, int>, values: map<int, int>, changed: bool, v: int, x: int, p: int)
    requires c.Valid() && p > 0 && Passed(c, was, values, changed)
    requires v in c.varInfo && c.varInfo[v].isComputed && v !in values
    ensures Passed(c, was, values[v := x], true)
    ensures Justified(c, values, p) ==> Justified(c, values[v := x], p)
  {
    hide Justified, Left, Circuit.Valid;
    NotResult(c, v);
    OneLess(c, values, v, x);
    if Justified(c, values, p) { OtherValue(c, values, v, x, p); }
  }

  lemma NotResult(c: Circuit, v: int)
    requires c.Valid() && v in c.varInfo && c.varInfo[v].isComputed
    ensures v !in c.results
  {
    forall u | u in c.results ensures u != v {
      assert c.ResultAt(u) && c.IsWire(u);
    }
  }

  // One pass over the constraints.
  method ConstraintPass(b: Builder, was: map<int, int>, p: int) returns (values: map<int, int>, changed: bool)
    requires b.Now().Valid() && p > 0
    ensures Passed(b.Now(), was, values, changed)
    ensures b.Now().Grounded() && Settled(b.Now(), was, 0) && Justified(b.Now(), was, p) ==>
      Settled(b.Now(), values, |b.constraints|) && Justified(b.Now(), values, p)
  {
    hide Justified, Left, Settled, Distinct, Value;
    ghost var c := b.Now();
    ghost var good := c.Grounded() && Settled(c, was, 0) && Justified(c, was, p);
    values, changed := was, false;
    for t := 0 to |b.constraints|
      invariant Passed(c, was, values, changed)
      invariant good ==> Settled(c, values, t) && Justified(c, values, p)
    {
      ghost var before := values;
      var isSet;
      ghost var a, d;
      values, isSet, a, d := StepConstraint(b, values, t, p);
      changed := changed || isSet;
      if good { StepSettles(c, before, values, t, a, d, p); }
    }
  }

  // The result of a constraint is set when its operands have values, and it is a
  // single variable with coefficient 1 that has none.
  method StepConstraint(b: Builder, was: map<int, int>, t: nat, p: int)
    returns (values: map<int, int>, changed: bool, ghost a: Result<int>, ghost d: Result<int>)
    requires b.Now().Valid() && p > 0 && t < |b.constraints|
    ensures Passed(b.Now(), was, values, changed) && Stepped(b.Now(), was, values, t, a, d, p)
    ensures Evaluated(b.Now(), b.constraints[t].a, was, a, p) && Evaluated(b.Now(), b.constraints[t].b, was, d, p)
  {
    hide Left, Value, Cong, Distinct, Keys, Circuit.Valid, Targets;
    values, changed := was, false;
    ghost var c := b.Now();
    var k := b.constraints[t];
    var va := TryEvalLc(k.a, values, p, c.nextVar);
    var vd := TryEvalLc(k.b, values, p, c.nextVar);
    a, d := va, vd;
    var keys := Keys(k.c.Keys);
    SingleKeys(k.c);
    if va.Ok? && vd.Ok? {
      var expected := MulMod(va.value, vd.value, p);
      if |keys| == 1 {
        SingleKey(k.c);
        if k.c[keys[0]] == 1 && keys[0] !in values {
          InTargets(c, t, keys[0]);
          OneLess(c, values, keys[0], expected);
          values, changed := values[keys[0] := expected], true;
        }
      }
    }
  }

  ghost predicate Evaluated(c: Circuit, lc: Terms, values: map<int, int>, r: Result<int>, p: int)
    requires p > 0
  {
    && (r.Ok? <==> Known(lc, values))
    && (r.Ok? && KeysBelow(lc, c.nextVar) ==> Cong(r.value, Value(lc, Env(values), c.nextVar), p))
  }

  lemma SingleKeys(lc: Terms)
    ensures forall v :: lc == map[v := 1] ==> |Keys(lc.Keys)| == 1 && Keys(lc.Keys)[0] == v
  {
    var keys := Keys(lc.Keys);
    assert |keys| > 1 ==> keys[0] < keys[1];
    forall v | lc == map[v := 1] ensures |keys| == 1 && keys[0] == v {
      assert v in lc;
      assert v in keys;
      forall i | 0 <= i < |keys| ensures keys[i] == v {
        assert keys[i] in keys;
        assert keys[i] in lc;
      }
    }
  }

  lemma SingleKey(lc: Terms)
    requires |Keys(lc.Keys)| == 1
    ensures Keys(lc.Keys)[0] in lc && lc == map[Keys(lc.Keys)[0] := lc[Keys(lc.Keys)[0]]]
  {
    var keys := Keys(lc.Keys);
    assert keys[0] in keys;
    forall v | v in lc ensures v == keys[0] { assert v in keys; }
  }

  lemma InTargets(c: Circuit, t: nat, v: int)
    requires t < |c.constraints| && v in c.constraints[t].c
    ensures v in Targets(c)
  {
    InConstraintKeys(c.constraints[t], v);
    InAllKeys(c.constraints, t, v);
  }

  // What the constraint step does with the value of its third combination.
  ghost predicate Stepped(c: Circuit, was: map<int, int>, values: map<int, int>, t: nat, a: Result<int>, b: Result<int>, p: int)
    requires t < |c.constraints| && p > 0
  {
    var k := c.constraints[t];
    if a.Ok? && b.Ok? && exists v :: k.c == map[v := 1] && v !in was then
      exists v :: k.c == map[v := 1] && v !in was && values == was[v := MulMod(a.value, b.value, p)]
    else values == was
  }

  // After constraint t its result, if it is a multiplication, has its value;
  // another constraint finds nothing to set.
  lemma StepSettles(c: Circuit, was: map<int, int>, values: map<int, int>, t: nat, a: Result<int>, b: Result<int>, p: int)
    requires c.Valid() && c.Grounded() && p > 0 && t < |c.constraints| && Settled(c, was, t) && Justified(c, was, p)
    requires Stepped(c, was, values, t, a, b, p)
    requires Evaluated(c, c.constraints[t].a, was, a, p) && Evaluated(c, c.constraints[t].b, was, b, p)
    ensures Settled(c, values, t + 1) && Justified(c, values, p)
  {
    hide *;
    if c.IsMul(t) {
      MulSettles(c, was, values, t, a, b, p);
    } else {
      AssertSettles(c, was, values, t, a, b, p);
    }
  }

  // The operands of constraint t have values.
  lemma OperandsKnown(c: Circuit, was: map<int, int>, t: nat)
    requires c.Grounded() && t < |c.constraints| && Settled(c, was, t)
    ensures Known(c.constraints[t].a, was) && Known(c.constraints[t].b, was)
    ensures !c.IsMul(t) ==> Known(c.constraints[t].c, was)
  {
    var k := c.constraints[t];
    assert c.GroundedAt(t);
    forall u | u in k.a ensures u in was { assert c.Before(u, t); }
    forall u | u in k.b ensures u in was { assert c.Before(u, t); }
    if !c.IsMul(t) {
      forall u | u in k.c ensures u in was { assert c.Before(u, t); }
    }
  }

  lemma AssertSettles(c: Circuit, was: map<int, int>, values: map<int, int>, t: nat, a: Result<int>, b: Result<int>, p: int)
    requires c.Valid() && c.Grounded() && p > 0 && t < |c.constraints| && Settled(c, was, t) && Justified(c, was, p)
    requires Stepped(c, was, values, t, a, b, p) && !c.IsMul(t)
    ensures Settled(c, values, t + 1) && Justified(c, values, p)
  {
    hide Justified, Circuit.Valid, Circuit.Grounded;
    OperandsKnown(c, was, t);
    forall v | c.constraints[t].c == map[v := 1] ensures v in was { assert v in c.constraints[t].c; }
    forall u | c.Before(u, t + 1) ensures u in values {
      assert u in c.results ==> c.results[u] != t;
      assert c.Before(u, t);
    }
  }

  lemma MulSettles(c: Circuit, was: map<int, int>, values: map<int, int>, t: nat, a: Result<int>, b: Result<int>, p: int)
    requires c.Valid() && c.Grounded() && p > 0 && t < |c.constraints| && Settled(c, was, t) && Justified(c, was, p)
    requires Stepped(c, was, values, t, a, b, p) && c.IsMul(t)
    requires Evaluated(c, c.constraints[t].a, was, a, p) && Evaluated(c, c.constraints[t].b, was, b, p)
    ensures Settled(c, values, t + 1) && Justified(c, values, p)
  {
    hide Justified, Value, Cong, Circuit.Valid, Circuit.Grounded;
    OperandsKnown(c, was, t);
    KnownKeys(c, t);
    var r :| r in c.results && c.results[r] == t;
    ResultOf(c, r);
    var k := c.constraints[t];
    forall v | k.c == map[v := 1] ensures v == r { assert v in map[r := 1]; }
    if r !in was {
      var v :| k.c == map[v := 1] && v !in was && values == was[v := MulMod(a.value, b.value, p)];
      ProductValue(c, was, r, a.value, b.value, p);
    }
    forall u | c.Before(u, t + 1) ensures u in values {
      SameResult(c, r, u, t);
      assert u != r ==> u in was;
    }
  }

  lemma ResultOf(c: Circuit, r: int)
    requires c.Valid() && r in c.results
    ensures c.results[r] < |c.constraints| && c.constraints[c.results[r]].c == map[r := 1]
  {
    assert c.ResultAt(r);
  }

  lemma SameResult(c: Circuit, r: int, u: int, t: nat)
    requires c.Valid() && r in c.results && c.results[r] == t && c.Before(u, t + 1)
    ensures u == r || c.Before(u, t)
  {
    assert c.ResultAt(r);
    if u in c.results && c.results[u] == t {
      assert c.ResultAt(u);
      assert r in map[u := 1];
    }
  }

  // ---- The witness --------------------------------------------------------

  // The one wire and the assignments, which come after it.
  ghost predicate Started(values: map<int, int>, assignments: map<int, int>, p: int)
    requires p > 0
  {
    && (forall v :: v in values <==> v == 0 || v in assignments)
    && (forall v :: v in assignments ==> values[v] == Mod(assignments[v], p))
    && (0 !in assignments ==> values[0] == 1)
  }

  method StartValues(assignments: map<int, int>, p: int) returns (values: map<int, int>)
    requires p > 0
    ensures Started(values, assignments, p)
  {
    hide Started;
    values := map[0 := 1];
    NothingAssigned(p);
    var keys := Keys(assignments.Keys);
    for i := 0 to |keys|
      invariant Started(values, Visited(assignments, i), p)
    {
      VisitedStep(assignments, i);
      OneAssigned(values, Visited(assignments, i), keys[i], assignments[keys[i]], p);
      values := values[keys[i] := Mod(assignments[keys[i]], p)];
    }
    VisitedAll(assignments);
  }

  lemma NothingAssigned(p: int)
    requires p > 0
    ensures Started(map[0 := 1], map[], p)
  {
  }

  lemma OneAssigned(values: map<int, int>, done: map<int, int>, v: int, x: int, p: int)
    requires p > 0 && Started(values, done, p) && v !in done
    ensures Started(values[v := Mod(x, p)], done[v := x], p)
  {
  }

  // ComputeWitness numbers the variables with loops of its own.
  method NumberInline(cs: seq<Constraint>, m0: map<int, nat>, next0: nat) returns (m: map<int, nat>, next: nat)
    requires next0 == |m0|
    ensures m == NumberAll(m0, AllKeys(cs)) && next == |m|
  {
    m, next := m0, next0;
    for t := 0 to |cs|
      invariant m == NumberAll(m0, AllKeys(cs[..t])) && next == |m|
    {
      var k := cs[t];
      assert cs[..t + 1][..t] == cs[..t];
      NumberAppend(m0, AllKeys(cs[..t]), ConstraintKeys(k));
      NumberAppend(m, Keys(k.a.Keys) + Keys(k.b.Keys), Keys(k.c.Keys));
      NumberAppend(m, Keys(k.a.Keys), Keys(k.b.Keys));
      m, next := NumberTerms(k.a, m, next);
      m, next := NumberTerms(k.b, m, next);
      m, next := NumberTerms(k.c, m, next);
    }
    assert cs[..|cs|] == cs;
  }

  method NumberTerms(lc: Terms, m0: map<int, nat>, next0: nat) returns (m: map<int, nat>, next: nat)
    requires next0 == |m0|
    ensures m == NumberAll(m0, Keys(lc.Keys)) && next == |m|
  {
    hide NumberAll, Keys;
    m, next := m0, next0;
    var keys := Keys(lc.Keys);
    NumberNone(m, keys);
    for i := 0 to |keys|
      invariant m == NumberAll(m0, keys[..i]) && next == |m|
    {
      NumberSnoc(m0, keys, i);
      if keys[i] !in m {
        m, next := m[keys[i] := next], next + 1;
      }
    }
    assert keys[..|keys|] == keys;
  }

  // The fixpoint loop; every further round has given some variable a value.
  method Propagate(b: Builder, was: map<int, int>, p: int) returns (values: map<int, int>)
    requires b.Now().Valid() && p > 0
    ensures Extends(values, was)
    ensures b.Now().Grounded() && Settled(b.Now(), was, 0) && Justified(b.Now(), was, p) ==>
      Settled(b.Now(), values, |b.constraints|) && Justified(b.Now(), values, p)
  {
    hide Justified, Left, Distinct;
    ghost var c := b.Now();
    ghost var good := c.Grounded() && Settled(c, was, 0) && Justified(c, was, p);
    values := was;
    var changed := true;
    while changed
      invariant Extends(values, was)
      invariant good ==> Settled(c, values, 0) && Justified(c, values, p)
      invariant good && !changed ==> Settled(c, values, |c.constraints|)
      decreases Left(c, values), if changed then 1 else 0
    {
      var first, second;
      values, first := ComputedPass(b, values, p);
      values, second := ConstraintPass(b, values, p);
      changed := first || second;
    }
  }

  // The witness entry of a numbered variable that has a value is that value.
  ghost predicate LaidOut(w: seq<int>, m: map<int, nat>, values: map<int, int>) {
    |w| == |m| && forall v :: v in m && v in values ==> m[v] < |w| && w[m[v]] == values[v]
  }

  method LayOut(m: map<int, nat>, next: nat, values: map<int, int>) returns (w: seq<int>)
    requires Numbering(m) && next == |m| > 0 && 0 in m && m[0] == 0
    ensures LaidOut(w, m, values)
  {
    hide Numbering, Keys, PlacedUpTo, LaidOut;
    w := seq(next, _ => 0);
    w := w[0 := 1];
    var keys := Keys(m.Keys);
    NonePlaced(w, m, values, keys);
    for i := 0 to |keys|
      invariant |w| == next
      invariant PlacedUpTo(w, m, values, keys, i)
    {
      NumberFits(m, keys, i);
      if keys[i] in values {
        PlacedNext(w, m, values, keys, i);
        w := w[m[keys[i]] := values[keys[i]]];
      } else {
        NothingToPlace(w, m, values, keys, i);
      }
    }
    AllPlaced(w, m, values, keys);
  }

  // The values of the first i variables are in the witness.
  ghost predicate PlacedUpTo(w: seq<int>, m: map<int, nat>, values: map<int, int>, keys: seq<int>, i: nat)
    requires i <= |keys|
  {
    forall j :: 0 <= j < i && keys[j] in values ==> keys[j] in m && m[keys[j]] < |w| && w[m[keys[j]]] == values[keys[j]]
  }

  lemma NonePlaced(w: seq<int>, m: map<int, nat>, values: map<int, int>, keys: seq<int>)
    ensures PlacedUpTo(w, m, values, keys, 0)
  {
  }

  lemma NothingToPlace(w: seq<int>, m: map<int, nat>, values: map<int, int>, keys: seq<int>, i: nat)
    requires i < |keys| && PlacedUpTo(w, m, values, keys, i) && keys[i] !in values
    ensures PlacedUpTo(w, m, values, keys, i + 1)
  {
  }

  lemma NumberFits(m: map<int, nat>, keys: seq<int>, i: nat)
    requires Numbering(m) && keys == Keys(m.Keys) && i < |keys|
    ensures keys[i] in m && m[keys[i]] < |m|
  {
    assert keys[i] in keys;
  }

  lemma PlacedNext(w: seq<int>, m: map<int, nat>, values: map<int, int>, keys: seq<int>, i: nat)
    requires Numbering(m) && keys == Keys(m.Keys) && i < |keys| && |w| == |m| && keys[i] in m && m[keys[i]] < |w|
    requires PlacedUpTo(w, m, values, keys, i) && keys[i] in values
    ensures PlacedUpTo(w[m[keys[i]] := values[keys[i]]], m, values, keys, i + 1)
  {
    hide Keys;
    var w' := w[m[keys[i]] := values[keys[i]]];
    forall j | 0 <= j < i + 1 && keys[j] in values
      ensures keys[j] in m && m[keys[j]] < |w'| && w'[m[keys[j]]] == values[keys[j]]
    {
      if j < i { assert keys[j] < keys[i] && m[keys[j]] != m[keys[i]]; }
    }
  }

  lemma AllPlaced(w: seq<int>, m: map<int, nat>, values: map<int, int>, keys: seq<int>)
    requires keys == Keys(m.Keys) && |w| == |m| && PlacedUpTo(w, m, values, keys, |keys|)
    ensures LaidOut(w, m, values)
  {
    hide Keys;
    forall v | v in m && v in values ensures m[v] < |w| && w[m[v]] == values[v] {
      assert v in m.Keys && v in keys;
    }
  }

  // Exactly the allocated variables that are not results of Mul are assigned.
  ghost predicate Exactly(c: Circuit, assignments: map<int, int>) {
    forall v :: v in assignments <==> (v in c.publicVars || v in c.privateVars) && v !in c.results
  }

  // What the witness says: the one wire, the assignments and every product.
  ghost predicate Witnesses(c: Circuit, w: seq<int>, assignments: map<int, int>, p: int)
    requires c.Valid() && p > 0
  {
    var f := Pull(At(w), VarMap(c));
    && |w| == |VarMap(c)| > 0 && w[0] == 1 && f(0) == 1
    && (forall v :: v in assignments ==> f(v) == Mod(assignments[v], p))
    && (forall t :: 0 <= t < |c.constraints| && c.IsMul(t) ==> Holds(c.constraints[t], f, c.nextVar, p))
  }

  lemma Start(c: Circuit, values: map<int, int>, assignments: map<int, int>, p: int)
    requires c.Valid() && p > 0 && Started(values, assignments, p) && Exactly(c, assignments)
    ensures Settled(c, values, 0) && Justified(c, values, p) && 0 !in assignments && 0 in values && values[0] == 1
  {
    ZeroBefore(c);
    var l := c.Layout();
    forall v | c.Before(v, 0) ensures v in values { assert v in l; }
    forall v | v in assignments ensures v != 0 {
      NotZero(c, v);
    }
    forall v | v in c.results ensures v !in values {
      assert c.ResultAt(v);
    }
  }

  lemma NotZero(c: Circuit, v: int)
    requires c.Valid() && (v in c.publicVars || v in c.privateVars)
    ensures v != 0 && v in c.Layout()
  {
    var l := c.Layout();
    assert l[0] == 0;
    if v in c.publicVars {
      var i :| 0 <= i < |c.publicVars| && c.publicVars[i] == v;
      assert l[1 + i] == v;
    } else {
      var i :| 0 <= i < |c.privateVars| && c.privateVars[i] == v;
      assert l[1 + |c.publicVars| + i] == v;
    }
  }

  lemma Finish(c: Circuit, start: map<int, int>, values: map<int, int>, assignments: map<int, int>, w: seq<int>, p: int)
    requires c.Valid() && c.Grounded() && p > 0 && Exactly(c, assignments) && Started(start, assignments, p)
    requires Extends(values, start) && Settled(c, values, |c.constraints|) && Justified(c, values, p)
    requires LaidOut(w, VarMap(c), values)
    ensures Witnesses(c, w, assignments, p)
  {
    hide Value, Cong, NumberAll, AllKeys, Distinct;
    var m := VarMap(c);
    var f := Pull(At(w), m);
    Start(c, start, assignments, p);
    LayoutNumbers(c, 0);
    assert c.Layout()[0] == 0;
    assert 0 in start && start[0] == 1;
    assert 0 in values && values[0] == 1;
    forall v | v in assignments ensures f(v) == Mod(assignments[v], p) {
      NotZero(c, v);
      LayoutPulled(c, v);
      assert v in start;
    }
    forall t | 0 <= t < |c.constraints| && c.IsMul(t) ensures Holds(c.constraints[t], f, c.nextVar, p) {
      var r :| r in c.results && c.results[r] == t;
      assert c.ResultAt(r);
      InPrivate(c, r);
      assert c.Before(r, |c.constraints|);
      assert ProductHolds(c, values, r, p);
      var k := c.constraints[t];
      AllMapped(c, t);
      PulledValue(k.a, w, m, values, c.nextVar);
      PulledValue(k.b, w, m, values, c.nextVar);
      PulledValue(k.c, w, m, values, c.nextVar);
    }
  }

  lemma LayoutPulled(c: Circuit, v: int)
    requires c.Valid() && v in c.Layout()
    ensures v in VarMap(c)
  {
    var i :| 0 <= i < |c.Layout()| && c.Layout()[i] == v;
    LayoutNumbers(c, i);
  }

  // On known and numbered variables the witness is the values.
  lemma PulledValue(lc: Terms, w: seq<int>, m: map<int, nat>, values: map<int, int>, n: nat)
    requires Known(lc, values) && (forall v :: v in lc ==> v in m) && LaidOut(w, m, values)
    ensures Value(lc, Pull(At(w), m), n) == Value(lc, Env(values), n)
  {
    var f := Pull(At(w), m);
    forall v | 0 <= v < n ensures TermCoef(lc, v) * f(v) == TermCoef(lc, v) * Env(values)(v) {
      if v !in lc { assert TermCoef(lc, v) == 0; }
    }
    ValueSame(lc, lc, f, Env(values), n);
  }

  // ComputeWitness. It ends for every circuit and assignment; when exactly the
  // inputs are assigned, the witness satisfies every multiplication.
  method ComputeWitness(b: Builder, assignments: map<int, int>, p: int) returns (w: seq<int>)
    requires b.Now().Valid() && p > 0
    ensures |w| == |VarMap(b.Now())|
    ensures b.Now().Grounded() && Exactly(b.Now(), assignments) ==> Witnesses(b.Now(), w, assignments, p)
  {
    hide Distinct, NumberAll, AllKeys, Justified, Witnesses, LaidOut, Settled, Exactly, Started, Extends;
    ghost var c := b.Now();
    var m, next := NumberWires(b.publicVars, b.privateVars);
    NumberAppend(map[], c.Layout(), AllKeys(c.constraints));
    m, next := NumberInline(b.constraints, m, next);
    var start := StartValues(assignments, p);
    var values := Propagate(b, start, p);
    LayoutNumbers(c, 0);
    w := LayOut(m, next, values);
    LaidOutSize(w, m, values);
    if c.Grounded() && Exactly(c, assignments) {
      Start(c, start, assignments, p);
      Finish(c, start, values, assignments, w, p);
    }
  }

  lemma LaidOutSize(w: seq<int>, m: map<int, nat>, values: map<int, int>)
    requires LaidOut(w, m, values)
    ensures |w| == |m|
  {
  }

  // Compilation is faithful: checking the built system on the computed witness
  // never fails and answers whether the asserted relations hold of it.
  method CompileAndCheck(b: Builder, assignments: map<int, int>, p: int) returns (w: seq<int>, res: Result<bool>)
    requires b.Now().Valid() && b.Now().Grounded() && Exactly(b.Now(), assignments) && p > 0
    ensures Witnesses(b.Now(), w, assignments, p) && res.Ok?
    ensures
      var c := b.Now();
      res.value <==> forall t :: 0 <= t < |c.constraints| && !c.IsMul(t) ==>
        Holds(c.constraints[t], Pull(At(w), VarMap(c)), c.nextVar, p)
  {
    hide Distinct, NumberAll, AllKeys, Value, Cong, Compiled, Exactly, Satisfied;
    ghost var c := b.Now();
    var r := Build(b);
    w := ComputeWitness(b, assignments, p);
    CompiledFaithful(c, At(w), p);
    GroundedNumbers(c);
    res := IsSatisfied(r, w, p);
  }
}
