// The circuit builder: variables as linear combinations, constraints collected
// as the circuit is described.
module CircuitBuilder {
  import opened ModArith
  import opened OrderedMap
  import opened R1cs

  datatype VarInfo = VarInfo(lc: Terms, isPublic: bool, isPrivate: bool, isComputed: bool)

  // r is s plus k times t.
  ghost predicate Combines(r: Terms, s: Terms, t: Terms, k: int) {
    && (forall v :: TermCoef(r, v) == TermCoef(s, v) + k * TermCoef(t, v))
    && (forall v :: v in r ==> v in s || v in t)
  }

  ghost predicate NoZeros(t: Terms) {
    forall v :: v in t ==> t[v] != 0
  }

  // Adds k times the terms of lc, in the order of the map.
  method AddScaled(into: Terms, lc: Terms, k: int) returns (r: Terms)
    ensures Combines(r, into, lc, k) && (NoZeros(into) ==> NoZeros(r))
    ensures forall f: int -> int, n: nat :: Value(r, f, n) == Value(into, f, n) + k * Value(lc, f, n)
  {
    hide Value, NoZeros, Combines;
    r := into;
    NothingAdded(into, k);
    var keys := Keys(lc.Keys);
    for i := 0 to |keys|
      invariant Combines(r, into, Visited(lc, i), k) && (NoZeros(into) ==> NoZeros(r))
    {
      VisitedStep(lc, i);
      ghost var was := r;
      r := AddTermTo(r, keys[i], k * lc[keys[i]]);
      CombinesStep(was, r, into, Visited(lc, i), keys[i], lc[keys[i]], k);
    }
    VisitedAll(lc);
    CombinedValue(r, into, lc, k);
  }

  lemma NothingAdded(into: Terms, k: int)
    ensures Combines(into, into, map[], k)
  {
  }

  lemma CombinedValue(r: Terms, into: Terms, lc: Terms, k: int)
    requires Combines(r, into, lc, k)
    ensures forall f: int -> int, n: nat :: Value(r, f, n) == Value(into, f, n) + k * Value(lc, f, n)
  {
    hide Value;
    forall f: int -> int, n: nat ensures Value(r, f, n) == Value(into, f, n) + k * Value(lc, f, n) {
      ValueLinear(into, lc, r, f, k, n);
    }
  }

  lemma CombinesStep(was: Terms, r: Terms, into: Terms, done: Terms, v: int, c: int, k: int)
    requires Combines(was, into, done, k) && v !in done && r == AddTermTo(was, v, k * c)
    ensures Combines(r, into, done[v := c], k) && (NoZeros(was) ==> NoZeros(r))
  {
    forall u ensures TermCoef(r, u) == TermCoef(into, u) + k * TermCoef(done[v := c], u) {
      assert TermCoef(was, u) == TermCoef(into, u) + k * TermCoef(done, u);
      if u == v {
        assert TermCoef(done, v) == 0 && k * 0 == 0;
      } else {
        assert TermCoef(done[v := c], u) == TermCoef(done, u);
      }
    }
  }

  // What a variable on its own, or the constant c, is worth.
  lemma SingleValue(v: int, c: int)
    ensures forall f: int -> int, n: nat :: Value(AddTermTo(map[], v, c), f, n) == if 0 <= v < n then c * f(v) else 0
  {
    hide Value;
    var t := AddTermTo(map[], v, c);
    forall f: int -> int, n: nat ensures Value(t, f, n) == if 0 <= v < n then c * f(v) else 0 {
      ValueEmpty(f, n);
      if 0 <= v < n {
        ValueShift(map[], t, f, v, c, n);
      } else {
        ValueSame(map[], t, f, f, n);
      }
    }
  }

  ghost predicate Distinct(s: seq<int>) {
    forall i, j :: 0 <= i < j < |s| ==> s[i] != s[j]
  }

  // What a builder holds. For the result of each Mul, results has the index of
  // its constraint.
  datatype Circuit = Circuit(nextVar: nat, publicVars: seq<int>, privateVars: seq<int>, varInfo: map<int, VarInfo>,
                             constraints: seq<Constraint>, results: map<int, nat>) {

    ghost predicate Valid() {
      && nextVar >= 1
      && (forall v :: v in varInfo <==> 0 <= v < nextVar)
      && Distinct(Layout())
      && (forall v :: v in Layout() ==> v in varInfo)
      && (forall v :: v in publicVars || v in privateVars ==> IsWire(v))
      && (forall v :: v in results ==> ResultAt(v))
    }

    // The one wire, then the public, then the private variables.
    function Layout(): seq<int> { [0] + publicVars + privateVars }

    ghost predicate IsWire(v: int) {
      v in varInfo && varInfo[v].lc == map[v := 1] && !varInfo[v].isComputed
    }

    ghost predicate ResultAt(v: int)
      requires v in results
    {
      v in privateVars && results[v] < |constraints| && constraints[results[v]].c == map[v := 1]
    }

    // v is the one wire or an allocated variable, and not the result of
    // constraint t or a later one.
    ghost predicate Before(v: int, t: nat) {
      v in Layout() && (v in results ==> results[v] < t)
    }

    ghost predicate AllBefore(lc: Terms, t: nat) {
      forall v :: v in lc ==> Before(v, t)
    }

    // Every stored linear combination mentions only the one wire and allocated
    // variables, those of a constraint only what existed when it was made.
    ghost predicate Grounded() {
      && (forall v :: v in varInfo ==> AllBefore(varInfo[v].lc, |constraints|))
      && (forall t :: 0 <= t < |constraints| ==> GroundedAt(t))
    }

    ghost predicate GroundedAt(t: nat)
      requires t < |constraints|
    {
      && AllBefore(constraints[t].a, t) && AllBefore(constraints[t].b, t)
      && (IsMul(t) || AllBefore(constraints[t].c, t))
    }

    // Constraint t came from Mul.
    ghost predicate IsMul(t: nat) {
      exists v :: v in results && results[v] == t
    }

    // The constraint mentions only what exists.
    ghost predicate Accepts(k: Constraint) {
      AllBefore(k.a, |constraints|) && AllBefore(k.b, |constraints|) && AllBefore(k.c, |constraints|)
    }

    function GetLc(v: int): Terms {
      if v in varInfo then varInfo[v].lc else AddTermTo(map[], v, 1)
    }

    ghost function Public(): Circuit {
      this.(nextVar := nextVar + 1, publicVars := publicVars + [nextVar],
            varInfo := varInfo[nextVar := VarInfo(map[nextVar := 1], true, false, false)])
    }

    ghost function Private(): Circuit {
      this.(nextVar := nextVar + 1, privateVars := privateVars + [nextVar],
            varInfo := varInfo[nextVar := VarInfo(map[nextVar := 1], false, true, false)])
    }

    ghost function Computed(lc: Terms): Circuit {
      this.(nextVar := nextVar + 1, varInfo := varInfo[nextVar := VarInfo(lc, false, false, true)])
    }

    ghost function With(c: Constraint): Circuit {
      this.(constraints := constraints + [c])
    }

    ghost function Product(a: int, b: int): Circuit {
      var s := Private();
      s.With(Constraint(s.GetLc(a), s.GetLc(b), map[nextVar := 1])).(results := results[nextVar := |constraints|])
    }
  }

  // Every operation keeps the invariant, and keeps the circuit grounded as long
  // as its operands are known.
  lemma WireKeeps(c: Circuit, isPublic: bool)
    requires c.Valid()
    ensures
      var s := if isPublic then c.Public() else c.Private();
      s.Valid() && (c.Grounded() ==> s.Grounded())
  {
    hide Distinct;
    var s := if isPublic then c.Public() else c.Private();
    var v := c.nextVar;
    forall u ensures u in s.Layout() <==> u in c.Layout() || u == v { InLayout(c, s, u); }
    assert v !in c.Layout() && v !in c.results;
    Appended(c, s, v, isPublic);
    if c.Grounded() { WireGrounded(c, s); }
  }

  lemma WireGrounded(c: Circuit, s: Circuit)
    requires c.Valid() && c.Grounded() && (s == c.Public() || s == c.Private())
    ensures s.Grounded()
  {
    hide Distinct;
    forall u ensures u in s.Layout() <==> u in c.Layout() || u == c.nextVar { InLayout(c, s, u); }
    Carried(c, s);
  }

  lemma InLayout(c: Circuit, s: Circuit, u: int)
    requires s == c.Public() || s == c.Private()
    ensures u in s.Layout() <==> u in c.Layout() || u == c.nextVar
  {
    assert u in s.Layout() <==> u == 0 || u in s.publicVars || u in s.privateVars;
    assert u in c.Layout() <==> u == 0 || u in c.publicVars || u in c.privateVars;
  }

  lemma Appended(c: Circuit, s: Circuit, v: int, isPublic: bool)
    requires v == c.nextVar && s == (if isPublic then c.Public() else c.Private())
    requires Distinct(c.Layout()) && v !in c.Layout()
    ensures Distinct(s.Layout())
  {
    var k := 1 + |c.publicVars|;
    var l, m := c.Layout(), s.Layout();
    if isPublic {
      assert m == l[..k] + [v] + l[k..];
    } else {
      assert m == l + [v];
    }
    forall i, j | 0 <= i < j < |m| ensures m[i] != m[j] {
      var p := if isPublic then k else |l|;
      if i == p { assert m[j] == l[j - 1]; }
      else if j == p { assert m[i] == l[i]; }
      else { assert m[i] == l[if i < p then i else i - 1] && m[j] == l[if j < p then j else j - 1]; }
    }
  }

  // What is grounded in c is grounded in a circuit with more variables.
  lemma Carried(c: Circuit, s: Circuit)
    requires c.Grounded() && s.constraints == c.constraints && s.results == c.results
    requires forall u :: u in c.Layout() ==> u in s.Layout()
    requires forall u :: u in s.varInfo ==>
      (u in c.varInfo && s.varInfo[u] == c.varInfo[u]) || s.AllBefore(s.varInfo[u].lc, |s.constraints|)
    ensures s.Grounded()
  {
    forall u | u in s.varInfo ensures s.AllBefore(s.varInfo[u].lc, |s.constraints|) {
      if u in c.varInfo && s.varInfo[u] == c.varInfo[u] { assert c.AllBefore(c.varInfo[u].lc, |c.constraints|); }
    }
    forall t | 0 <= t < |s.constraints| ensures s.GroundedAt(t) {
      assert c.GroundedAt(t);
      assert c.IsMul(t) == s.IsMul(t);
    }
  }

  lemma ComputedKeeps(c: Circuit, lc: Terms)
    requires c.Valid()
    ensures c.Computed(lc).Valid()
    ensures c.Grounded() && c.AllBefore(lc, |c.constraints|) ==> c.Computed(lc).Grounded()
  {
    var s := c.Computed(lc);
    assert s.Layout() == c.Layout();
    assert c.AllBefore(lc, |c.constraints|) ==> s.AllBefore(lc, |s.constraints|);
    if c.Grounded() && c.AllBefore(lc, |c.constraints|) { Carried(c, s); }
  }

  lemma WithKeeps(c: Circuit, k: Constraint)
    requires c.Valid()
    ensures c.With(k).Valid()
    ensures c.Grounded() && c.Accepts(k) ==> c.With(k).Grounded()
  {
    var s := c.With(k);
    assert s.Layout() == c.Layout();
    forall v | v in s.results ensures s.ResultAt(v) { assert c.ResultAt(v); }
    if c.Grounded() && c.Accepts(k) {
      forall u | u in s.varInfo ensures s.AllBefore(s.varInfo[u].lc, |s.constraints|) {
        assert c.AllBefore(c.varInfo[u].lc, |c.constraints|);
      }
      forall t | 0 <= t < |s.constraints| ensures s.GroundedAt(t) {
        if t < |c.constraints| {
          assert c.GroundedAt(t);
          assert c.IsMul(t) == s.IsMul(t);
        }
      }
    }
  }

  lemma ProductKeeps(c: Circuit, a: int, b: int)
    requires c.Valid()
    ensures c.Product(a, b).Valid()
    ensures c.Grounded() && a in c.varInfo && b in c.varInfo ==> c.Product(a, b).Grounded()
  {
    hide Distinct;
    var p, s := c.Private(), c.Product(a, b);
    var v, n := c.nextVar, |c.constraints|;
    WireKeeps(c, false);
    assert s.Layout() == p.Layout();
    InLayout(c, p, v);
    assert v in s.privateVars && v !in c.varInfo && v !in c.results;
    forall u | u in s.results ensures s.ResultAt(u) {
      if u != v { assert c.ResultAt(u); }
    }
    if c.Grounded() && a in c.varInfo && b in c.varInfo {
      forall u | u in s.varInfo ensures s.AllBefore(s.varInfo[u].lc, n + 1) {
        if u != v { OldBefore(c, s, v, c.varInfo[u].lc, n, n + 1); }
      }
      forall t | 0 <= t < n + 1 ensures s.GroundedAt(t) {
        if t < n {
          assert c.GroundedAt(t);
          OldBefore(c, s, v, c.constraints[t].a, t, t);
          OldBefore(c, s, v, c.constraints[t].b, t, t);
          if c.IsMul(t) {
            var u :| u in c.results && c.results[u] == t;
            assert s.results[u] == t;
          } else {
            OldBefore(c, s, v, c.constraints[t].c, t, t);
          }
        } else {
          assert s.results[v] == t;
          OldBefore(c, s, v, c.varInfo[a].lc, n, n);
          OldBefore(c, s, v, c.varInfo[b].lc, n, n);
        }
      }
    }
  }

  lemma OldBefore(c: Circuit, s: Circuit, v: int, lc: Terms, t: nat, t': nat)
    requires c.AllBefore(lc, t) && t <= t' && v !in c.Layout() && s.results == c.results[v := |c.constraints|]
    requires forall u :: u in c.Layout() ==> u in s.Layout()
    ensures s.AllBefore(lc, t')
  {
    forall u | u in lc ensures s.Before(u, t') { assert c.Before(u, t); }
  }

  // A combination of known variables mentions only what exists.
  lemma CombinedBefore(c: Circuit, a: int, b: int, lc: Terms)
    requires forall v :: v in lc ==> v == 0 || v in c.GetLc(a) || v in c.GetLc(b)
    ensures c.Valid() && c.Grounded() && a in c.varInfo && b in c.varInfo ==> c.AllBefore(lc, |c.constraints|)
  {
    if c.Valid() && c.Grounded() && a in c.varInfo && b in c.varInfo {
      assert c.AllBefore(c.varInfo[a].lc, |c.constraints|) && c.AllBefore(c.varInfo[b].lc, |c.constraints|);
      ZeroBefore(c);
    }
  }

  // Storing a combination keeps a circuit grounded exactly when the combination
  // mentions only what exists.
  lemma GroundedExactly(c: Circuit, lc: Terms)
    requires c.Valid()
    ensures c.Computed(lc).Grounded() <==> c.Grounded() && c.AllBefore(lc, |c.constraints|)
  {
    ComputedKeeps(c, lc);
    var s := c.Computed(lc);
    assert s.Layout() == c.Layout();
    if s.Grounded() {
      assert s.AllBefore(s.varInfo[c.nextVar].lc, |c.constraints|);
      forall v | v in lc ensures c.Before(v, |c.constraints|) { assert s.Before(v, |c.constraints|); }
      forall u | u in c.varInfo ensures c.AllBefore(c.varInfo[u].lc, |c.constraints|) {
        assert s.varInfo[u] == c.varInfo[u];
        forall v | v in c.varInfo[u].lc ensures c.Before(v, |c.constraints|) { assert s.Before(v, |c.constraints|); }
      }
      forall t | 0 <= t < |c.constraints| ensures c.GroundedAt(t) {
        assert s.GroundedAt(t);
        assert c.IsMul(t) == s.IsMul(t);
        forall v | s.Before(v, t) ensures c.Before(v, t) {}
      }
    }
  }

  // The same for a constraint.
  lemma ConstraintExactly(c: Circuit, k: Constraint)
    requires c.Valid()
    ensures c.With(k).Grounded() <==> c.Grounded() && c.Accepts(k)
  {
    WithKeeps(c, k);
    var s, n := c.With(k), |c.constraints|;
    assert s.Layout() == c.Layout();
    if s.Grounded() {
      assert s.GroundedAt(n);
      NewConstraint(c, k);
      forall v, t: nat ensures s.Before(v, t) == c.Before(v, t) {
      }
      forall u | u in c.varInfo ensures c.AllBefore(c.varInfo[u].lc, n) {
        StoredBefore(c, k, u);
      }
      forall t | 0 <= t < n ensures c.GroundedAt(t) {
        assert s.GroundedAt(t);
        assert c.IsMul(t) == s.IsMul(t);
      }
    }
  }

  // The next constraint is nobody's product yet.
  lemma NewConstraint(c: Circuit, k: Constraint)
    requires c.Valid()
    ensures !c.With(k).IsMul(|c.constraints|)
  {
    forall v | v in c.results ensures c.results[v] != |c.constraints| {
      assert c.ResultAt(v);
    }
  }

  lemma StoredBefore(c: Circuit, k: Constraint, u: int)
    requires c.Valid() && c.With(k).Grounded() && u in c.varInfo
    ensures c.AllBefore(c.varInfo[u].lc, |c.constraints|)
  {
    var s := c.With(k);
    assert s.Layout() == c.Layout();
    assert s.AllBefore(s.varInfo[u].lc, |c.constraints| + 1);
    forall v | v in c.varInfo[u].lc ensures c.Before(v, |c.constraints|) {
      assert s.Before(v, |c.constraints| + 1);
      if v in c.results { assert c.ResultAt(v); }
    }
  }

  // In a grounded circuit an unknown variable occurs in no other combination.
  lemma UnknownOccurs(c: Circuit, u: int, v: int)
    requires c.Valid() && c.Grounded() && u !in c.varInfo && u != v
    ensures u !in c.GetLc(v) && !c.Before(u, |c.constraints|)
  {
    if v in c.varInfo {
      assert c.AllBefore(c.varInfo[v].lc, |c.constraints|);
      assert u in c.GetLc(v) ==> c.Before(u, |c.constraints|);
    }
  }

  // A sum or difference of two variables of a grounded circuit mentions only what
  // exists exactly when both are known, or when they cancel.
  lemma OperandsExactly(c: Circuit, a: int, b: int, k: int, lc: Terms)
    requires c.Valid() && c.Grounded() && (k == 1 || k == -1)
    requires Combines(lc, c.GetLc(a), c.GetLc(b), k) && NoZeros(lc)
    ensures c.AllBefore(lc, |c.constraints|) <==> (a in c.varInfo && b in c.varInfo) || (k == -1 && a == b)
  {
    var n := |c.constraints|;
    CombinedBefore(c, a, b, lc);
    if a == b {
      if a !in c.varInfo {
        assert TermCoef(lc, a) == 1 + k;
        assert !c.Before(a, n);
      }
      if k == -1 { Cancels(lc, c.GetLc(a)); }
    } else {
      if a !in c.varInfo {
        UnknownOccurs(c, a, b);
        assert TermCoef(c.GetLc(b), a) == 0 && k * 0 == 0;
        assert TermCoef(lc, a) == 1;
      } else if b !in c.varInfo {
        UnknownOccurs(c, b, a);
        assert TermCoef(lc, b) == k;
      }
    }
  }

  lemma Cancels(lc: Terms, t: Terms)
    requires Combines(lc, t, t, -1) && NoZeros(lc)
    ensures lc == map[]
  {
    NoTerms(lc);
  }

  lemma NoTerms(lc: Terms)
    requires NoZeros(lc) && forall v :: TermCoef(lc, v) == 0
    ensures lc == map[]
  {
    forall v: int ensures v !in lc { assert TermCoef(lc, v) == 0; }
  }

  // A multiple, with a constant on the one wire, of one variable.
  lemma OperandExactly(c: Circuit, a: int, k: int, d: int, lc: Terms)
    requires c.Valid() && c.Grounded() && NoZeros(lc)
    requires forall v :: TermCoef(lc, v) == k * TermCoef(c.GetLc(a), v) + if v == 0 then d else 0
    requires forall v :: v in lc ==> v == 0 || v in c.GetLc(a)
    ensures c.AllBefore(lc, |c.constraints|) <==> a in c.varInfo || k == 0
  {
    CombinedBefore(c, a, a, lc);
    ZeroBefore(c);
    if a !in c.varInfo {
      assert a != 0 && TermCoef(lc, a) == k * 1;
      assert !c.Before(a, |c.constraints|);
    }
    if k == 0 {
      forall v: int | v != 0 ensures v !in lc {
        assert TermCoef(lc, v) == 0 * TermCoef(c.GetLc(a), v) == 0;
      }
    }
  }

  // A variable itself.
  lemma VariableExactly(c: Circuit, a: int)
    requires c.Valid() && c.Grounded()
    ensures c.AllBefore(c.GetLc(a), |c.constraints|) <==> a in c.varInfo
  {
    CombinedBefore(c, a, a, c.GetLc(a));
    if a !in c.varInfo { assert a in c.GetLc(a) && !c.Before(a, |c.constraints|); }
  }

  // A product.
  lemma ProductExactly(c: Circuit, a: int, b: int)
    requires c.Valid() && c.Grounded()
    ensures c.Product(a, b).Grounded() <==> a in c.varInfo && b in c.varInfo
  {
    ProductKeeps(c, a, b);
    var s, n, v := c.Product(a, b), |c.constraints|, c.nextVar;
    assert s.results[v] == n && !s.Before(v, n);
    var k := s.constraints[n];
    if s.Grounded() {
      assert s.GroundedAt(n);
      forall u | u !in c.varInfo ensures !s.Before(u, n) {
        assert u !in c.Layout();
        assert s.Layout() == c.Private().Layout();
        InLayout(c, c.Private(), u);
      }
      assert a !in c.varInfo ==> a in k.a;
      assert b !in c.varInfo ==> b in k.b;
    }
  }

  // Under every valuation a wire, and a number nobody allocated, is worth its own
  // value.
  lemma WireValue(c: Circuit, v: int, f: int -> int, n: nat)
    requires c.Valid() && 0 <= v < n && (v in c.varInfo ==> v in c.publicVars || v in c.privateVars)
    ensures Value(c.GetLc(v), f, n) == f(v)
  {
    hide Value;
    assert c.GetLc(v) == AddTermTo(map[], v, 1) by {
      if v in c.varInfo { assert c.IsWire(v); }
    }
    SingleValue(v, 1);
  }

  // An unknown operand escapes: doubling variable 5 of a new builder stores a
  // combination of a variable nobody allocated.
  method UnknownOperand() returns (b: Builder, v: int)
    ensures fresh(b) && b.Now().Valid() && !b.Now().Grounded()
    ensures v == 1 && b.Now() == NewCircuit().Computed(b.GetLc(v)) && 5 !in NewCircuit().varInfo && NewCircuit().Grounded()
  {
    b := new Builder();
    v := b.Add(5, 5);
  }

  // What a builder holds at first: the one wire.
  ghost function NewCircuit(): Circuit {
    Circuit(1, [], [], map[0 := VarInfo(map[0 := 1], false, false, true)], [], map[])
  }

  lemma ZeroBefore(c: Circuit)
    requires c.Valid()
    ensures 0 !in c.results && c.Before(0, 0)
  {
    var l := c.Layout();
    assert l[0] == 0;
    forall i | 0 <= i < |c.privateVars| ensures c.privateVars[i] != 0 {
      assert l[1 + |c.publicVars| + i] == c.privateVars[i];
    }
    forall v | v in c.results ensures v != 0 { assert c.ResultAt(v); }
  }

  // The constraint holds of a valuation with one wire 1 exactly when the two
  // combinations agree.
  ghost predicate Equates(k: Constraint, a: Terms, b: Terms) {
    forall f: int -> int, n: nat, m: int :: m > 0 && n > 0 && f(0) == 1 ==>
      (Holds(k, f, n, m) <==> Cong(Value(a, f, n) - Value(b, f, n), 0, m))
  }

  // Exactly when the combination times its complement is 0.
  ghost predicate IsBit(k: Constraint, lc: Terms) {
    forall f: int -> int, n: nat, m: int :: m > 0 && n > 0 && f(0) == 1 ==>
      (Holds(k, f, n, m) <==> Cong(Value(lc, f, n) * (1 - Value(lc, f, n)), 0, m))
  }

  lemma EquatesHolds(diff: Terms, a: Terms, b: Terms)
    requires forall f: int -> int, n: nat :: Value(diff, f, n) == Value(a, f, n) + -1 * Value(b, f, n)
    ensures Equates(Constraint(diff, AddTermTo(map[], 0, 1), map[]), a, b)
  {
    hide Value, Cong;
    SingleValue(0, 1);
    EmptyValue();
    var k := Constraint(diff, AddTermTo(map[], 0, 1), map[]);
    forall f: int -> int, n: nat, m: int | m > 0 && n > 0 && f(0) == 1
      ensures Holds(k, f, n, m) <==> Cong(Value(a, f, n) - Value(b, f, n), 0, m)
    {
      assert Value(k.b, f, n) == 1 && Value(k.c, f, n) == 0;
      assert Value(diff, f, n) * 1 == Value(a, f, n) - Value(b, f, n);
    }
  }

  lemma IsBitHolds(lc: Terms, oneMinus: Terms)
    requires forall f: int -> int, n: nat ::
      Value(oneMinus, f, n) == Value(AddTermTo(map[], 0, 1), f, n) + -1 * Value(lc, f, n)
    ensures IsBit(Constraint(lc, oneMinus, map[]), lc)
  {
    hide Value, Cong;
    SingleValue(0, 1);
    EmptyValue();
    var k := Constraint(lc, oneMinus, map[]);
    forall f: int -> int, n: nat, m: int | m > 0 && n > 0 && f(0) == 1
      ensures Holds(k, f, n, m) <==> Cong(Value(lc, f, n) * (1 - Value(lc, f, n)), 0, m)
    {
      assert Value(k.b, f, n) == 1 - Value(lc, f, n) && Value(k.c, f, n) == 0;
    }
  }

  class Builder {
    var nextVar: nat
    var publicVars: seq<int>
    var privateVars: seq<int>
    var varInfo: map<int, VarInfo>
    var constraints: seq<Constraint>
    ghost var results: map<int, nat>

    ghost function Now(): Circuit
      reads this
    {
      Circuit(nextVar, publicVars, privateVars, varInfo, constraints, results)
    }

    constructor ()
      ensures Now() == NewCircuit() && Now().Valid() && Now().Grounded()
    {
      nextVar, publicVars, privateVars, constraints, results := 1, [], [], [], map[];
      varInfo := map[0 := VarInfo(AddTermTo(map[], 0, 1), false, false, true)];
    }

    function GetLc(v: int): (lc: Terms)
      reads this
      ensures lc == Now().GetLc(v)
    {
      if v in varInfo then varInfo[v].lc else AddTermTo(map[], v, 1)
    }

    method AllocPublic() returns (v: int)
      requires Now().Valid()
      modifies this
      ensures v == old(nextVar) && Now() == old(Now()).Public() && Now().Valid()
      ensures old(Now()).Grounded() ==> Now().Grounded()
    {
      WireKeeps(Now(), true);
      v := nextVar;
      nextVar := nextVar + 1;
      varInfo := varInfo[v := VarInfo(AddTermTo(map[], v, 1), true, false, false)];
      publicVars := publicVars + [v];
    }

    method AllocPrivate() returns (v: int)
      requires Now().Valid()
      modifies this
      ensures v == old(nextVar) && Now() == old(Now()).Private() && Now().Valid()
      ensures old(Now()).Grounded() ==> Now().Grounded()
    {
      WireKeeps(Now(), false);
      v := nextVar;
      nextVar := nextVar + 1;
      varInfo := varInfo[v := VarInfo(AddTermTo(map[], v, 1), false, true, false)];
      privateVars := privateVars + [v];
    }

    // Stores a computed variable.
    method Define(lc: Terms) returns (v: int)
      requires Now().Valid()
      modifies this
      ensures v == old(nextVar) && Now() == old(Now()).Computed(lc) && Now().Valid()
      ensures Now().Grounded() <==> old(Now()).Grounded() && old(Now()).AllBefore(lc, |old(constraints)|)
    {
      ComputedKeeps(Now(), lc);
      GroundedExactly(Now(), lc);
      v := nextVar;
      nextVar := nextVar + 1;
      varInfo := varInfo[v := VarInfo(lc, false, false, true)];
    }

    method Add(a: int, b: int) returns (v: int)
      requires Now().Valid()
      modifies this
      ensures v == old(nextVar) && Now() == old(Now()).Computed(GetLc(v)) && Now().Valid()
      ensures forall f: int -> int, n: nat ::
        Value(GetLc(v), f, n) == Value(old(GetLc(a)), f, n) + Value(old(GetLc(b)), f, n)
      ensures old(Now()).Grounded() ==> (Now().Grounded() <==> a in old(varInfo) && b in old(varInfo))
    {
      hide Value;
      var combined := Combine(GetLc(a), GetLc(b), 1);
      if Now().Grounded() { OperandsExactly(Now(), a, b, 1, combined); }
      v := Define(combined);
    }

    method Sub(a: int, b: int) returns (v: int)
      requires Now().Valid()
      modifies this
      ensures v == old(nextVar) && Now() == old(Now()).Computed(GetLc(v)) && Now().Valid()
      ensures forall f: int -> int, n: nat ::
        Value(GetLc(v), f, n) == Value(old(GetLc(a)), f, n) - Value(old(GetLc(b)), f, n)
      ensures old(Now()).Grounded() ==> (Now().Grounded() <==> (a in old(varInfo) && b in old(varInfo)) || a == b)
    {
      hide Value;
      var combined := Combine(GetLc(a), GetLc(b), -1);
      if Now().Grounded() { OperandsExactly(Now(), a, b, -1, combined); }
      v := Define(combined);
    }

    method MulConst(a: int, c: int) returns (v: int)
      requires Now().Valid()
      modifies this
      ensures v == old(nextVar) && Now() == old(Now()).Computed(GetLc(v)) && Now().Valid()
      ensures forall f: int -> int, n: nat :: Value(GetLc(v), f, n) == c * Value(old(GetLc(a)), f, n)
      ensures old(Now()).Grounded() ==> (Now().Grounded() <==> a in old(varInfo) || c == 0)
    {
      hide Value;
      var scaled := AddScaled(map[], GetLc(a), c);
      EmptyValue();
      if Now().Grounded() { OperandExactly(Now(), a, c, 0, scaled); }
      v := Define(scaled);
    }

    method AddConst(a: int, c: int) returns (v: int)
      requires Now().Valid()
      modifies this
      ensures v == old(nextVar) && Now() == old(Now()).Computed(GetLc(v)) && Now().Valid()
      ensures forall f: int -> int, n: nat :: n > 0 ==> Value(GetLc(v), f, n) == Value(old(GetLc(a)), f, n) + c * f(0)
      ensures old(Now()).Grounded() ==> (Now().Grounded() <==> a in old(varInfo))
    {
      hide Value;
      var combined := AddScaled(map[], GetLc(a), 1);
      EmptyValue();
      ghost var copied := combined;
      combined := AddTermTo(combined, 0, c);
      TermAdded(copied, combined, 0, c);
      if Now().Grounded() { OperandExactly(Now(), a, 1, c, combined); }
      v := Define(combined);
    }

    method Require(k: Constraint)
      requires Now().Valid()
      modifies this
      ensures Now() == old(Now()).With(k) && Now().Valid()
      ensures Now().Grounded() <==> old(Now()).Grounded() && old(Now()).Accepts(k)
    {
      WithKeeps(Now(), k);
      ConstraintExactly(Now(), k);
      constraints := constraints + [k];
    }

    // The result is a new private variable; its constraint makes it the product.
    method Mul(a: int, b: int) returns (v: int)
      requires Now().Valid()
      modifies this
      ensures v == old(nextVar) && Now() == old(Now()).Product(a, b) && Now().Valid()
      ensures old(Now()).Grounded() ==> (Now().Grounded() <==> a in old(varInfo) && b in old(varInfo))
    {
      ProductKeeps(Now(), a, b);
      if Now().Grounded() { ProductExactly(Now(), a, b); }
      v := AllocPrivate();
      results := results[v := |constraints|];
      constraints := constraints + [Constraint(GetLc(a), GetLc(b), GetLc(v))];
    }

    // (a - b) * 1 = 0.
    method AssertEqual(a: int, b: int)
      requires Now().Valid()
      modifies this
      ensures |constraints| > 0 && Now() == old(Now()).With(constraints[|constraints| - 1]) && Now().Valid()
      ensures Equates(constraints[|constraints| - 1], GetLc(a), GetLc(b))
      ensures old(Now()).Grounded() ==> (Now().Grounded() <==> (a in varInfo && b in varInfo) || a == b)
    {
      hide Value, Cong;
      var diff := Combine(GetLc(a), GetLc(b), -1);
      if Now().Grounded() { OperandsExactly(Now(), a, b, -1, diff); }
      ZeroBefore(Now());
      Require(Constraint(diff, AddTermTo(map[], 0, 1), map[]));
      EquatesHolds(diff, GetLc(a), GetLc(b));
    }

    // var * (1 - var) = 0.
    method AssertBoolean(v: int)
      requires Now().Valid()
      modifies this
      ensures |constraints| > 0 && Now() == old(Now()).With(constraints[|constraints| - 1]) && Now().Valid()
      ensures IsBit(constraints[|constraints| - 1], GetLc(v))
      ensures old(Now()).Grounded() ==> (Now().Grounded() <==> v in varInfo)
    {
      hide Value, Cong;
      var lc := GetLc(v);
      var oneMinus := AddScaled(AddTermTo(map[], 0, 1), lc, -1);
      CombinedBefore(Now(), v, v, oneMinus);
      if Now().Grounded() { VariableExactly(Now(), v); }
      Require(Constraint(lc, oneMinus, map[]));
      IsBitHolds(lc, oneMinus);
    }

    method AssertMulEquals(a: int, b: int, c: int)
      requires Now().Valid()
      modifies this
      ensures Now() == old(Now()).With(Constraint(GetLc(a), GetLc(b), GetLc(c))) && Now().Valid()
      ensures old(Now()).Grounded() ==> (Now().Grounded() <==> a in varInfo && b in varInfo && c in varInfo)
    {
      if Now().Grounded() {
        VariableExactly(Now(), a);
        VariableExactly(Now(), b);
        VariableExactly(Now(), c);
      }
      Require(Constraint(GetLc(a), GetLc(b), GetLc(c)));
    }
  }

  // a plus k times b, from an empty combination.
  method Combine(a: Terms, b: Terms, k: int) returns (r: Terms)
    ensures Combines(r, a, b, k) && NoZeros(r)
    ensures forall f: int -> int, n: nat :: Value(r, f, n) == Value(a, f, n) + k * Value(b, f, n)
  {
    hide Value;
    r := AddScaled(map[], a, 1);
    EmptyValue();
    r := AddScaled(r, b, k);
  }

  lemma EmptyValue()
    ensures forall f: int -> int, n: nat :: Value(map[], f, n) == 0
  {
    hide Value;
    forall f: int -> int, n: nat ensures Value(map[], f, n) == 0 { ValueEmpty(f, n); }
  }

  lemma TermAdded(t: Terms, s: Terms, v: int, c: int)
    requires s == AddTermTo(t, v, c) && v >= 0
    ensures forall f: int -> int, n: nat :: n > v ==> Value(s, f, n) == Value(t, f, n) + c * f(v)
  {
    hide Value;
    forall f: int -> int, n: nat | n > v ensures Value(s, f, n) == Value(t, f, n) + c * f(v) {
      ValueShift(t, s, f, v, c, n);
    }
  }
}
