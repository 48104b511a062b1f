// Build and ComputeWitness: both number the variables of a circuit the same way,
// and the witness satisfies every multiplication.
module CircuitBuild {
  import opened ModArith
  import opened OrderedMap
  import opened Outcome
  import opened R1cs
  import opened CircuitBuilder

  // ---- Numbering ----------------------------------------------------------

  // The numbers handed out along a list: an unseen variable gets the next one.
  function NumberOne(m: map<int, nat>, v: int): map<int, nat> {
    if v in m then m else m[v := |m|]
  }

  function NumberAll(m: map<int, nat>, vs: seq<int>): map<int, nat>
    decreases |vs|
  {
    if vs == [] then m else NumberOne(NumberAll(m, vs[..|vs| - 1]), vs[|vs| - 1])
  }

  function ConstraintKeys(c: Constraint): seq<int> {
    Keys(c.a.Keys) + Keys(c.b.Keys) + Keys(c.c.Keys)
  }

  function AllKeys(cs: seq<Constraint>): seq<int>
    decreases |cs|
  {
    if cs == [] then [] else AllKeys(cs[..|cs| - 1]) + ConstraintKeys(cs[|cs| - 1])
  }

  // The variable map of a circuit.
  function VarMap(c: Circuit): map<int, nat> {
    NumberAll(map[], c.Layout() + AllKeys(c.constraints))
  }

  lemma {:induction false} NumberAppend(m: map<int, nat>, us: seq<int>, vs: seq<int>)
    ensures NumberAll(m, us + vs) == NumberAll(NumberAll(m, us), vs)
    decreases |vs|
  {
    if vs == [] {
      assert us + vs == us;
    } else {
      var l := |vs| - 1;
      assert (us + vs)[..|us| + l] == us + vs[..l];
      NumberAppend(m, us, vs[..l]);
    }
  }

  // Numbers below the size, no two alike.
  ghost predicate Numbering(m: map<int, nat>) {
    && (forall v :: v in m ==> m[v] < |m|)
    && (forall u, v :: u in m && v in m && u != v ==> m[u] != m[v])
  }

  lemma {:induction false} NumberAllIs(m: map<int, nat>, vs: seq<int>)
    requires Numbering(m)
    ensures Numbering(NumberAll(m, vs))
    ensures forall v :: v in NumberAll(m, vs) <==> v in m || v in vs
    ensures forall v :: v in m ==> NumberAll(m, vs)[v] == m[v]
    ensures |NumberAll(m, vs)| <= |m| + |vs|
    decreases |vs|
  {
    if vs != [] {
      var l := |vs| - 1;
      NumberAllIs(m, vs[..l]);
      assert vs == vs[..l] + [vs[l]];
    }
  }

  // Distinct variables get consecutive numbers.
  lemma {:induction false} Consecutive(vs: seq<int>)
    requires Distinct(vs)
    ensures |NumberAll(map[], vs)| == |vs|
    ensures forall i :: 0 <= i < |vs| ==> vs[i] in NumberAll(map[], vs) && NumberAll(map[], vs)[vs[i]] == i
    decreases |vs|
  {
    if vs != [] {
      var l := |vs| - 1;
      Consecutive(vs[..l]);
      NumberAllIs(map[], vs[..l]);
      assert vs[l] !in vs[..l];
      var m := NumberAll(map[], vs[..l]);
      forall i | 0 <= i < |vs| ensures vs[i] in NumberAll(map[], vs) && NumberAll(map[], vs)[vs[i]] == i {
        if i < l { assert vs[i] == vs[..l][i]; }
      }
    }
  }

  // The layout: the one wire 0, public variables from 1, private ones after.
  lemma LayoutNumbers(c: Circuit, i: nat)
    requires c.Valid() && i < |c.Layout()|
    ensures c.Layout()[i] in VarMap(c) && VarMap(c)[c.Layout()[i]] == i
    ensures Numbering(VarMap(c)) && |VarMap(c)| >= |c.Layout()|
  {
    hide Distinct, NumberAll, AllKeys;
    var l := c.Layout();
    var m := NumberAll(map[], l);
    NumberAppend(map[], l, AllKeys(c.constraints));
    Consecutive(l);
    NumberAllIs(map[], l);
    NumberAllIs(m, AllKeys(c.constraints));
    var s, v := NumberAll(m, AllKeys(c.constraints)), l[i];
    assert VarMap(c) == s;
    assert v in m && m[v] == i;
    assert v in s && s[v] == m[v];
    Bigger(m, VarMap(c));
  }

  lemma Bigger(m: map<int, nat>, s: map<int, nat>)
    requires forall v :: v in m ==> v in s
    ensures |m| <= |s|
  {
    forall v | v in m.Keys ensures v in s.Keys { assert v in m; }
    Subset(m.Keys, s.Keys);
    assert |m.Keys| == |m| && |s.Keys| == |s|;
  }

  lemma {:induction false} Subset(a: set<int>, b: set<int>)
    requires a <= b
    ensures |a| <= |b|
    decreases |a|
  {
    if a != {} {
      var x := Pick(a);
      Subset(a - {x}, b - {x});
    }
  }

  // A grounded circuit numbers its layout and nothing else.
  lemma GroundedNumbers(c: Circuit)
    requires c.Valid() && c.Grounded()
    ensures VarMap(c) == NumberAll(map[], c.Layout()) && |VarMap(c)| == |c.Layout()|
    ensures forall v :: v in VarMap(c) <==> v in c.Layout()
  {
    hide Distinct;
    var l := c.Layout();
    var m := NumberAll(map[], l);
    NumberAppend(map[], l, AllKeys(c.constraints));
    NumberAllIs(map[], l);
    Consecutive(l);
    forall t, v | 0 <= t < |c.constraints| && v in ConstraintKeys(c.constraints[t]) ensures v in m {
      KeysGrounded(c, t, v);
    }
    NothingNew(m, c.constraints);
  }

  lemma KeysGrounded(c: Circuit, t: nat, v: int)
    requires c.Valid() && c.Grounded() && t < |c.constraints| && v in ConstraintKeys(c.constraints[t])
    ensures v in c.Layout()
  {
    assert c.GroundedAt(t);
    var k := c.constraints[t];
    assert v in k.a || v in k.b || v in k.c;
    if v in k.c && c.IsMul(t) {
      var u :| u in c.results && c.results[u] == t;
      assert c.ResultAt(u);
      assert u == v;
      InPrivate(c, v);
    } else if v in k.a {
      assert c.Before(v, t);
    } else if v in k.b {
      assert c.Before(v, t);
    } else {
      assert c.Before(v, t);
    }
  }

  lemma InPrivate(c: Circuit, v: int)
    requires v in c.privateVars
    ensures v in c.Layout()
  {
    var i :| 0 <= i < |c.privateVars| && c.privateVars[i] == v;
    assert c.Layout()[1 + |c.publicVars| + i] == v;
  }

  lemma {:induction false} NothingNew(m: map<int, nat>, cs: seq<Constraint>)
    requires forall t, v :: 0 <= t < |cs| && v in ConstraintKeys(cs[t]) ==> v in m
    ensures NumberAll(m, AllKeys(cs)) == m
    decreases |cs|
  {
    if cs != [] {
      var l := |cs| - 1;
      NothingNew(m, cs[..l]);
      NumberAppend(m, AllKeys(cs[..l]), ConstraintKeys(cs[l]));
      AlreadyNumbered(m, ConstraintKeys(cs[l]));
    }
  }

  lemma {:induction false} AlreadyNumbered(m: map<int, nat>, vs: seq<int>)
    requires forall v :: v in vs ==> v in m
    ensures NumberAll(m, vs) == m
    decreases |vs|
  {
    if vs != [] {
      AlreadyNumbered(m, vs[..|vs| - 1]);
      assert vs[|vs| - 1] in vs;
    }
  }

  lemma NumberNone(m: map<int, nat>, vs: seq<int>)
    ensures NumberAll(m, vs[..0]) == m
  {
  }

  lemma NumberSnoc(m: map<int, nat>, vs: seq<int>, i: nat)
    requires i < |vs|
    ensures NumberAll(m, vs[..i + 1]) == NumberOne(NumberAll(m, vs[..i]), vs[i])
  {
    assert vs[..i + 1][..i] == vs[..i];
  }

  // collect_vars on one combination.
  method CollectVars(lc: Terms, m: map<int, nat>, next: nat) returns (m': map<int, nat>, next': nat)
    requires next == |m|
    ensures m' == NumberAll(m, Keys(lc.Keys)) && next' == |m'|
  {
    hide NumberAll, Keys;
    var keys := Keys(lc.Keys);
    m', next' := m, next;
    NumberNone(m, keys);
    for i := 0 to |keys|
      invariant m' == NumberAll(m, keys[..i]) && next' == |m'|
    {
      NumberSnoc(m, keys, i);
      if keys[i] !in m' {
        m', next' := m'[keys[i] := next'], next' + 1;
      }
    }
    assert keys[..|keys|] == keys;
  }

  // The public and private variables get the numbers after the one wire's.
  method NumberWires(publicVars: seq<int>, privateVars: seq<int>) returns (m: map<int, nat>, next: nat)
    requires Distinct([0] + publicVars + privateVars)
    ensures m == NumberAll(map[], [0] + publicVars + privateVars) && next == |m|
  {
    hide Distinct, NumberAll;
    m, next := map[0 := 0], 1;
    ghost var l := [0] + publicVars + privateVars;
    StartNumber(l);
    for i := 0 to |publicVars|
      invariant m == NumberAll(map[], l[..1 + i]) && next == 1 + i == |m|
    {
      NextNumber(l, 1 + i);
      m, next := m[publicVars[i] := next], next + 1;
    }
    for i := 0 to |privateVars|
      invariant m == NumberAll(map[], l[..1 + |publicVars| + i]) && next == 1 + |publicVars| + i == |m|
    {
      NextNumber(l, 1 + |publicVars| + i);
      m, next := m[privateVars[i] := next], next + 1;
    }
    assert l[..|l|] == l;
  }

  lemma StartNumber(l: seq<int>)
    requires |l| >= 1 && l[0] == 0
    ensures NumberAll(map[], l[..1]) == map[0 := 0]
  {
    assert l[..1] == [0];
    assert l[..1][..0] == [];
  }

  lemma Prefixes(l: seq<int>, i: nat)
    requires Distinct(l) && i < |l|
    ensures Distinct(l[..i]) && Distinct(l[..i + 1]) && l[i] !in l[..i] && Numbering(map[])
  {
  }

  lemma NextNumber(l: seq<int>, i: nat)
    requires Distinct(l) && i < |l|
    ensures NumberAll(map[], l[..i + 1]) == NumberAll(map[], l[..i])[l[i] := i] && |NumberAll(map[], l[..i])| == i
    ensures |NumberAll(map[], l[..i + 1])| == i + 1
  {
    hide NumberAll, Distinct;
    Prefixes(l, i);
    NumberSnoc(map[], l, i);
    Consecutive(l[..i]);
    Consecutive(l[..i + 1]);
    NumberAllIs(map[], l[..i]);
  }

  // ---- Remapping ----------------------------------------------------------

  // The terms remapped in the order of the map, as far as the first i.
  ghost function Remapped(lc: Terms, m: map<int, nat>, i: nat): Terms
    requires i <= |Keys(lc.Keys)| && forall j :: 0 <= j < i ==> Keys(lc.Keys)[j] in m
  {
    if i == 0 then map[]
    else
      KeyOf(lc, i - 1);
      AddTermTo(Remapped(lc, m, i - 1), m[Keys(lc.Keys)[i - 1]], lc[Keys(lc.Keys)[i - 1]])
  }

  lemma KeyOf(lc: Terms, i: nat)
    requires i < |Keys(lc.Keys)|
    ensures Keys(lc.Keys)[i] in lc
  {
    assert Keys(lc.Keys)[i] in Keys(lc.Keys);
  }

  lemma NoneRemapped(lc: Terms, m: map<int, nat>)
    ensures Remapped(lc, m, 0) == map[]
  {
  }

  lemma RemappedStep(lc: Terms, m: map<int, nat>, i: nat)
    requires i < |Keys(lc.Keys)| && forall j :: 0 <= j < i + 1 ==> Keys(lc.Keys)[j] in m
    ensures Keys(lc.Keys)[i] in lc
    ensures Remapped(lc, m, i + 1) == AddTermTo(Remapped(lc, m, i), m[Keys(lc.Keys)[i]], lc[Keys(lc.Keys)[i]])
  {
    KeyOf(lc, i);
  }

  lemma KeysMapped(lc: Terms, m: map<int, nat>)
    ensures (forall v :: v in lc ==> v in m) <==> forall j :: 0 <= j < |Keys(lc.Keys)| ==> Keys(lc.Keys)[j] in m
  {
    hide Keys;
    var keys := Keys(lc.Keys);
    if forall v :: v in lc ==> v in m {
      forall j | 0 <= j < |keys| ensures keys[j] in m { KeyOf(lc, j); }
    }
    if forall j :: 0 <= j < |keys| ==> keys[j] in m {
      forall v | v in lc ensures v in m {
        assert v in lc.Keys && v in keys;
        var j :| 0 <= j < |keys| && keys[j] == v;
      }
    }
  }

  ghost function Remap(lc: Terms, m: map<int, nat>): Terms
    requires forall v :: v in lc ==> v in m
  {
    KeysMapped(lc, m);
    Remapped(lc, m, |Keys(lc.Keys)|)
  }

  // RemapLc fails on a variable that has no number.
  method RemapLc(lc: Terms, m: map<int, nat>) returns (r: Result<Terms>)
    ensures r.Ok? <==> forall v :: v in lc ==> v in m
    ensures r.Ok? ==> r.value == Remap(lc, m)
  {
    hide AddTermTo, Remapped, Keys;
    KeysMapped(lc, m);
    NoneRemapped(lc, m);
    var keys := Keys(lc.Keys);
    var result: Terms := map[];
    for i := 0 to |keys|
      invariant forall j :: 0 <= j < i ==> keys[j] in m
      invariant result == Remapped(lc, m, i)
    {
      if keys[i] !in m { return Err; }
      KeyOf(lc, i);
      RemappedStep(lc, m, i);
      result := AddTermTo(result, m[keys[i]], lc[keys[i]]);
    }
    r := Ok(result);
  }

  // A valuation of the numbers as a valuation of the variables.
  function Pull(f: int -> int, m: map<int, nat>): int -> int {
    v => if v in m then f(m[v]) else 0
  }

  lemma {:induction false} RemappedValue(lc: Terms, m: map<int, nat>, i: nat, f: int -> int, n: nat, k: nat)
    requires i <= |Keys(lc.Keys)| && (forall j :: 0 <= j < i ==> Keys(lc.Keys)[j] in m) && KeysBelow(lc, k)
    requires forall v :: v in m ==> m[v] < n
    ensures Value(Remapped(lc, m, i), f, n) == Value(Visited(lc, i), Pull(f, m), k)
    decreases i
  {
    hide Value, Keys, Remapped, AddTermTo, Pull;
    if i == 0 {
      NoneRemapped(lc, m);
      ValueEmpty(f, n);
      ValueEmpty(Pull(f, m), k);
    } else {
      RemappedValue(lc, m, i - 1, f, n, k);
      RemappedStep(lc, m, i - 1);
      VisitedStep(lc, i - 1);
      var v := Keys(lc.Keys)[i - 1];
      OneTerm(Remapped(lc, m, i - 1), Visited(lc, i - 1), v, m, lc[v], f, n, k);
    }
  }

  lemma OneTerm(r: Terms, d: Terms, v: int, m: map<int, nat>, c: int, f: int -> int, n: nat, k: nat)
    requires v in m && m[v] < n && 0 <= v < k && v !in d && Value(r, f, n) == Value(d, Pull(f, m), k)
    ensures Value(AddTermTo(r, m[v], c), f, n) == Value(d[v := c], Pull(f, m), k)
  {
    hide Value;
    ValueShift(r, AddTermTo(r, m[v], c), f, m[v], c, n);
    ValueShift(d, d[v := c], Pull(f, m), v, c, k);
  }

  // Remapping keeps the value.
  lemma RemapValue(lc: Terms, m: map<int, nat>, f: int -> int, n: nat, k: nat)
    requires (forall v :: v in lc ==> v in m) && KeysBelow(lc, k) && forall v :: v in m ==> m[v] < n
    ensures Value(Remap(lc, m), f, n) == Value(lc, Pull(f, m), k)
  {
    hide Value;
    KeysMapped(lc, m);
    RemappedValue(lc, m, |Keys(lc.Keys)|, f, n, k);
    VisitedAll(lc);
  }

  lemma {:induction false} RemappedBelow(lc: Terms, m: map<int, nat>, i: nat, n: nat)
    requires i <= |Keys(lc.Keys)| && (forall j :: 0 <= j < i ==> Keys(lc.Keys)[j] in m) && forall v :: v in m ==> m[v] < n
    ensures KeysBelow(Remapped(lc, m, i), n)
    decreases i
  {
    hide Keys, KeysBelow, AddTermTo;
    if i == 0 {
      NoneBelow(n);
    } else {
      RemappedBelow(lc, m, i - 1, n);
      KeyOf(lc, i - 1);
      var key := Keys(lc.Keys)[i - 1];
      TermBelow(Remapped(lc, m, i - 1), m[key], lc[key], n);
    }
  }

  lemma NoneBelow(n: nat)
    ensures KeysBelow(map[], n)
  {
  }

  lemma TermBelow(lc: Terms, v: int, x: int, n: nat)
    requires KeysBelow(lc, n) && 0 <= v < n
    ensures KeysBelow(AddTermTo(lc, v, x), n)
  {
  }

  // ---- Build --------------------------------------------------------------

  ghost predicate Mapped(c: Constraint, m: map<int, nat>) {
    && (forall v :: v in c.a ==> v in m) && (forall v :: v in c.b ==> v in m) && (forall v :: v in c.c ==> v in m)
  }

  ghost function RemapConstraint(c: Constraint, m: map<int, nat>): Constraint
    requires Mapped(c, m)
  {
    Constraint(Remap(c.a, m), Remap(c.b, m), Remap(c.c, m))
  }

  lemma {:induction false} AllMapped(c: Circuit, t: nat)
    requires t < |c.constraints|
    ensures Mapped(c.constraints[t], VarMap(c))
  {
    var k := c.constraints[t];
    NumberAllIs(map[], c.Layout() + AllKeys(c.constraints));
    forall v | v in k.a || v in k.b || v in k.c ensures v in VarMap(c) {
      InConstraintKeys(k, v);
      InAllKeys(c.constraints, t, v);
      InSum(c.Layout(), AllKeys(c.constraints), v);
    }
  }

  lemma InSum(a: seq<int>, b: seq<int>, v: int)
    requires v in b
    ensures v in a + b
  {
  }

  lemma InConstraintKeys(k: Constraint, v: int)
    requires v in k.a || v in k.b || v in k.c
    ensures v in ConstraintKeys(k)
  {
    assert v in k.a.Keys || v in k.b.Keys || v in k.c.Keys;
  }

  lemma {:induction false} InAllKeys(cs: seq<Constraint>, t: nat, v: int)
    requires t < |cs| && v in ConstraintKeys(cs[t])
    ensures v in AllKeys(cs)
    decreases |cs|
  {
    if t < |cs| - 1 { InAllKeys(cs[..|cs| - 1], t, v); }
  }

  // The circuit as an R1CS.
  ghost function Compiled(c: Circuit): System {
    System(seq(|c.constraints|, t requires 0 <= t < |c.constraints| => (AllMapped(c, t); RemapConstraint(c.constraints[t], VarMap(c)))),
           |VarMap(c)|, |c.publicVars|)
  }

  // Build's numbering of the variables that the constraints mention.
  method NumberConstraints(cs: seq<Constraint>, m0: map<int, nat>, next0: nat) returns (m: map<int, nat>, next: nat)
    requires next0 == |m0|
    ensures m == NumberAll(m0, AllKeys(cs)) && next == |m|
  {
    m, next := m0, next0;
    for t := 0 to |cs|
      invariant m == NumberAll(m0, AllKeys(cs[..t])) && next == |m|
    {
      var k := cs[t];
      assert cs[..t + 1][..t] == cs[..t];
      NumberAppend(m0, AllKeys(cs[..t]), ConstraintKeys(k));
      NumberAppend(m, Keys(k.a.Keys) + Keys(k.b.Keys), Keys(k.c.Keys));
      NumberAppend(m, Keys(k.a.Keys), Keys(k.b.Keys));
      m, next := CollectVars(k.a, m, next);
      m, next := CollectVars(k.b, m, next);
      m, next := CollectVars(k.c, m, next);
    }
    assert cs[..|cs|] == cs;
  }

  // Build never meets a variable without a number.
  method Build(b: Builder) returns (r: System)
    requires b.Now().Valid()
    ensures r == Compiled(b.Now())
  {
    hide Distinct, NumberAll, AllKeys, Remap;
    ghost var c := b.Now();
    var m, next := NumberWires(b.publicVars, b.privateVars);
    NumberAppend(map[], c.Layout(), AllKeys(c.constraints));
    m, next := NumberConstraints(b.constraints, m, next);
    var cs: seq<Constraint> := [];
    for t := 0 to |b.constraints|
      invariant |cs| == t && m == VarMap(c)
      invariant forall j :: 0 <= j < t ==> Mapped(c.constraints[j], m) && cs[j] == RemapConstraint(c.constraints[j], m)
    {
      var k := b.constraints[t];
      AllMapped(c, t);
      var ra := RemapLc(k.a, m);
      var rb := RemapLc(k.b, m);
      var rc := RemapLc(k.c, m);
      cs := cs + [Constraint(ra.value, rb.value, rc.value)];
    }
    r := System(cs, next, |b.publicVars|);
  }

  // A compiled circuit is well formed and its constraints say what the circuit's
  // say under the valuation its numbering induces.
  lemma CompiledFaithful(c: Circuit, f: int -> int, p: int)
    requires c.Valid() && c.Grounded() && p > 0
    ensures WellFormed(Compiled(c)) && Compiled(c).numVariables == |c.Layout()|
    ensures Satisfied(Compiled(c), f, p) <==>
      forall t :: 0 <= t < |c.constraints| ==> Holds(c.constraints[t], Pull(f, VarMap(c)), c.nextVar, p)
  {
    hide Value, Cong, Distinct, NumberAll, AllKeys;
    var r, m := Compiled(c), VarMap(c);
    LayoutNumbers(c, 0);
    GroundedNumbers(c);
    forall t | 0 <= t < |c.constraints|
      ensures InRange(r.constraints[t], |m|)
      ensures Holds(r.constraints[t], f, |m|, p) <==> Holds(c.constraints[t], Pull(f, m), c.nextVar, p)
    {
      var k := c.constraints[t];
      AllMapped(c, t);
      KnownKeys(c, t);
      RemapValue(k.a, m, f, |m|, c.nextVar);
      RemapValue(k.b, m, f, |m|, c.nextVar);
      RemapValue(k.c, m, f, |m|, c.nextVar);
      KeysMapped(k.a, m);
      KeysMapped(k.b, m);
      KeysMapped(k.c, m);
      RemappedBelow(k.a, m, |Keys(k.a.Keys)|, |m|);
      RemappedBelow(k.b, m, |Keys(k.b.Keys)|, |m|);
      RemappedBelow(k.c, m, |Keys(k.c.Keys)|, |m|);
    }
    forall t | 0 <= t < |r.constraints| ensures InRange(r.constraints[t], r.numVariables) {
    }
  }

  lemma KnownKeys(c: Circuit, t: nat)
    requires c.Valid() && c.Grounded() && t < |c.constraints|
    ensures InRange(c.constraints[t], c.nextVar)
  {
    var k := c.constraints[t];
    forall v | v in k.a || v in k.b || v in k.c ensures 0 <= v < c.nextVar {
      InConstraintKeys(k, v);
      KeysGrounded(c, t, v);
    }
  }
}
