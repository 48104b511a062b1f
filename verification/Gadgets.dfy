// Circuit gadgets: bit decomposition and comparison, and what every satisfying
// valuation makes of them.
module Gadgets {
  import opened ModArith
  import opened Bits
  import opened Outcome
  import opened R1cs
  import opened CircuitBuilder

  // s is c with more variables and constraints.
  ghost predicate Extends(c: Circuit, s: Circuit) {
    && c.nextVar <= s.nextVar
    && (forall v :: v in c.varInfo ==> v in s.varInfo && s.varInfo[v] == c.varInfo[v])
    && |c.constraints| <= |s.constraints| && s.constraints[..|c.constraints|] == c.constraints
    && c.publicVars <= s.publicVars && c.privateVars <= s.privateVars
  }

  // The k private wires from first on, as combinations.
  function Digits(first: int, k: nat): seq<Terms> {
    seq(k, (i: nat) => map[first + i := 1])
  }

  // They were allocated on the way from c to s.
  ghost predicate NewWires(c: Circuit, s: Circuit, first: int, k: nat) {
    forall v :: first <= v < first + k ==> v in s.privateVars && v !in c.varInfo
  }

  ghost predicate AllKnown(c: Circuit, vs: seq<int>) {
    forall i :: 0 <= i < |vs| ==> vs[i] in c.varInfo
  }

  function Lcs(c: Circuit, vs: seq<int>): seq<Terms> {
    seq(|vs|, i requires 0 <= i < |vs| => c.GetLc(vs[i]))
  }

  lemma ExtendsSelf(c: Circuit)
    ensures Extends(c, c)
  {
  }

  lemma ExtendsOn(c: Circuit, s: Circuit, t: Circuit)
    requires Extends(c, s) && Extends(s, t)
    ensures Extends(c, t)
    ensures forall v :: v in s.varInfo ==> v in t.varInfo && t.GetLc(v) == s.GetLc(v)
    ensures |c.constraints| <= |s.constraints| <= |t.constraints|
    ensures forall i :: 0 <= i < |s.constraints| ==> t.constraints[i] == s.constraints[i]
  {
  }

  lemma ComputedExtends(c: Circuit, lc: Terms)
    requires c.Valid()
    ensures Extends(c, c.Computed(lc)) && c.nextVar in c.Computed(lc).varInfo
    ensures forall v :: v in c.varInfo ==> c.Computed(lc).GetLc(v) == c.GetLc(v)
  {
  }

  lemma WithExtends(c: Circuit, k: Constraint)
    ensures Extends(c, c.With(k)) && forall v :: c.With(k).GetLc(v) == c.GetLc(v)
  {
  }

  lemma WiresStay(c: Circuit, d: Circuit, s: Circuit, t: Circuit, first: int, k: nat)
    requires Extends(c, d) && NewWires(d, s, first, k) && Extends(s, t)
    ensures NewWires(c, t, first, k)
  {
    forall v | first <= v < first + k ensures v in t.privateVars {
      assert v in s.privateVars;
      var i :| 0 <= i < |s.privateVars| && s.privateVars[i] == v;
      assert t.privateVars[i] == v;
    }
  }

  // The sum of 2^i times the value of combination i.
  function Packed(lcs: seq<Terms>, f: int -> int, n: nat): int
    decreases |lcs|
  {
    if lcs == [] then 0
    else Packed(lcs[..|lcs| - 1], f, n) + Pow2(|lcs| - 1) * Value(lcs[|lcs| - 1], f, n)
  }

  // The constraints added since from hold.
  ghost predicate HoldFrom(s: Circuit, from: nat, f: int -> int, n: nat, p: int)
    requires p > 0
  {
    forall t :: from <= t < |s.constraints| ==> Holds(s.constraints[t], f, n, p)
  }

  method Boolean(b: Builder) returns (v: int)
    requires b.Now().Valid()
    modifies b
    ensures b.Now().Valid() && Extends(old(b.Now()), b.Now()) && |b.constraints| == |old(b.constraints)| + 1
    ensures v == old(b.nextVar) && b.nextVar == v + 1 && v in b.varInfo && v in b.privateVars && b.GetLc(v) == map[v := 1]
    ensures IsBit(b.constraints[|b.constraints| - 1], map[v := 1])
    ensures old(b.Now()).Grounded() ==> b.Now().Grounded()
  {
    v := b.AllocPrivate();
    b.AssertBoolean(v);
  }

  // 1 - a.
  method BoolNot(b: Builder, a: int) returns (v: int)
    requires b.Now().Valid()
    modifies b
    ensures b.Now().Valid() && Extends(old(b.Now()), b.Now()) && b.constraints == old(b.constraints)
    ensures forall f: int -> int, n: nat :: n > 0 ==>
      Value(b.GetLc(v), f, n) == -1 * Value(old(b.GetLc(a)), f, n) + 1 * f(0)
    ensures old(b.Now()).Grounded() && a in old(b.varInfo) ==> b.Now().Grounded()
  {
    hide Value;
    var minus := b.MulConst(a, -1);
    v := b.AddConst(minus, 1);
  }

  // cond * (x - y) + y: a satisfying valuation selects x or y.
  method Select(b: Builder, cond: int, x: int, y: int) returns (v: int)
    requires b.Now().Valid()
    modifies b
    ensures b.Now().Valid() && Extends(old(b.Now()), b.Now())
    ensures cond in old(b.varInfo) && x in old(b.varInfo) && y in old(b.varInfo) ==>
      Selects(b.Now(), |old(b.constraints)|, old(b.GetLc(cond)), old(b.GetLc(x)), old(b.GetLc(y)), b.GetLc(v))
    ensures old(b.Now()).Grounded() && cond in old(b.varInfo) && x in old(b.varInfo) && y in old(b.varInfo) ==> b.Now().Grounded()
  {
    hide Value, Cong, Selects, Circuit.Valid, Circuit.Grounded;
    ghost var c0 := b.Now();
    KnownBelow(c0);
    var diff := b.Sub(x, y);
    var selected := b.Mul(cond, diff);
    ghost var diffLc := b.GetLc(diff);
    v := b.Add(selected, y);
    if cond in c0.varInfo && x in c0.varInfo && y in c0.varInfo {
      SelectSound(b.Now(), |c0.constraints|, c0.GetLc(cond), c0.GetLc(x), c0.GetLc(y), diffLc, selected, b.GetLc(v));
    }
  }

  lemma KnownBelow(c: Circuit)
    requires c.Valid()
    ensures forall u :: u in c.varInfo ==> 0 <= u < c.nextVar
  {
  }

  ghost predicate Selects(s: Circuit, from: nat, cond: Terms, x: Terms, y: Terms, r: Terms) {
    forall f: int -> int, n: nat, p: int :: p > 0 && n >= s.nextVar && HoldFrom(s, from, f, n, p) ==>
      && (Cong(Value(cond, f, n), 1, p) ==> Cong(Value(r, f, n), Value(x, f, n), p))
      && (Cong(Value(cond, f, n), 0, p) ==> Cong(Value(r, f, n), Value(y, f, n), p))
  }

  lemma SelectSound(s: Circuit, from: nat, cond: Terms, x: Terms, y: Terms, diff: Terms, v: int, r: Terms)
    requires from < |s.constraints| && 0 <= v < s.nextVar && s.constraints[from] == Constraint(cond, diff, map[v := 1])
    requires forall f: int -> int, n: nat :: Value(diff, f, n) == Value(x, f, n) - Value(y, f, n)
    requires forall f: int -> int, n: nat :: Value(r, f, n) == Value(map[v := 1], f, n) + Value(y, f, n)
    ensures Selects(s, from, cond, x, y, r)
  {
    hide Value, Cong;
    forall f: int -> int, n: nat, p: int | p > 0 && n >= s.nextVar && HoldFrom(s, from, f, n, p)
      ensures Cong(Value(cond, f, n), 1, p) ==> Cong(Value(r, f, n), Value(x, f, n), p)
      ensures Cong(Value(cond, f, n), 0, p) ==> Cong(Value(r, f, n), Value(y, f, n), p)
    {
      assert Holds(s.constraints[from], f, n, p);
      var cv, xv, yv, sv := Value(cond, f, n), Value(x, f, n), Value(y, f, n), Value(map[v := 1], f, n);
      assert Cong(cv * (xv - yv), sv, p);
      SelectArith(cv, xv, yv, sv, p);
    }
  }

  lemma SelectArith(c: int, x: int, y: int, s: int, p: int)
    requires p > 0 && Cong(c * (x - y), s, p)
    ensures Cong(c, 1, p) ==> Cong(s + y, x, p)
    ensures Cong(c, 0, p) ==> Cong(s + y, y, p)
  {
    hide Cong;
    CongSym(c * (x - y), s, p);
    CongRefl(y, p);
    CongRefl(x - y, p);
    if Cong(c, 1, p) {
      MulThrough(s, c, x - y, 1, x - y, p);
      AddCong(s, x - y, y, y, p);
    }
    if Cong(c, 0, p) {
      MulThrough(s, c, x - y, 0, x - y, p);
      AddCong(s, 0, y, y, p);
    }
  }

  // One round of FromBits.
  method AddScaledBit(b: Builder, result: int, bit: int, power: nat) returns (v: int)
    requires b.Now().Valid()
    modifies b
    ensures b.Now().Valid() && Extends(old(b.Now()), b.Now()) && b.constraints == old(b.constraints) && v in b.varInfo
    ensures result in old(b.varInfo) && bit in old(b.varInfo) ==> forall f: int -> int, n: nat ::
      Value(b.GetLc(v), f, n) == Value(old(b.GetLc(result)), f, n) + power * Value(old(b.GetLc(bit)), f, n)
    ensures old(b.Now()).Grounded() && result in old(b.varInfo) && bit in old(b.varInfo) ==> b.Now().Grounded()
  {
    hide Value;
    var scaled := b.MulConst(bit, power);
    v := b.Add(result, scaled);
  }

  // FromBits refuses no bits.
  method FromBits(b: Builder, bits: seq<int>) returns (r: Result<int>)
    requires b.Now().Valid()
    modifies b
    ensures r.Err? <==> bits == []
    ensures b.Now().Valid() && Extends(old(b.Now()), b.Now()) && b.constraints == old(b.constraints)
    ensures r.Ok? && AllKnown(old(b.Now()), bits) ==> r.value in b.varInfo && forall f: int -> int, n: nat ::
      Value(b.GetLc(r.value), f, n) == Packed(Lcs(old(b.Now()), bits), f, n)
    ensures old(b.Now()).Grounded() && AllKnown(old(b.Now()), bits) ==> b.Now().Grounded()
  {
    hide Value, Packed, Pow2;
    if bits == [] { return Err; }
    ghost var c := b.Now();
    ghost var lcs := Lcs(c, bits);
    var result, power := bits[0], 2;
    PackedFirst(lcs);
    Pow2Small();
    for i := 1 to |bits|
      invariant b.Now().Valid() && Extends(c, b.Now()) && b.constraints == c.constraints && power == Pow2(i)
      invariant AllKnown(c, bits) ==> result in b.varInfo && forall f: int -> int, n: nat ::
        Value(b.GetLc(result), f, n) == Packed(lcs[..i], f, n)
      invariant c.Grounded() && AllKnown(c, bits) ==> b.Now().Grounded()
    {
      Pow2Step(i);
      PackedNext(lcs, i);
      result := AddScaledBit(b, result, bits[i], power);
      power := power * 2;
    }
    assert lcs[..|bits|] == lcs;
    r := Ok(result);
  }

  lemma Pow2Small()
    ensures Pow2(1) == 2
  {
  }

  lemma PackedFirst(lcs: seq<Terms>)
    requires lcs != []
    ensures forall f: int -> int, n: nat :: Packed(lcs[..1], f, n) == Value(lcs[0], f, n)
  {
    hide Value;
    forall f: int -> int, n: nat ensures Packed(lcs[..1], f, n) == Value(lcs[0], f, n) {
      assert lcs[..1][..0] == [];
      assert Pow2(0) == 1;
    }
  }

  lemma PackedNext(lcs: seq<Terms>, i: nat)
    requires i < |lcs|
    ensures forall f: int -> int, n: nat :: Packed(lcs[..i + 1], f, n) == Packed(lcs[..i], f, n) + Pow2(i) * Value(lcs[i], f, n)
  {
    hide Value, Pow2;
    forall f: int -> int, n: nat
      ensures Packed(lcs[..i + 1], f, n) == Packed(lcs[..i], f, n) + Pow2(i) * Value(lcs[i], f, n)
    {
      assert lcs[..i + 1][..i] == lcs[..i];
    }
  }

  // Every combination is a bit modulo p.
  ghost predicate AllBits(lcs: seq<Terms>, f: int -> int, n: nat, p: int)
    requires p > 0
  {
    forall i :: 0 <= i < |lcs| ==> Cong(Value(lcs[i], f, n) * (1 - Value(lcs[i], f, n)), 0, p)
  }

  // The new constraints hold exactly when the combinations are bits and add up,
  // weighted, to the value decomposed.
  ghost predicate Decomposes(s: Circuit, from: nat, lcs: seq<Terms>, lc: Terms) {
    forall f: int -> int, n: nat, p: int :: p > 0 && n > 0 && f(0) == 1 ==>
      (HoldFrom(s, from, f, n, p) <==> AllBits(lcs, f, n, p) && Cong(Packed(lcs, f, n) - Value(lc, f, n), 0, p))
  }

  // The new boolean variables.
  method NewBits(b: Builder, numBits: nat) returns (bits: seq<int>)
    requires b.Now().Valid()
    modifies b
    ensures b.Now().Valid() && Extends(old(b.Now()), b.Now()) && |bits| == numBits && AllKnown(b.Now(), bits)
    ensures Lcs(b.Now(), bits) == Digits(old(b.nextVar), numBits) && NewWires(old(b.Now()), b.Now(), old(b.nextVar), numBits)
    ensures forall j :: 0 <= j < numBits ==> bits[j] == old(b.nextVar) + j
    ensures |b.constraints| == |old(b.constraints)| + numBits
    ensures forall j :: 0 <= j < numBits ==> IsBit(b.constraints[|old(b.constraints)|..][j], b.Now().GetLc(bits[j]))
    ensures old(b.Now()).Grounded() ==> b.Now().Grounded()
  {
    hide IsBit, Circuit.Valid, Circuit.Grounded, Extends, NewWires, BitsMade;
    ghost var c := b.Now();
    ExtendsSelf(c);
    NoBits(c);
    bits := [];
    for i := 0 to numBits
      invariant b.Now().Valid() && Extends(c, b.Now()) && |bits| == i
      invariant BitsMade(c, b.Now(), bits) && NewWires(c, b.Now(), c.nextVar, i)
      invariant c.Grounded() ==> b.Now().Grounded()
    {
      ghost var was := b.Now();
      var bit := Boolean(b);
      ExtendsOn(c, was, b.Now());
      WireAdded(c, was, b.Now(), bits, bit);
      bits := bits + [bit];
    }
    BitsAre(c, b.Now(), bits);
  }

  // The bits made on the way from c to s: consecutive wires, each with the
  // constraint that makes it a bit.
  ghost predicate BitsMade(c: Circuit, s: Circuit, bits: seq<int>) {
    && s.nextVar == c.nextVar + |bits| && |s.constraints| == |c.constraints| + |bits|
    && forall j :: 0 <= j < |bits| ==> BitMade(c, s, bits[j], j)
  }

  ghost predicate BitMade(c: Circuit, s: Circuit, bit: int, j: nat) {
    && bit == c.nextVar + j && bit in s.varInfo && s.varInfo[bit].lc == map[bit := 1]
    && |c.constraints| + j < |s.constraints| && IsBit(s.constraints[|c.constraints| + j], map[bit := 1])
  }

  lemma NoBits(c: Circuit)
    ensures BitsMade(c, c, []) && NewWires(c, c, c.nextVar, 0)
  {
  }

  lemma WireAdded(c: Circuit, was: Circuit, s: Circuit, bits: seq<int>, bit: int)
    requires c.Valid() && Extends(c, was) && BitsMade(c, was, bits) && NewWires(c, was, c.nextVar, |bits|) && Extends(was, s)
    requires bit == was.nextVar && s.nextVar == bit + 1 && bit in s.varInfo && bit in s.privateVars && s.GetLc(bit) == map[bit := 1]
    requires |s.constraints| == |was.constraints| + 1 && IsBit(s.constraints[|was.constraints|], map[bit := 1])
    ensures BitsMade(c, s, bits + [bit]) && NewWires(c, s, c.nextVar, |bits| + 1)
  {
    hide IsBit, Extends;
    ExtendsOn(c, was, s);
    ExtendsSelf(c);
    WiresStay(c, c, was, s, c.nextVar, |bits|);
    forall j | 0 <= j < |bits| + 1 ensures BitMade(c, s, (bits + [bit])[j], j) {
      if j < |bits| {
        assert BitMade(c, was, bits[j], j);
        assert s.GetLc(bits[j]) == was.GetLc(bits[j]);
      }
    }
  }

  lemma BitsAre(c: Circuit, s: Circuit, bits: seq<int>)
    requires BitsMade(c, s, bits)
    ensures AllKnown(s, bits) && Lcs(s, bits) == Digits(c.nextVar, |bits|) && |s.constraints| == |c.constraints| + |bits|
    ensures forall j :: 0 <= j < |bits| ==> bits[j] == c.nextVar + j && IsBit(s.constraints[|c.constraints|..][j], s.GetLc(bits[j]))
  {
    hide IsBit;
    forall j | 0 <= j < |bits|
      ensures bits[j] in s.varInfo && bits[j] == c.nextVar + j && IsBit(s.constraints[|c.constraints|..][j], s.GetLc(bits[j]))
      ensures s.GetLc(bits[j]) == map[c.nextVar + j := 1]
    {
      assert BitMade(c, s, bits[j], j);
    }
  }

  // ToBits refuses a count that is not positive.
  method ToBits(b: Builder, v: int, numBits: int) returns (r: Result<seq<int>>)
    requires b.Now().Valid()
    modifies b
    ensures r.Err? <==> numBits <= 0
    ensures b.Now().Valid() && Extends(old(b.Now()), b.Now())
    ensures r.Ok? ==> |r.value| == numBits && AllKnown(b.Now(), r.value) && Lcs(b.Now(), r.value) == Digits(old(b.nextVar), numBits)
    ensures r.Ok? ==> NewWires(old(b.Now()), b.Now(), old(b.nextVar), numBits)
    ensures r.Ok? && v in old(b.varInfo) ==>
      Decomposes(b.Now(), |old(b.constraints)|, Lcs(b.Now(), r.value), old(b.GetLc(v)))
    ensures old(b.Now()).Grounded() && v in old(b.varInfo) ==> b.Now().Grounded()
  {
    hide Value, Packed, Cong, IsBit, Equates, Extends, NewWires, Circuit.Valid, Circuit.Grounded, Digits;
    ghost var c := b.Now();
    ExtendsSelf(c);
    if numBits <= 0 { return Err; }
    var bits := NewBits(b, numBits);
    ghost var made := b.Now();
    var packed := FromBits(b, bits);
    ghost var mid := b.Now();
    b.AssertEqual(packed.value, v);
    ghost var s := b.Now();
    WithExtends(mid, s.constraints[|mid.constraints|]);
    ExtendsOn(made, mid, s);
    ExtendsOn(c, made, s);
    WiresStay(c, c, made, s, c.nextVar, numBits);
    assert Lcs(made, bits) == Lcs(s, bits);
    if v in c.varInfo {
      forall j {:trigger bits[j]} | 0 <= j < numBits ensures IsBit(s.constraints[|c.constraints| + j], made.GetLc(bits[j])) {
        assert s.constraints[|c.constraints| + j] == made.constraints[|c.constraints|..][j];
      }
      ToBitsSound(s, |c.constraints|, Lcs(made, bits), s.GetLc(packed.value), c.GetLc(v));
    }
    r := Ok(bits);
  }

  lemma ToBitsSound(s: Circuit, from: nat, lcs: seq<Terms>, packed: Terms, lc: Terms)
    requires |s.constraints| == from + |lcs| + 1
    requires forall j {:trigger lcs[j]} :: 0 <= j < |lcs| ==> IsBit(s.constraints[from + j], lcs[j])
    requires Equates(s.constraints[from + |lcs|], packed, lc)
    requires forall f: int -> int, n: nat :: Value(packed, f, n) == Packed(lcs, f, n)
    ensures Decomposes(s, from, lcs, lc)
  {
    hide Value, Packed, Cong;
    forall f: int -> int, n: nat, p: int | p > 0 && n > 0 && f(0) == 1
      ensures HoldFrom(s, from, f, n, p) <==> AllBits(lcs, f, n, p) && Cong(Packed(lcs, f, n) - Value(lc, f, n), 0, p)
    {
      forall j | 0 <= j < |lcs|
        ensures Holds(s.constraints[from + j], f, n, p) <==> Cong(Value(lcs[j], f, n) * (1 - Value(lcs[j], f, n)), 0, p)
      {
        assert IsBit(s.constraints[from + j], lcs[j]);
      }
      forall t | from <= t < |s.constraints| && t != from + |lcs|
        ensures Holds(s.constraints[t], f, n, p) <==> Cong(Value(lcs[t - from], f, n) * (1 - Value(lcs[t - from], f, n)), 0, p)
      {
        var j := t - from;
        assert IsBit(s.constraints[from + j], lcs[j]);
      }
      assert Holds(s.constraints[from + |lcs|], f, n, p) <==> Cong(Value(packed, f, n) - Value(lc, f, n), 0, p);
      if AllBits(lcs, f, n, p) && Cong(Packed(lcs, f, n) - Value(lc, f, n), 0, p) {
        forall t | from <= t < |s.constraints| ensures Holds(s.constraints[t], f, n, p) {
          if t != from + |lcs| { assert 0 <= t - from < |lcs|; }
        }
      }
    }
  }

  // ---- What the bits are --------------------------------------------------

  // In a prime field x * (1 - x) = 0 leaves 0 and 1.
  lemma BitValue(x: int, p: int)
    requires IsPrime(p) && Cong(x * (1 - x), 0, p)
    ensures Cong(x, Num(x % p == 1), p)
  {
    SmallMod(0, p);
    SmallMod(1, p);
    if !Cong(x, 0, p) {
      NoZeroDivisors(x, 1 - x, p);
      CongRefl(x, p);
      AddCong(1 - x, 0, x, x, p);
    }
  }

  function BitsOf(lcs: seq<Terms>, f: int -> int, n: nat, p: int): (bs: seq<bool>)
    requires p > 0
    ensures |bs| == |lcs|
  {
    seq(|lcs|, i requires 0 <= i < |lcs| => Value(lcs[i], f, n) % p == 1)
  }

  lemma {:induction false} PackedBits(lcs: seq<Terms>, f: int -> int, n: nat, p: int)
    requires IsPrime(p) && AllBits(lcs, f, n, p)
    ensures Cong(Packed(lcs, f, n), Bits.FromBits(BitsOf(lcs, f, n, p)), p)
    decreases |lcs|
  {
    hide Value, Cong, Pow2;
    if lcs == [] {
      CongRefl(0, p);
    } else {
      var l := |lcs| - 1;
      var x, bs := Value(lcs[l], f, n), BitsOf(lcs[..l], f, n, p);
      assert AllBits(lcs[..l], f, n, p);
      PackedBits(lcs[..l], f, n, p);
      BitValue(x, p);
      assert BitsOf(lcs, f, n, p) == bs + [x % p == 1];
      FromBitsSnoc(bs, x % p == 1);
      CongRefl(Pow2(l), p);
      MulCong(Pow2(l), Pow2(l), x, Num(x % p == 1), p);
      AddCong(Packed(lcs[..l], f, n), Bits.FromBits(bs), Pow2(l) * x, Pow2(l) * Num(x % p == 1), p);
    }
  }

  // The bits of a decomposition that fits the field are those of the value.
  lemma UniqueDigits(lcs: seq<Terms>, f: int -> int, n: nat, p: int, x: int, d: nat)
    requires IsPrime(p) && Pow2(|lcs|) < p && AllBits(lcs, f, n, p) && Cong(Packed(lcs, f, n) - x, 0, p)
    requires Cong(x, d, p) && d < p
    ensures d == Bits.FromBits(BitsOf(lcs, f, n, p))
    ensures forall i :: 0 <= i < |lcs| ==> Cong(Value(lcs[i], f, n), Num(Bit(d, i)), p)
  {
    hide Value, Cong, Packed, Pow2, Bit;
    var bs := BitsOf(lcs, f, n, p);
    PackedBits(lcs, f, n, p);
    CongRefl(x, p);
    AddCong(Packed(lcs, f, n) - x, 0, x, x, p);
    CongSym(Packed(lcs, f, n), Bits.FromBits(bs), p);
    CongTrans(Bits.FromBits(bs), Packed(lcs, f, n), x, p);
    CongTrans(Bits.FromBits(bs), x, d, p);
    CongSmall(Bits.FromBits(bs), d, p);
    forall i | 0 <= i < |lcs| ensures Cong(Value(lcs[i], f, n), Num(Bit(d, i)), p) {
      BitFromBits(bs, i);
      BitValue(Value(lcs[i], f, n), p);
    }
  }

  // ---- LessThan -----------------------------------------------------------

  // In every satisfying valuation where the operands are below 2^k, the bits are
  // the digits of 2^k + x - y and the result says whether x is below y.
  ghost predicate Compares(s: Circuit, from: nat, k: nat, x: Terms, y: Terms, lcs: seq<Terms>, r: Terms) {
    |lcs| == k + 1 && forall f: int -> int, n: nat, p: int ::
      InField(k, x, y, f, n, p) && HoldFrom(s, from, f, n, p) ==> ComparesAt(k, x, y, lcs, r, f, n, p)
  }

  // The field is a prime above 2^(k + 1) and the operands are below 2^k.
  ghost predicate InField(k: nat, x: Terms, y: Terms, f: int -> int, n: nat, p: int) {
    && IsPrime(p) && Pow2(k + 1) < p && n > 0 && f(0) == 1
    && Value(x, f, n) % p < Pow2(k) && Value(y, f, n) % p < Pow2(k)
  }

  ghost predicate ComparesAt(k: nat, x: Terms, y: Terms, lcs: seq<Terms>, r: Terms, f: int -> int, n: nat, p: int)
    requires p > 0
  {
    var u, w := Value(x, f, n) % p, Value(y, f, n) % p;
    && Pow2(k) + u - w >= 0
    && (forall i :: 0 <= i < |lcs| ==> Value(lcs[i], f, n) % p == Num(Bit(Pow2(k) + u - w, i)))
    && Value(r, f, n) % p == if u < w then 1 else 0
  }

  method LessThan(b: Builder, x: int, y: int, numBits: int) returns (r: Result<int>)
    requires b.Now().Valid()
    modifies b
    ensures r.Ok? <==> 0 < numBits < 253
    ensures b.Now().Valid() && Extends(old(b.Now()), b.Now())
    ensures r.Ok? ==> NewWires(old(b.Now()), b.Now(), old(b.nextVar) + 2, numBits + 1)
    ensures r.Ok? && x in old(b.varInfo) && y in old(b.varInfo) ==>
      Compares(b.Now(), |old(b.constraints)|, numBits, old(b.GetLc(x)), old(b.GetLc(y)),
               Digits(old(b.nextVar) + 2, numBits + 1), b.GetLc(r.value))
    ensures old(b.Now()).Grounded() && x in old(b.varInfo) && y in old(b.varInfo) ==> b.Now().Grounded()
  {
    hide Value, Cong, Decomposes, Pow2, Compares, Digits, Extends, NewWires, Circuit.Valid, Circuit.Grounded;
    ghost var c := b.Now();
    ExtendsSelf(c);
    if !(0 < numBits < 253) { return Err; }
    var offset := b.AddConst(x, Pow2(numBits));
    ghost var c1 := b.Now();
    ComputedExtends(c, c1.GetLc(offset));
    var diff := b.Sub(offset, y);
    ghost var mid := b.Now();
    ghost var diffLc := mid.GetLc(diff);
    ComputedExtends(c1, diffLc);
    ExtendsOn(c, c1, mid);
    var bits := ToBits(b, diff, numBits + 1);
    ghost var s := b.Now();
    ExtendsOn(c, mid, s);
    ghost var lcs := Lcs(s, bits.value);
    var v := BoolNot(b, bits.value[numBits]);
    ExtendsOn(c, s, b.Now());
    WiresStay(c, mid, s, b.Now(), mid.nextVar, numBits + 1);
    if x in c.varInfo && y in c.varInfo {
      SameConstraints(s, b.Now(), |c.constraints|, lcs, diffLc);
      LessThanSound(b.Now(), |c.constraints|, numBits, c.GetLc(x), c.GetLc(y), diffLc, lcs, b.GetLc(v));
    }
    r := Ok(v);
  }

  lemma SameConstraints(s: Circuit, t: Circuit, from: nat, lcs: seq<Terms>, lc: Terms)
    requires Decomposes(s, from, lcs, lc) && t.constraints == s.constraints
    ensures Decomposes(t, from, lcs, lc)
  {
    hide Value, Packed, Cong, AllBits;
    forall f: int -> int, n: nat, p: int | p > 0 && n > 0 && f(0) == 1
      ensures HoldFrom(t, from, f, n, p) <==> AllBits(lcs, f, n, p) && Cong(Packed(lcs, f, n) - Value(lc, f, n), 0, p)
    {
      assert HoldFrom(t, from, f, n, p) <==> HoldFrom(s, from, f, n, p);
    }
  }

  lemma LessThanSound(s: Circuit, from: nat, k: nat, x: Terms, y: Terms, diff: Terms, lcs: seq<Terms>, r: Terms)
    requires |lcs| == k + 1 && Decomposes(s, from, lcs, diff)
    requires forall f: int -> int, n: nat :: n > 0 ==>
      Value(diff, f, n) == Value(x, f, n) + Pow2(k) * f(0) - Value(y, f, n)
    requires forall f: int -> int, n: nat :: n > 0 ==> Value(r, f, n) == -1 * Value(lcs[k], f, n) + 1 * f(0)
    ensures Compares(s, from, k, x, y, lcs, r)
  {
    hide Value, Packed, Cong, AllBits, Pow2, HoldFrom, ComparesAt;
    forall f: int -> int, n: nat, p: int | InField(k, x, y, f, n, p) && HoldFrom(s, from, f, n, p)
      ensures ComparesAt(k, x, y, lcs, r, f, n, p)
    {
      LessThanAt(k, x, y, diff, lcs, r, f, n, p);
    }
  }

  lemma LessThanAt(k: nat, x: Terms, y: Terms, diff: Terms, lcs: seq<Terms>, r: Terms, f: int -> int, n: nat, p: int)
    requires |lcs| == k + 1 && IsPrime(p) && Pow2(k + 1) < p && f(0) == 1
    requires AllBits(lcs, f, n, p) && Cong(Packed(lcs, f, n) - Value(diff, f, n), 0, p)
    requires Value(diff, f, n) == Value(x, f, n) + Pow2(k) * f(0) - Value(y, f, n)
    requires Value(r, f, n) == -1 * Value(lcs[k], f, n) + 1 * f(0)
    requires Value(x, f, n) % p < Pow2(k) && Value(y, f, n) % p < Pow2(k)
    ensures ComparesAt(k, x, y, lcs, r, f, n, p)
  {
    hide Value, Packed, Cong, AllBits, Pow2, Bit, IsPrime;
    var xv, yv := Value(x, f, n), Value(y, f, n);
    var u, w := xv % p, yv % p;
    var d := Pow2(k) + u - w;
    Pow2Step(k);
    assert Value(diff, f, n) == xv + Pow2(k) - yv;
    DiffCong(xv, yv, Pow2(k), p);
    UniqueDigits(lcs, f, n, p, Value(diff, f, n), d);
    forall i | 0 <= i < |lcs| ensures Value(lcs[i], f, n) % p == Num(Bit(d, i)) {
      SmallCong(Value(lcs[i], f, n), Num(Bit(d, i)), p);
    }
    TopBit(d, k);
    var t := Num(Bit(d, k));
    CongRefl(1, p);
    SubCong(1, 1, Value(lcs[k], f, n), t, p);
    SmallCong(Value(r, f, n), 1 - t, p);
  }

  lemma DiffCong(x: int, y: int, q: int, p: int)
    requires p > 0
    ensures Cong(x + q - y, q + x % p - y % p, p)
  {
    hide Cong;
    ModCong(x, p);
    ModCong(y, p);
    CongSym(x % p, x, p);
    CongSym(y % p, y, p);
    CongRefl(q, p);
    AddCong(q, q, x, x % p, p);
    SubCong(q + x, q + x % p, y, y % p, p);
  }

  lemma SmallCong(x: int, y: int, p: int)
    requires p > 0 && Cong(x, y, p) && 0 <= y < p
    ensures x % p == y
  {
    SmallMod(y, p);
  }

  lemma TopBit(d: nat, k: nat)
    requires d < 2 * Pow2(k)
    ensures Bit(d, k) <==> d >= Pow2(k)
  {
    hide Bit, Pow2;
    BitDivision(d, k);
    if d >= Pow2(k) {
      DivUnique(d, 1, d - Pow2(k), Pow2(k));
    } else {
      DivUnique(d, 0, d, Pow2(k));
    }
  }
}
