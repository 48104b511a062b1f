// The distributed point function: single-point evaluation, and full-domain
// evaluation with early termination at any level.
module Dpf {
  import opened ModArith
  import opened Bits
  import opened Blocks
  import opened Ge2n
  import opened Outcome

  // What SplitDpfSeed derives from a seed.
  datatype Split = Split(seedL: Block, tL: bool, seedR: Block, tR: bool)

  datatype CW = CW(seed: Block, lt: bool, rt: bool)

  datatype DpfKey = DpfKey(rank: bool, seed: Block, cws: seq<CW>, lastCw: seq<Block>, evalAll: bool)

  // The generators: SplitDpfSeed and DpfPRG.
  datatype Prgs = Prgs(split: Block -> Split, prg: Block -> Block)

  datatype Walk = Walk(seed: Block, t: bool)

  function SideSeed(s: Split, right: bool): Block { if right then s.seedR else s.seedL }
  function SideT(s: Split, right: bool): bool { if right then s.tR else s.tL }
  function SideCw(c: CW, right: bool): bool { if right then c.rt else c.lt }

  function WalkStep(w: Walk, c: CW, right: bool, g: Prgs): Walk {
    var s := g.split(w.seed);
    Walk(if w.t then Xor(SideSeed(s, right), c.seed) else SideSeed(s, right),
         SideT(s, right) != (w.t && SideCw(c, right)))
  }

  // After i levels along the low bits of x.
  function WalkAt(key: DpfKey, x: nat, i: nat, g: Prgs): Walk
    requires i <= |key.cws|
  {
    if i == 0 then Walk(key.seed, key.rank)
    else WalkStep(WalkAt(key, x, i - 1, g), key.cws[i - 1], Bit(x, i - 1), g)
  }

  // Output slot e of a leaf: the generator applied e + 1 times.
  function Slot(seed: Block, e: nat, g: Prgs, n: nat): Block
    requires n <= 128
  {
    if e == 0 then g.prg(seed) else g.prg(Val(Slot(seed, e - 1, g, n), n))
  }

  // A party's share of a slot with the given correction word.
  function Share(p: Block, t: bool, cw: Block, rank: bool, n: nat): (r: Block)
    requires n <= 128
    ensures Cong(r, Sign(rank) * (Int(p) + (if t then Int(cw) else 0)), Pow2(n))
  {
    var a := Add(p, if t then cw else 0, n);
    MulCong(Sign(rank), Sign(rank), a, Int(p) + (if t then Int(cw) else 0), Pow2(n));
    ReverseIf(rank, a, n)
  }

  // The value a key gives slot e of the leaf that the low l bits of x lead to.
  function LeafShare(key: DpfKey, x: nat, l: nat, e: nat, g: Prgs, n: nat): Block
    requires l <= |key.cws| && e < |key.lastCw| && n <= 128
  {
    var w := WalkAt(key, x, l, g);
    Share(Slot(w.seed, e, g, n), w.t, key.lastCw[e], key.rank, n)
  }

  // ---- Key generation -----------------------------------------------------

  datatype Gen = Gen(w0: Walk, w1: Walk)

  function GenCw(g0: Gen, bit: bool, g: Prgs): CW {
    var s0, s1 := g.split(g0.w0.seed), g.split(g0.w1.seed);
    CW(Xor(SideSeed(s0, !bit), SideSeed(s1, !bit)),
       ((s0.tL != s1.tL) != bit) != true,
       (s0.tR != s1.tR) != bit)
  }

  function GenNext(g0: Gen, bit: bool, g: Prgs): Gen {
    var c := GenCw(g0, bit, g);
    Gen(WalkStep(g0.w0, c, bit, g), WalkStep(g0.w1, c, bit, g))
  }

  function GenAt(mk0: Block, mk1: Block, alpha: Block, i: nat, g: Prgs): Gen {
    if i == 0 then Gen(Walk(mk0, false), Walk(mk1, true))
    else GenNext(GenAt(mk0, mk1, alpha, i - 1, g), Bit(alpha, i - 1), g)
  }

  // The correction word of slot e: it makes the shares of the slot sum to target.
  function LastCw(g0: Gen, e: nat, target: Block, g: Prgs, n: nat): (r: Block)
    requires n <= 128
    ensures Cong(r, Sign(g0.w1.t) * (Int(Slot(g0.w1.seed, e, g, n)) - Int(Slot(g0.w0.seed, e, g, n)) - 0 + Int(target)), Pow2(n))
  {
    var p0, p1 := Slot(g0.w0.seed, e, g, n), Slot(g0.w1.seed, e, g, n);
    LastCwCong(p0, p1, target, g0.w1.t, n);
    Val(ReverseIf(g0.w1.t, Add(Add(target, Reverse(p0, n), n), p1, n), n), n)
  }

  lemma LastCwCong(p0: Block, p1: Block, b: Block, t1: bool, n: nat)
    requires n <= 128
    ensures Cong(Val(ReverseIf(t1, Add(Add(b, Reverse(p0, n), n), p1, n), n), n),
                 Sign(t1) * (Int(p1) - Int(p0) - 0 + Int(b)), Pow2(n))
  {
    hide Cong, Add, Reverse, ReverseIf, Val;
    var m := Pow2(n);
    CongRefl(b, m);
    CongRefl(p1, m);
    var a := Add(b, Reverse(p0, n), n);
    AddThrough(a, b, Reverse(p0, n), b, -Int(p0), m);
    var c := Add(a, p1, n);
    var d := Int(p1) - Int(p0) - 0 + Int(b);
    AddThrough(c, a, p1, Int(b) + -Int(p0), p1, m);
    CongRefl(Sign(t1), m);
    MulCong(Sign(t1), Sign(t1), c, d, m);
    CongTrans(ReverseIf(t1, c, n), Sign(t1) * Int(c), Sign(t1) * d, m);
    CongTrans(Val(ReverseIf(t1, c, n), n), ReverseIf(t1, c, n), Sign(t1) * d, m);
  }

  // Slot e of the leaf of alpha is targeted at beta when it is alpha's own slot.
  function Target(alpha: Block, beta: Block, m: nat, l: nat, e: nat): Block
    requires l <= m <= 128
  {
    if e == Val(alpha, m) / Pow2(l) then beta else 0
  }

  ghost predicate KeysFor(k0: DpfKey, k1: DpfKey, mk0: Block, mk1: Block, alpha: Block, beta: Block, m: nat, l: nat,
                          g: Prgs, n: nat)
    requires l <= m <= 128 && n <= 128
  {
    && k0.rank == false && k1.rank == true && k0.seed == mk0 && k1.seed == mk1
    && k0.cws == k1.cws && |k0.cws| == l && k0.lastCw == k1.lastCw && |k0.lastCw| == Pow2(m - l)
    && (forall i :: 0 <= i < l ==> k0.cws[i] == GenCw(GenAt(mk0, mk1, alpha, i, g), Bit(alpha, i), g))
    && (forall e :: 0 <= e < Pow2(m - l) ==>
         k0.lastCw[e] == LastCw(GenAt(mk0, mk1, alpha, l, g), e, Target(alpha, beta, m, l, e), g, n))
  }

  // One level of the generator.
  method GenLevel(state: Gen, bit: bool, g: Prgs) returns (c: CW, next: Gen)
    ensures c == GenCw(state, bit, g) && next == GenNext(state, bit, g)
  {
    hide Xor;
    var t0, t1 := state.w0.t, state.w1.t;
    var a, b := g.split(state.w0.seed), g.split(state.w1.seed);
    var keep0, keep1, lose0, lose1 := SideSeed(a, bit), SideSeed(b, bit), SideSeed(a, !bit), SideSeed(b, !bit);
    var cwSeed := Xor(lose0, lose1);
    var cwL := ((a.tL != b.tL) != bit) != true;
    var cwR := (a.tR != b.tR) != bit;
    var cwKeep := if bit then cwR else cwL;
    c := CW(cwSeed, cwL, cwR);
    next := Gen(Walk(if t0 then Xor(keep0, cwSeed) else keep0, SideT(a, bit) != (t0 && cwKeep)),
                Walk(if t1 then Xor(keep1, cwSeed) else keep1, SideT(b, bit) != (t1 && cwKeep)));
  }

  // DpfKeyGen. Without full-domain evaluation the walk goes down all m levels and
  // there is one slot; with it, termLevel levels and 2^(m - termLevel) slots.
  method DpfKeyGen(alpha: Block, beta: Block, mk0: Block, mk1: Block, evalAll: bool, m: nat, termLevel: nat, g: Prgs, n: nat)
    returns (k0: DpfKey, k1: DpfKey)
    requires termLevel <= m <= 128 && n <= 128 && (!evalAll ==> termLevel == m)
    ensures KeysFor(k0, k1, mk0, mk1, alpha, beta, m, termLevel, g, n)
    ensures k0.evalAll == k1.evalAll == evalAll
  {
    hide GenCw, GenNext, LastCw, Bit, Slot, Val;
    var state := Gen(Walk(mk0, false), Walk(mk1, true));
    var cws: seq<CW> := [];
    for i := 0 to termLevel
      invariant state == GenAt(mk0, mk1, alpha, i, g) && |cws| == i
      invariant forall j :: 0 <= j < i ==> cws[j] == GenCw(GenAt(mk0, mk1, alpha, j, g), Bit(alpha, j), g)
    {
      var c, next := GenLevel(state, Bit(alpha, i), g);
      cws := cws + [c];
      state := next;
    }
    var last := LastWords(state, alpha, beta, m, termLevel, g, n);
    k0 := DpfKey(false, mk0, cws, last, evalAll);
    k1 := DpfKey(true, mk1, cws, last, evalAll);
  }

  method LastWords(state: Gen, alpha: Block, beta: Block, m: nat, l: nat, g: Prgs, n: nat) returns (last: seq<Block>)
    requires l <= m <= 128 && n <= 128
    ensures |last| == Pow2(m - l)
    ensures forall e :: 0 <= e < |last| ==> last[e] == LastCw(state, e, Target(alpha, beta, m, l, e), g, n)
  {
    hide Target;
    var prg0, prg1 := g.prg(state.w0.seed), g.prg(state.w1.seed);
    last := [];
    for e := 0 to Pow2(m - l)
      invariant |last| == e
      invariant prg0 == Slot(state.w0.seed, e, g, n) && prg1 == Slot(state.w1.seed, e, g, n)
      invariant forall j :: 0 <= j < e ==> last[j] == LastCw(state, j, Target(alpha, beta, m, l, j), g, n)
    {
      var c := Add(Add(Target(alpha, beta, m, l, e), Reverse(prg0, n), n), prg1, n);
      last := last + [Val(ReverseIf(state.w1.t, c, n), n)];
      prg0, prg1 := g.prg(Val(prg0, n)), g.prg(Val(prg1, n));
    }
  }

  // ---- Evaluation at one point --------------------------------------------

  method Walk1(seed: Block, t: bool, c: CW, right: bool, g: Prgs) returns (seed': Block, t': bool)
    ensures Walk(seed', t') == WalkStep(Walk(seed, t), c, right, g)
  {
    hide Xor;
    var s := g.split(seed);
    var seedL := if t then Xor(s.seedL, c.seed) else s.seedL;
    var tL := s.tL != (t && c.lt);
    var seedR := if t then Xor(s.seedR, c.seed) else s.seedR;
    var tR := s.tR != (t && c.rt);
    seed', t' := if right then seedR else seedL, if right then tR else tL;
  }

  // DpfEval refuses a key made for full-domain evaluation.
  method DpfEval(key: DpfKey, x: Block, m: nat, g: Prgs, n: nat) returns (r: Result<Block>)
    requires m <= 128 && |key.cws| == m && |key.lastCw| >= 1 && n <= 128
    ensures r.Ok? <==> !key.evalAll
    ensures r.Ok? ==> r.value == Val(LeafShare(key, x, m, 0, g, n), n)
  {
    hide Share, WalkStep, Bit, Val;
    if key.evalAll { return Err; }
    var seed: Block, t := key.seed, key.rank;
    for i := 0 to m
      invariant Walk(seed, t) == WalkAt(key, x, i, g)
    {
      seed, t := Walk1(seed, t, key.cws[i], Bit(x, i), g);
    }
    r := Ok(Val(Share(g.prg(seed), t, key.lastCw[0], key.rank, n), n));
  }

  // ---- Full-domain evaluation ---------------------------------------------

  // A walk looks at the low bits only.
  lemma {:induction false} WalkLow(key: DpfKey, x: nat, y: nat, i: nat, g: Prgs)
    requires i <= |key.cws| && forall j :: 0 <= j < i ==> Bit(x, j) == Bit(y, j)
    ensures WalkAt(key, x, i, g) == WalkAt(key, y, i, g)
    decreases i
  {
    if i > 0 { WalkLow(key, x, y, i - 1, g); }
  }

  lemma WalkResidue(key: DpfKey, x: nat, i: nat, g: Prgs)
    requires i <= |key.cws|
    ensures WalkAt(key, x, i, g) == WalkAt(key, x % Pow2(i), i, g)
  {
    forall j | 0 <= j < i ensures Bit(x, j) == Bit(x % Pow2(i), j) { BitOfRemainder(x, i, j); }
    WalkLow(key, x, x % Pow2(i), i, g);
  }

  // The walk of a child position.
  lemma ChildWalk(key: DpfKey, pos: nat, i: nat, right: bool, g: Prgs)
    requires i < |key.cws| && pos < Pow2(i)
    ensures
      var p := pos + if right then Pow2(i) else 0;
      p < Pow2(i + 1) && WalkAt(key, p, i + 1, g) == WalkStep(WalkAt(key, pos, i, g), key.cws[i], right, g)
  {
    hide WalkStep;
    var p := pos + if right then Pow2(i) else 0;
    DivUnique(p, if right then 1 else 0, pos, Pow2(i));
    BitDivision(p, i);
    WalkResidue(key, p, i, g);
  }

  // What Traverse leaves at an index when it starts from a position at a level.
  ghost predicate Filled(now: seq<Block>, was: seq<Block>, key: DpfKey, level: nat, pos: nat, m: nat, l: nat, g: Prgs, n: nat)
    requires level <= l <= m && |key.cws| == l && |key.lastCw| == Pow2(m - l) && n <= 128
  {
    && |now| == |was|
    && forall x :: 0 <= x < |now| ==>
         now[x] == if x < Pow2(m) && x % Pow2(level) == pos then AllShare(key, x, m, l, g, n) else was[x]
  }

  // The share full-domain evaluation gives an index.
  function AllShare(key: DpfKey, x: nat, m: nat, l: nat, g: Prgs, n: nat): Block
    requires l <= m && |key.cws| == l && |key.lastCw| == Pow2(m - l) && x < Pow2(m) && n <= 128
  {
    LeafShare(key, x, l, SlotOf(x, m, l), g, n)
  }

  function SlotOf(x: nat, m: nat, l: nat): (e: nat)
    requires l <= m && x < Pow2(m)
    ensures e < Pow2(m - l)
  {
    SlotBound(x, m, l);
    x / Pow2(l)
  }

  lemma SlotBound(x: nat, m: nat, l: nat)
    requires l <= m && x < Pow2(m)
    ensures 0 <= x / Pow2(l) < Pow2(m - l)
  {
    hide Pow2;
    Pow2Add(l, m - l);
    DivMod(x, Pow2(l));
    QuotientBound(x, Pow2(l), x / Pow2(l), x % Pow2(l), Pow2(m - l));
  }

  lemma QuotientBound(x: nat, p: nat, q: int, r: nat, k: nat)
    requires p > 0 && x == q * p + r && r < p && x < k * p
    ensures 0 <= q < k
  {
    if q < 0 { Bits.MulGe(-q, p); assert false; }
    if q >= k { Bits.MulGe(q - k + 1, p); assert false; }
  }

  // Both children together fill what their parent fills.
  lemma FilledChildren(now: seq<Block>, mid: seq<Block>, was: seq<Block>, key: DpfKey, level: nat, pos: nat, m: nat, l: nat,
                       g: Prgs, n: nat)
    requires level < l <= m && |key.cws| == l && |key.lastCw| == Pow2(m - l) && n <= 128 && pos < Pow2(level)
    requires Filled(mid, was, key, level + 1, pos, m, l, g, n)
    requires Filled(now, mid, key, level + 1, Pow2(level) + pos, m, l, g, n)
    ensures Filled(now, was, key, level, pos, m, l, g, n)
  {
    hide Pow2, AllShare, Bit;
    forall x | 0 <= x < |now|
      ensures now[x] == if x < Pow2(m) && x % Pow2(level) == pos then AllShare(key, x, m, l, g, n) else was[x]
    {
      Children(x, level);
      assert 0 <= x % Pow2(level) < Pow2(level);
    }
  }

  // Traverse.
  method Traverse(key: DpfKey, result: array<Block>, level: nat, pos: nat, seed: Block, t: bool, m: nat, l: nat, g: Prgs, n: nat)
    requires level <= l <= m && |key.cws| == l && |key.lastCw| == Pow2(m - l) && n <= 128
    requires result.Length >= Pow2(m) && pos < Pow2(level) && Walk(seed, t) == WalkAt(key, pos, level, g)
    modifies result
    ensures Filled(result[..], old(result[..]), key, level, pos, m, l, g, n)
    decreases l - level
  {
    hide Filled, Pow2, WalkAt, WalkStep;
    if level < l {
      var c := key.cws[level];
      var seedL, tL := Walk1(seed, t, c, false, g);
      var seedR, tR := Walk1(seed, t, c, true, g);
      ChildWalk(key, pos, level, false, g);
      ChildWalk(key, pos, level, true, g);
      Traverse(key, result, level + 1, pos, seedL, tL, m, l, g, n);
      ghost var mid := result[..];
      Traverse(key, result, level + 1, Pow2(level) + pos, seedR, tR, m, l, g, n);
      FilledChildren(result[..], mid, old(result[..]), key, level, pos, m, l, g, n);
    } else {
      WriteLeaf(key, result, pos, seed, t, m, l, g, n);
    }
  }

  // The slots of a leaf go to its position and every 2^l after it.
  method WriteLeaf(key: DpfKey, result: array<Block>, pos: nat, seed: Block, t: bool, m: nat, l: nat, g: Prgs, n: nat)
    requires l <= m && |key.cws| == l && |key.lastCw| == Pow2(m - l) && n <= 128
    requires result.Length >= Pow2(m) && pos < Pow2(l) && Walk(seed, t) == WalkAt(key, pos, l, g)
    modifies result
    ensures Filled(result[..], old(result[..]), key, l, pos, m, l, g, n)
  {
    hide Pow2, WalkAt, Share, AllShare, Val;
    var prg, at, step := g.prg(seed), pos, Pow2(l);
    ghost var was := result[..];
    Pow2Add(l, m - l);
    for e := 0 to Pow2(m - l)
      invariant at == pos + e * step
      invariant prg == Slot(seed, e, g, n)
      invariant forall x :: 0 <= x < result.Length ==>
        result[x] == if x < Pow2(m) && x % step == pos && x / step < e then AllShare(key, x, m, l, g, n) else was[x]
    {
      SlotIndex(pos, e, step, m, l);
      LeafAt(key, pos, at, e, m, l, g, n);
      ghost var before := result[..];
      result[at] := Share(prg, t, key.lastCw[e], key.rank, n);
      forall x | 0 <= x < result.Length
        ensures result[x] == if x < Pow2(m) && x % step == pos && x / step < e + 1 then AllShare(key, x, m, l, g, n) else was[x]
      {
        if x != at { assert result[x] == before[x]; OtherSlot(x, pos, e, step); }
      }
      assert (e + 1) * step == e * step + step;
      at := at + step;
      prg := g.prg(Val(prg, n));
    }
    forall x | 0 <= x < Pow2(m) ensures x / step < Pow2(m - l) { SlotBound(x, m, l); }
  }

  lemma SlotIndex(pos: nat, e: nat, step: nat, m: nat, l: nat)
    requires l <= m && step == Pow2(l) && pos < step && e < Pow2(m - l)
    ensures pos + e * step < Pow2(m) && (pos + e * step) / step == e && (pos + e * step) % step == pos
  {
    hide Pow2;
    DivUnique(pos + e * step, e, pos, step);
    Pow2Add(l, m - l);
    MulMono(e + 1, Pow2(m - l), step);
  }

  lemma OtherSlot(x: nat, pos: nat, e: nat, step: nat)
    requires step > 0 && x != pos + e * step
    ensures !(x % step == pos && x / step == e)
  {
    assert x == x / step * step + x % step;
  }

  lemma LeafAt(key: DpfKey, pos: nat, at: nat, e: nat, m: nat, l: nat, g: Prgs, n: nat)
    requires l <= m && |key.cws| == l && |key.lastCw| == Pow2(m - l) && n <= 128
    requires at < Pow2(m) && at / Pow2(l) == e && at % Pow2(l) == pos
    ensures e < |key.lastCw|
    ensures AllShare(key, at, m, l, g, n)
         == Share(Slot(WalkAt(key, pos, l, g).seed, e, g, n), WalkAt(key, pos, l, g).t, key.lastCw[e], key.rank, n)
  {
    SlotBound(at, m, l);
    WalkResidue(key, at, l, g);
  }

  // DpfEvalAll refuses a key made for single points.
  method DpfEvalAll(key: DpfKey, out: array<Block>, m: nat, l: nat, g: Prgs, n: nat) returns (ok: bool)
    requires l <= m <= 128 && |key.cws| == l && |key.lastCw| == Pow2(m - l) && n <= 128 && out.Length >= Pow2(m)
    modifies out
    ensures ok == key.evalAll
    ensures !ok ==> out[..] == old(out[..])
    ensures ok ==> forall x :: 0 <= x < Pow2(m) ==> out[x] == AllShare(key, x, m, l, g, n)
    ensures forall x :: Pow2(m) <= x < out.Length ==> out[x] == old(out[x])
  {
    hide AllShare;
    ok := key.evalAll;
    if ok {
      Traverse(key, out, 0, 0, key.seed, key.rank, m, l, g, n);
      FilledAll(out[..], old(out[..]), key, m, l, g, n);
    }
  }

  lemma FilledAll(now: seq<Block>, was: seq<Block>, key: DpfKey, m: nat, l: nat, g: Prgs, n: nat)
    requires l <= m && |key.cws| == l && |key.lastCw| == Pow2(m - l) && n <= 128
    requires Filled(now, was, key, 0, 0, m, l, g, n) && |now| >= Pow2(m)
    ensures forall x :: 0 <= x < |now| ==> now[x] == if x < Pow2(m) then AllShare(key, x, m, l, g, n) else was[x]
  {
    hide AllShare;
    forall x: nat | x < |now| ensures x % Pow2(0) == 0 { DivUnique(x, x, 0, 1); }
  }

  // ---- Correctness --------------------------------------------------------

  ghost predicate Agree(x: nat, alpha: nat, i: nat) {
    forall j :: 0 <= j < i ==> Bit(x, j) == Bit(alpha, j)
  }

  lemma AgreeVal(x: nat, y: nat, i: nat)
    ensures Agree(x, y, i) <==> x % Pow2(i) == y % Pow2(i)
  {
    forall j | 0 <= j < i
      ensures Bit(x, j) == Bit(x % Pow2(i), j) && Bit(y, j) == Bit(y % Pow2(i), j)
    {
      BitOfRemainder(x, i, j);
      BitOfRemainder(y, i, j);
    }
    if Agree(x, y, i) {
      forall j | 0 <= j < i ensures Bit(x % Pow2(i), j) == Bit(y % Pow2(i), j) {
        assert Bit(x, j) == Bit(y, j);
      }
      BitsInjective(x % Pow2(i), y % Pow2(i), i);
    }
  }

  // On the path of alpha the walks are the generator's, with different flags; off
  // the path they have merged.
  ghost predicate WalkInv(k0: DpfKey, k1: DpfKey, alpha: Block, x: nat, i: nat, g: Prgs)
    requires i <= |k0.cws| == |k1.cws|
  {
    var g0, w0, w1 := GenAt(k0.seed, k1.seed, alpha, i, g), WalkAt(k0, x, i, g), WalkAt(k1, x, i, g);
    if Agree(x, alpha, i) then w0 == g0.w0 && w1 == g0.w1 && w0.t != w1.t else w0 == w1
  }

  lemma LoseMerges(g0: Gen, bit: bool, g: Prgs)
    requires g0.w0.t != g0.w1.t
    ensures WalkStep(g0.w0, GenCw(g0, bit, g), !bit, g) == WalkStep(g0.w1, GenCw(g0, bit, g), !bit, g)
  {
    var x, y := SideSeed(g.split(g0.w0.seed), !bit), SideSeed(g.split(g0.w1.seed), !bit);
    XorCancel(x, y);
    XorCancel(y, x);
    XorComm(x, y);
  }

  lemma KeepDiffers(g0: Gen, bit: bool, g: Prgs)
    requires g0.w0.t != g0.w1.t
    ensures GenNext(g0, bit, g).w0.t != GenNext(g0, bit, g).w1.t
  {
  }

  // The facts about the keys that the walks need.
  lemma KeyFacts(k0: DpfKey, k1: DpfKey, mk0: Block, mk1: Block, alpha: Block, beta: Block, m: nat, l: nat, g: Prgs, n: nat)
    requires l <= m <= 128 && n <= 128 && KeysFor(k0, k1, mk0, mk1, alpha, beta, m, l, g, n)
    ensures k0.rank == false && k1.rank == true && k0.seed == mk0 && k1.seed == mk1
    ensures |k0.cws| == |k1.cws| == l && k0.cws == k1.cws && k0.lastCw == k1.lastCw && |k0.lastCw| == Pow2(m - l)
    ensures forall i :: 0 <= i < l ==> k0.cws[i] == GenCw(GenAt(mk0, mk1, alpha, i, g), Bit(alpha, i), g)
    ensures forall e :: 0 <= e < Pow2(m - l) ==>
      k0.lastCw[e] == LastCw(GenAt(mk0, mk1, alpha, l, g), e, Target(alpha, beta, m, l, e), g, n)
  {
  }

  lemma {:induction false} WalkInvHolds(k0: DpfKey, k1: DpfKey, alpha: Block, x: nat, i: nat, g: Prgs)
    requires k0.rank == false && k1.rank == true && k0.cws == k1.cws && i <= |k0.cws|
    requires forall j :: 0 <= j < i ==> k0.cws[j] == GenCw(GenAt(k0.seed, k1.seed, alpha, j, g), Bit(alpha, j), g)
    ensures WalkInv(k0, k1, alpha, x, i, g)
    decreases i
  {
    hide GenCw, WalkStep, Xor, Bit;
    if i > 0 {
      WalkInvHolds(k0, k1, alpha, x, i - 1, g);
      WalkInvStep(k0, k1, alpha, x, i - 1, g);
    }
  }

  lemma WalkInvStep(k0: DpfKey, k1: DpfKey, alpha: Block, x: nat, i: nat, g: Prgs)
    requires k0.rank == false && k1.rank == true && k0.cws == k1.cws && i < |k0.cws|
    requires k0.cws[i] == GenCw(GenAt(k0.seed, k1.seed, alpha, i, g), Bit(alpha, i), g)
    requires WalkInv(k0, k1, alpha, x, i, g)
    ensures WalkInv(k0, k1, alpha, x, i + 1, g)
  {
    hide Bit, GenCw, WalkStep, Xor;
    var g0, bit := GenAt(k0.seed, k1.seed, alpha, i, g), Bit(alpha, i);
    AgreeStep(x, alpha, i);
    if Agree(x, alpha, i) {
      if Bit(x, i) == bit {
        KeepDiffers(g0, bit, g);
      } else {
        LoseMerges(g0, bit, g);
      }
    }
  }

  lemma AgreeStep(x: nat, alpha: nat, i: nat)
    ensures Agree(x, alpha, i + 1) <==> Agree(x, alpha, i) && Bit(x, i) == Bit(alpha, i)
  {
    hide Bit;
  }

  // The shares of slot e sum to its target on the path and to 0 off it.
  lemma LeafSum(k0: DpfKey, k1: DpfKey, mk0: Block, mk1: Block, alpha: Block, beta: Block, x: nat, e: nat,
                m: nat, l: nat, g: Prgs, n: nat)
    requires l <= m <= 128 && n <= 128 && KeysFor(k0, k1, mk0, mk1, alpha, beta, m, l, g, n)
    requires e < Pow2(m - l)
    ensures |k0.cws| == |k1.cws| == l && e < |k0.lastCw| == |k1.lastCw|
    ensures Cong(Int(LeafShare(k0, x, l, e, g, n)) + Int(LeafShare(k1, x, l, e, g, n)),
                 if Agree(x, alpha, l) then Int(Target(alpha, beta, m, l, e)) else 0, Pow2(n))
  {
    hide Cong, KeysFor, GenAt, GenCw, LastCw, Target, Slot, Share, WalkAt, Bit;
    KeyFacts(k0, k1, mk0, mk1, alpha, beta, m, l, g, n);
    WalkInvHolds(k0, k1, alpha, x, l, g);
    var w0, w1 := WalkAt(k0, x, l, g), WalkAt(k1, x, l, g);
    var p0, p1 := Slot(w0.seed, e, g, n), Slot(w1.seed, e, g, n);
    var cw := k0.lastCw[e];
    var x0, x1 := Share(p0, w0.t, cw, false, n), Share(p1, w1.t, cw, true, n);
    if Agree(x, alpha, l) {
      CongRefl(cw, Pow2(n));
      LoseArith(x0, x1, p0, p1, cw, cw, w1.t, 0, Target(alpha, beta, m, l, e), Pow2(n));
    } else {
      var p := Int(p0) + (if w0.t then Int(cw) else 0);
      AddCong(x0, Sign(false) * p, x1, Sign(true) * p, Pow2(n));
    }
  }

  // DPF correctness: the two outputs sum to beta at alpha and to 0 elsewhere.
  lemma DpfCorrect(k0: DpfKey, k1: DpfKey, mk0: Block, mk1: Block, alpha: Block, beta: Block, x: Block, m: nat, g: Prgs, n: nat)
    requires m <= 128 && n <= 128 && KeysFor(k0, k1, mk0, mk1, alpha, beta, m, m, g, n)
    ensures |k0.cws| == |k1.cws| == m && 0 < |k0.lastCw| == |k1.lastCw|
    ensures (Int(Val(LeafShare(k0, x, m, 0, g, n), n)) + Int(Val(LeafShare(k1, x, m, 0, g, n), n))) % Pow2(n)
         == if Val(x, m) == Val(alpha, m) then Val(beta, n) else 0
  {
    hide KeysFor, LeafShare, Agree, Cong;
    LeafSum(k0, k1, mk0, mk1, alpha, beta, x, 0, m, m, g, n);
    AgreeVal(x, alpha, m);
    DivUnique(Val(alpha, m), 0, Val(alpha, m), Pow2(m));
    SumOfVals(LeafShare(k0, x, m, 0, g, n), LeafShare(k1, x, m, 0, g, n),
              if Agree(x, alpha, m) then beta else 0, n);
  }

  lemma SumOfVals(a: Block, b: Block, c: Block, n: nat)
    requires n <= 128 && Cong(Int(a) + Int(b), c, Pow2(n))
    ensures (Int(Val(a, n)) + Int(Val(b, n))) % Pow2(n) == Val(c, n)
    ensures (Int(a) + Int(b)) % Pow2(n) == Val(c, n)
    ensures Val(0, n) == 0
  {
    SmallMod(0, Pow2(n));
    AddCong(Val(a, n), a, Val(b, n), b, Pow2(n));
  }

  // Full-domain agreement: the two arrays sum to the same point function, for
  // every termination level.
  lemma DpfAllCorrect(k0: DpfKey, k1: DpfKey, mk0: Block, mk1: Block, alpha: Block, beta: Block, x: nat,
                      m: nat, l: nat, g: Prgs, n: nat)
    requires l <= m <= 128 && n <= 128 && KeysFor(k0, k1, mk0, mk1, alpha, beta, m, l, g, n)
    requires x < Pow2(m)
    ensures |k0.cws| == |k1.cws| == l && |k0.lastCw| == |k1.lastCw| == Pow2(m - l)
    ensures (Int(AllShare(k0, x, m, l, g, n)) + Int(AllShare(k1, x, m, l, g, n))) % Pow2(n)
         == if x == Val(alpha, m) then Val(beta, n) else 0
  {
    hide KeysFor, LeafShare, Agree, Cong, Pow2;
    KeyFacts(k0, k1, mk0, mk1, alpha, beta, m, l, g, n);
    SlotBound(x, m, l);
    var e, a := x / Pow2(l), Val(alpha, m);
    LeafSum(k0, k1, mk0, mk1, alpha, beta, x, e, m, l, g, n);
    AgreeVal(x, alpha, l);
    ValMod(alpha, m, l);
    Decompose(x, a, Pow2(l));
    SumOfVals(LeafShare(k0, x, l, e, g, n), LeafShare(k1, x, l, e, g, n),
              if Agree(x, alpha, l) then Target(alpha, beta, m, l, e) else 0, n);
  }

  lemma Decompose(x: nat, a: nat, p: nat)
    requires p > 0
    ensures x == a <==> x / p == a / p && x % p == a % p
  {
    assert x == x / p * p + x % p;
    assert a == a / p * p + a % p;
  }

  lemma ValMod(alpha: Block, m: nat, l: nat)
    requires l <= m <= 128
    ensures Val(alpha, m) % Pow2(l) == alpha % Pow2(l)
  {
    forall j | 0 <= j < l ensures Bit(alpha, j) == Bit(alpha % Pow2(m), j) { BitOfRemainder(alpha, m, j); }
    AgreeVal(Val(alpha, m), alpha, l);
  }

  // Both parties end to end, one point.
  method DpfRun(alpha: Block, beta: Block, mk0: Block, mk1: Block, x: Block, m: nat, g: Prgs, n: nat) returns (sum: Block)
    requires m <= 128 && n <= 128
    ensures sum == if Val(x, m) == Val(alpha, m) then Val(beta, n) else 0
  {
    hide KeysFor, LeafShare, Add, Val, Cong;
    var k0, k1 := DpfKeyGen(alpha, beta, mk0, mk1, false, m, m, g, n);
    DpfCorrect(k0, k1, mk0, mk1, alpha, beta, x, m, g, n);
    var y0 := DpfEval(k0, x, m, g, n);
    var y1 := DpfEval(k1, x, m, g, n);
    ValEq(Add(y0.value, y1.value, n), Int(y0.value) + Int(y1.value), n);
    sum := Val(Add(y0.value, y1.value, n), n);
  }

  // Both parties end to end, the whole domain.
  method DpfRunAll(alpha: Block, beta: Block, mk0: Block, mk1: Block, m: nat, l: nat, g: Prgs, n: nat) returns (sums: array<Block>)
    requires l <= m <= 128 && n <= 128
    ensures sums.Length == Pow2(m)
    ensures forall x :: 0 <= x < Pow2(m) ==> sums[x] == if x == Val(alpha, m) then Val(beta, n) else 0
  {
    hide KeysFor, AllShare, Add, Val, Cong, Pow2;
    var k0, k1 := DpfKeyGen(alpha, beta, mk0, mk1, true, m, l, g, n);
    KeyFacts(k0, k1, mk0, mk1, alpha, beta, m, l, g, n);
    var y0, y1 := new Block[Pow2(m)], new Block[Pow2(m)];
    var _ := DpfEvalAll(k0, y0, m, l, g, n);
    var _ := DpfEvalAll(k1, y1, m, l, g, n);
    sums := new Block[Pow2(m)];
    for x := 0 to Pow2(m)
      invariant forall j :: 0 <= j < Pow2(m) ==> y0[j] == AllShare(k0, j, m, l, g, n) && y1[j] == AllShare(k1, j, m, l, g, n)
      invariant forall j :: 0 <= j < x ==> sums[j] == if j == Val(alpha, m) then Val(beta, n) else 0
    {
      DpfAllCorrect(k0, k1, mk0, mk1, alpha, beta, x, m, l, g, n);
      ValEq(Add(y0[x], y1[x], n), Int(y0[x]) + Int(y1[x]), n);
      sums[x] := Val(Add(y0[x], y1[x], n), n);
    }
  }
}
