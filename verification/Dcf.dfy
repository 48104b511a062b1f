// The distributed comparison function: key generation runs both parties' walks
// down the tree along alpha, an evaluator walks along its own input.
module Dcf {
  import opened ModArith
  import opened Bits
  import opened Blocks
  import opened Ge2n

  // What SplitDcfSeed derives from a seed.
  datatype Split = Split(seedL: Block, vSeedL: Block, tL: bool, seedR: Block, vSeedR: Block, tR: bool)

  datatype CW = CW(seed: Block, lt: bool, rt: bool, v: Block)

  datatype DcfKey = DcfKey(rank: bool, seed: Block, cws: seq<CW>, lastCw: Block)

  // The generators: SplitDcfSeed and DcfPRG.
  datatype Prgs = Prgs(split: Block -> Split, prg: Block -> Block)

  function SideSeed(s: Split, right: bool): Block { if right then s.seedR else s.seedL }
  function SideV(s: Split, right: bool): Block { if right then s.vSeedR else s.vSeedL }
  function SideT(s: Split, right: bool): bool { if right then s.tR else s.tL }
  function SideCw(c: CW, right: bool): bool { if right then c.rt else c.lt }

  // ---- One step of an evaluator -------------------------------------------

  datatype Walk = Walk(seed: Block, t: bool)

  function WalkStep(w: Walk, c: CW, right: bool, g: Prgs): Walk {
    var s := g.split(w.seed);
    Walk(if w.t then Xor(SideSeed(s, right), c.seed) else SideSeed(s, right),
         SideT(s, right) != (w.t && SideCw(c, right)))
  }

  // What a step adds to the output of the party of this rank.
  function Share(w: Walk, c: CW, right: bool, rank: bool, g: Prgs, n: nat): (r: Block)
    requires n <= 128
    ensures Cong(r, Sign(rank) * (Int(g.prg(SideV(g.split(w.seed), right))) + (if w.t then Int(c.v) else 0)), Pow2(n))
  {
    var p := g.prg(SideV(g.split(w.seed), right));
    if w.t then
      var a := Add(p, c.v, n);
      MulCong(Sign(rank), Sign(rank), a, Int(p) + Int(c.v), Pow2(n));
      ReverseIf(rank, a, n)
    else ReverseIf(rank, p, n)
  }

  function LastShare(w: Walk, lastCw: Block, rank: bool, g: Prgs, n: nat): (r: Block)
    requires n <= 128
    ensures Cong(r, Sign(rank) * (Int(g.prg(w.seed)) + (if w.t then Int(lastCw) else 0)), Pow2(n))
  {
    var p := g.prg(w.seed);
    if w.t then
      var a := Add(p, lastCw, n);
      MulCong(Sign(rank), Sign(rank), a, Int(p) + Int(lastCw), Pow2(n));
      ReverseIf(rank, a, n)
    else ReverseIf(rank, p, n)
  }

  // The state and output of an evaluator after i levels.
  function WalkAt(key: DcfKey, x: Block, m: nat, i: nat, g: Prgs): Walk
    requires i <= m <= 128 && i <= |key.cws|
  {
    if i == 0 then Walk(key.seed, key.rank)
    else WalkStep(WalkAt(key, x, m, i - 1, g), key.cws[i - 1], Bit(x, m - i), g)
  }

  function OutAt(key: DcfKey, x: Block, m: nat, i: nat, g: Prgs, n: nat): Block
    requires i <= m <= 128 && i <= |key.cws| && n <= 128
  {
    if i == 0 then 0
    else Add(OutAt(key, x, m, i - 1, g, n),
             Share(WalkAt(key, x, m, i - 1, g), key.cws[i - 1], Bit(x, m - i), key.rank, g, n), n)
  }

  function Output(key: DcfKey, x: Block, m: nat, g: Prgs, n: nat): Block
    requires m <= 128 && m == |key.cws| && n <= 128
  {
    Add(OutAt(key, x, m, m, g, n), LastShare(WalkAt(key, x, m, m, g), key.lastCw, key.rank, g, n), n)
  }

  // DcfEval.
  method DcfEval(key: DcfKey, x: Block, m: nat, g: Prgs, n: nat) returns (out: Block)
    requires m <= 128 && m == |key.cws| && n <= 128
    ensures out == Output(key, x, m, g, n)
  {
    hide Share, LastShare, Add;
    var seed: Block, t := key.seed, key.rank;
    out := 0;
    for i := 0 to m
      invariant Walk(seed, t) == WalkAt(key, x, m, i, g)
      invariant out == OutAt(key, x, m, i, g, n)
    {
      var c := key.cws[i];
      var s := g.split(seed);
      var seedL := if t then Xor(s.seedL, c.seed) else s.seedL;
      var tL := s.tL != (t && c.lt);
      var seedR := if t then Xor(s.seedR, c.seed) else s.seedR;
      var tR := s.tR != (t && c.rt);
      if Bit(x, m - i - 1) {
        out := Add(out, Share(Walk(seed, t), c, true, key.rank, g, n), n);
        seed, t := seedR, tR;
      } else {
        out := Add(out, Share(Walk(seed, t), c, false, key.rank, g, n), n);
        seed, t := seedL, tL;
      }
    }
    out := Add(out, LastShare(Walk(seed, t), key.lastCw, key.rank, g, n), n);
  }

  // ---- Key generation -----------------------------------------------------

  // The two walks along alpha and the value accumulated on the path.
  datatype Gen = Gen(w0: Walk, w1: Walk, v: Block)

  // The value correction before it is truncated.
  function CwV(g0: Gen, bit: bool, beta: Block, g: Prgs, n: nat): (r: Block)
    requires n <= 128
    ensures
      var l0, l1 := g.prg(SideV(g.split(g0.w0.seed), !bit)), g.prg(SideV(g.split(g0.w1.seed), !bit));
      Cong(r, Sign(g0.w1.t) * (Int(l1) - Int(l0) - Int(g0.v) + (if bit then Int(beta) else 0)), Pow2(n))
  {
    var l0, l1 := g.prg(SideV(g.split(g0.w0.seed), !bit)), g.prg(SideV(g.split(g0.w1.seed), !bit));
    CwVCong(l0, l1, g0.v, bit, beta, g0.w1.t, n);
    var c := Add(Add(l1, Reverse(l0, n), n), Reverse(g0.v, n), n);
    if g0.w1.t then
      if bit then Add(Reverse(c, n), Reverse(beta, n), n) else Reverse(c, n)
    else
      if bit then Add(c, beta, n) else c
  }

  lemma CwVCong(l0: Block, l1: Block, v: Block, bit: bool, beta: Block, t1: bool, n: nat)
    requires n <= 128
    ensures
      var c := Add(Add(l1, Reverse(l0, n), n), Reverse(v, n), n);
      var r := if t1 then (if bit then Add(Reverse(c, n), Reverse(beta, n), n) else Reverse(c, n))
               else (if bit then Add(c, beta, n) else c);
      Cong(r, Sign(t1) * (Int(l1) - Int(l0) - Int(v) + (if bit then Int(beta) else 0)), Pow2(n))
  {
    hide Cong, Add, Reverse;
    var m := Pow2(n);
    var d := Int(l1) - Int(l0) - Int(v);
    var c := Diff3(l0, l1, v, n);
    var b := if bit then Int(beta) else 0;
    if t1 {
      NegCong(c, d, m);
      CongTrans(Reverse(c, n), -Int(c), -d, m);
      if bit {
        AddThrough(Add(Reverse(c, n), Reverse(beta, n), n), Reverse(c, n), Reverse(beta, n), -d, -Int(beta), m);
      }
    } else if bit {
      CongRefl(beta, m);
      AddThrough(Add(c, beta, n), c, beta, d, beta, m);
    }
    assert Sign(t1) * (d + b) == if t1 then -d - b else d + b;
  }

  // l1 - l0 - v in store arithmetic.
  lemma Diff3(l0: Block, l1: Block, v: Block, n: nat) returns (c: Block)
    requires n <= 128
    ensures c == Add(Add(l1, Reverse(l0, n), n), Reverse(v, n), n)
    ensures Cong(c, Int(l1) - Int(l0) - Int(v), Pow2(n))
  {
    hide Cong, Add, Reverse;
    var m := Pow2(n);
    CongRefl(l1, m);
    var a := Add(l1, Reverse(l0, n), n);
    AddThrough(a, l1, Reverse(l0, n), l1, -Int(l0), m);
    c := Add(a, Reverse(v, n), n);
    AddThrough(c, a, Reverse(v, n), Int(l1) - Int(l0), -Int(v), m);
  }

  function GenCw(g0: Gen, bit: bool, beta: Block, g: Prgs, n: nat): CW
    requires n <= 128
  {
    var s0, s1 := g.split(g0.w0.seed), g.split(g0.w1.seed);
    CW(Xor(SideSeed(s0, !bit), SideSeed(s1, !bit)),
       ((s0.tL != s1.tL) != bit) != true,
       (s0.tR != s1.tR) != bit,
       Val(CwV(g0, bit, beta, g, n), n))
  }

  // v + keep0 - keep1, plus or minus the correction.
  function NextV(g0: Gen, bit: bool, beta: Block, g: Prgs, n: nat): (r: Block)
    requires n <= 128
    ensures
      var k0, k1 := g.prg(SideV(g.split(g0.w0.seed), bit)), g.prg(SideV(g.split(g0.w1.seed), bit));
      Cong(r, Int(g0.v) + Int(k0) - Int(k1) + Sign(g0.w1.t) * Int(CwV(g0, bit, beta, g, n)), Pow2(n))
  {
    var k0, k1 := g.prg(SideV(g.split(g0.w0.seed), bit)), g.prg(SideV(g.split(g0.w1.seed), bit));
    var c := CwV(g0, bit, beta, g, n);
    NextVCong(g0.v, k0, k1, c, g0.w1.t, n);
    Add(g0.v, Add(Add(Reverse(k1, n), k0, n), ReverseIf(g0.w1.t, c, n), n), n)
  }

  lemma NextVCong(v: Block, k0: Block, k1: Block, c: Block, t1: bool, n: nat)
    requires n <= 128
    ensures Cong(Add(v, Add(Add(Reverse(k1, n), k0, n), ReverseIf(t1, c, n), n), n),
                 Int(v) + Int(k0) - Int(k1) + Sign(t1) * Int(c), Pow2(n))
  {
    hide Cong, Add, Reverse, ReverseIf;
    var m := Pow2(n);
    CongRefl(k0, m);
    CongRefl(v, m);
    var a := Add(Reverse(k1, n), k0, n);
    AddThrough(a, Reverse(k1, n), k0, -Int(k1), k0, m);
    var b := Add(a, ReverseIf(t1, c, n), n);
    AddThrough(b, a, ReverseIf(t1, c, n), -Int(k1) + Int(k0), Sign(t1) * Int(c), m);
    AddThrough(Add(v, b, n), v, b, v, -Int(k1) + Int(k0) + Sign(t1) * Int(c), m);
  }

  function GenNext(g0: Gen, bit: bool, beta: Block, g: Prgs, n: nat): Gen
    requires n <= 128
  {
    var c := GenCw(g0, bit, beta, g, n);
    Gen(WalkStep(g0.w0, c, bit, g), WalkStep(g0.w1, c, bit, g), NextV(g0, bit, beta, g, n))
  }

  function GenAt(mk0: Block, mk1: Block, alpha: Block, beta: Block, m: nat, i: nat, g: Prgs, n: nat): Gen
    requires i <= m <= 128 && n <= 128
  {
    if i == 0 then Gen(Walk(mk0, false), Walk(mk1, true), 0)
    else GenNext(GenAt(mk0, mk1, alpha, beta, m, i - 1, g, n), Bit(alpha, m - i), beta, g, n)
  }

  // Both keys carry the same correction words.
  ghost predicate KeysFor(k0: DcfKey, k1: DcfKey, mk0: Block, mk1: Block, alpha: Block, beta: Block, m: nat, g: Prgs, n: nat)
    requires m <= 128 && n <= 128
  {
    && k0.rank == false && k1.rank == true && k0.seed == mk0 && k1.seed == mk1
    && k0.cws == k1.cws && |k0.cws| == m && k0.lastCw == k1.lastCw
    && (forall i :: 0 <= i < m ==>
         k0.cws[i] == GenCw(GenAt(mk0, mk1, alpha, beta, m, i, g, n), Bit(alpha, m - i - 1), beta, g, n))
    && k0.lastCw == LastCw(GenAt(mk0, mk1, alpha, beta, m, m, g, n), g, n)
  }

  function LastCw(g0: Gen, g: Prgs, n: nat): (r: Block)
    requires n <= 128
    ensures Cong(r, Sign(g0.w1.t) * (Int(g.prg(g0.w1.seed)) - Int(g.prg(g0.w0.seed)) - Int(g0.v)), Pow2(n))
  {
    var p0, p1 := g.prg(g0.w0.seed), g.prg(g0.w1.seed);
    var c := Add(Add(Reverse(p0, n), p1, n), Reverse(g0.v, n), n);
    LastCwCong(p0, p1, g0.v, g0.w1.t, n);
    Val(ReverseIf(g0.w1.t, c, n), n)
  }

  lemma LastCwCong(p0: Block, p1: Block, v: Block, t1: bool, n: nat)
    requires n <= 128
    ensures
      var c := Add(Add(Reverse(p0, n), p1, n), Reverse(v, n), n);
      Cong(Val(ReverseIf(t1, c, n), n), Sign(t1) * (Int(p1) - Int(p0) - Int(v)), Pow2(n))
  {
    hide Cong, Add, Reverse, ReverseIf, Val;
    var m := Pow2(n);
    CongRefl(p1, m);
    var a := Add(Reverse(p0, n), p1, n);
    AddThrough(a, Reverse(p0, n), p1, -Int(p0), p1, m);
    var c := Add(a, Reverse(v, n), n);
    AddThrough(c, a, Reverse(v, n), -Int(p0) + Int(p1), -Int(v), m);
    CongRefl(Sign(t1), m);
    MulCong(Sign(t1), Sign(t1), c, Int(p1) - Int(p0) - Int(v), m);
    CongTrans(ReverseIf(t1, c, n), Sign(t1) * Int(c), Sign(t1) * (Int(p1) - Int(p0) - Int(v)), m);
    CongTrans(Val(ReverseIf(t1, c, n), n), ReverseIf(t1, c, n), Sign(t1) * (Int(p1) - Int(p0) - Int(v)), m);
  }

  // One level of the generator: SideSeed and SideT of bit are its keep, of !bit
  // its lose.
  method GenLevel(state: Gen, bit: bool, beta: Block, g: Prgs, n: nat) returns (c: CW, next: Gen)
    requires n <= 128
    ensures c == GenCw(state, bit, beta, g, n) && next == GenNext(state, bit, beta, g, n)
  {
    hide CwV, NextV, Xor, Val;
    var t0, t1 := state.w0.t, state.w1.t;
    var a, b := g.split(state.w0.seed), g.split(state.w1.seed);
    var keep0, keep1, lose0, lose1 := SideSeed(a, bit), SideSeed(b, bit), SideSeed(a, !bit), SideSeed(b, !bit);
    var cwSeed := Xor(lose0, lose1);
    var cwL := ((a.tL != b.tL) != bit) != true;
    var cwR := (a.tR != b.tR) != bit;
    var cwKeep := if bit then cwR else cwL;
    c := CW(cwSeed, cwL, cwR, Val(CwV(state, bit, beta, g, n), n));
    next := Gen(Walk(if t0 then Xor(keep0, cwSeed) else keep0, SideT(a, bit) != (t0 && cwKeep)),
                Walk(if t1 then Xor(keep1, cwSeed) else keep1, SideT(b, bit) != (t1 && cwKeep)),
                NextV(state, bit, beta, g, n));
  }

  lemma GenAtStep(mk0: Block, mk1: Block, alpha: Block, beta: Block, m: nat, i: nat, g: Prgs, n: nat)
    requires i < m <= 128 && n <= 128
    ensures GenAt(mk0, mk1, alpha, beta, m, i + 1, g, n)
         == GenNext(GenAt(mk0, mk1, alpha, beta, m, i, g, n), Bit(alpha, m - i - 1), beta, g, n)
    ensures GenAt(mk0, mk1, alpha, beta, m, 0, g, n) == Gen(Walk(mk0, false), Walk(mk1, true), 0)
  {
  }

  // DcfKeyGen.
  method DcfKeyGen(alpha: Block, beta: Block, mk0: Block, mk1: Block, m: nat, g: Prgs, n: nat)
    returns (k0: DcfKey, k1: DcfKey)
    requires m <= 128 && n <= 128
    ensures KeysFor(k0, k1, mk0, mk1, alpha, beta, m, g, n)
  {
    hide GenCw, GenNext, LastCw, Bit;
    var state := Gen(Walk(mk0, false), Walk(mk1, true), 0);
    var cws: seq<CW> := [];
    for i := 0 to m
      invariant state == GenAt(mk0, mk1, alpha, beta, m, i, g, n)
      invariant |cws| == i
      invariant forall j :: 0 <= j < i ==>
        cws[j] == GenCw(GenAt(mk0, mk1, alpha, beta, m, j, g, n), Bit(alpha, m - j - 1), beta, g, n)
    {
      GenAtStep(mk0, mk1, alpha, beta, m, i, g, n);
      var c, next := GenLevel(state, Bit(alpha, m - i - 1), beta, g, n);
      cws := cws + [c];
      state := next;
    }
    var last := LastCw(state, g, n);
    k0 := DcfKey(false, mk0, cws, last);
    k1 := DcfKey(true, mk1, cws, last);
  }

  // ---- Correctness --------------------------------------------------------

  // On the path of alpha the two shares add up to what the generator tracks.
  lemma KeepShares(g0: Gen, bit: bool, beta: Block, g: Prgs, n: nat)
    requires n <= 128 && g0.w0.t != g0.w1.t
    ensures
      var c := GenCw(g0, bit, beta, g, n);
      Cong(Int(Share(g0.w0, c, bit, false, g, n)) + Int(Share(g0.w1, c, bit, true, g, n)),
           Int(NextV(g0, bit, beta, g, n)) - Int(g0.v), Pow2(n))
  {
    hide Cong, CwV, NextV, Share, Xor, Val;
    var c, m := GenCw(g0, bit, beta, g, n), Pow2(n);
    var x0, x1 := Share(g0.w0, c, bit, false, g, n), Share(g0.w1, c, bit, true, g, n);
    var k0, k1 := g.prg(SideV(g.split(g0.w0.seed), bit)), g.prg(SideV(g.split(g0.w1.seed), bit));
    var cw := CwV(g0, bit, beta, g, n);
    KeepArith(x0, x1, k0, k1, c.v, cw, g0.w1.t, g0.v, NextV(g0, bit, beta, g, n), m);
  }

  lemma KeepArith(x0: int, x1: int, k0: int, k1: int, cv: int, cw: int, t1: bool, v: int, v': int, m: nat)
    requires m > 0 && Cong(cv, cw, m)
    requires Cong(x0, Sign(false) * (k0 + (if !t1 then cv else 0)), m)
    requires Cong(x1, Sign(true) * (k1 + (if t1 then cv else 0)), m)
    requires Cong(v', v + k0 - k1 + Sign(t1) * cw, m)
    ensures Cong(x0 + x1, v' - v, m)
  {
    hide Cong;
    var a, b := Sign(t1) * cv, Sign(t1) * cw;
    var e, f := k0 - k1 + a, k0 - k1 + b;
    AddCong(x0, Sign(false) * (k0 + (if !t1 then cv else 0)), x1, Sign(true) * (k1 + (if t1 then cv else 0)), m);
    SharesAdd(k0, k1, cv, t1);
    CongRefl(Sign(t1), m);
    MulCong(Sign(t1), Sign(t1), cv, cw, m);
    KeepTail(k0 - k1, a, b, v, v', m);
    CongTrans(x0 + x1, e, f, m);
    CongTrans(x0 + x1, f, v' - v, m);
  }

  lemma SharesAdd(k0: int, k1: int, cv: int, t1: bool)
    ensures Sign(false) * (k0 + (if !t1 then cv else 0)) + Sign(true) * (k1 + (if t1 then cv else 0)) == k0 - k1 + Sign(t1) * cv
  {
  }

  lemma KeepTail(k: int, a: int, b: int, v: int, v': int, m: nat)
    requires m > 0 && Cong(a, b, m) && Cong(v', v + k + b, m)
    ensures Cong(k + a, k + b, m) && Cong(k + b, v' - v, m)
  {
    hide Cong;
    CongRefl(k, m);
    AddCong(k, k, a, b, m);
    CongRefl(v, m);
    SubCong(v', v + k + b, v, v, m);
    CongSym(v' - v, k + b, m);
  }

  // Leaving the path cancels what was accumulated and leaves beta on the left.
  lemma LoseShares(g0: Gen, bit: bool, beta: Block, g: Prgs, n: nat)
    requires n <= 128 && g0.w0.t != g0.w1.t
    ensures
      var c := GenCw(g0, bit, beta, g, n);
      Cong(Int(Share(g0.w0, c, !bit, false, g, n)) + Int(Share(g0.w1, c, !bit, true, g, n)),
           (if bit then Int(beta) else 0) - Int(g0.v), Pow2(n))
  {
    hide Cong, CwV, NextV, Share, Xor, Val;
    var c, m := GenCw(g0, bit, beta, g, n), Pow2(n);
    var x0, x1 := Share(g0.w0, c, !bit, false, g, n), Share(g0.w1, c, !bit, true, g, n);
    var l0, l1 := g.prg(SideV(g.split(g0.w0.seed), !bit)), g.prg(SideV(g.split(g0.w1.seed), !bit));
    var cw := CwV(g0, bit, beta, g, n);
    LoseArith(x0, x1, l0, l1, c.v, cw, g0.w1.t, g0.v, if bit then Int(beta) else 0, m);
  }

  // Off the path both parties are in the same state and their shares cancel.
  lemma SameShares(w: Walk, c: CW, right: bool, g: Prgs, n: nat)
    requires n <= 128
    ensures Cong(Int(Share(w, c, right, false, g, n)) + Int(Share(w, c, right, true, g, n)), 0, Pow2(n))
  {
    var p := Int(g.prg(SideV(g.split(w.seed), right))) + (if w.t then Int(c.v) else 0);
    AddCong(Share(w, c, right, false, g, n), Sign(false) * p, Share(w, c, right, true, g, n), Sign(true) * p, Pow2(n));
  }

  // The walks part ways exactly where the input does: off the path they merge.
  lemma LoseMerges(g0: Gen, bit: bool, beta: Block, g: Prgs, n: nat)
    requires n <= 128 && g0.w0.t != g0.w1.t
    ensures
      var c := GenCw(g0, bit, beta, g, n);
      WalkStep(g0.w0, c, !bit, g) == WalkStep(g0.w1, c, !bit, g)
  {
    var x, y := SideSeed(g.split(g0.w0.seed), !bit), SideSeed(g.split(g0.w1.seed), !bit);
    XorCancel(x, y);
    XorCancel(y, x);
    XorComm(x, y);
  }

  // On the path the control bits stay different.
  lemma KeepDiffers(g0: Gen, bit: bool, beta: Block, g: Prgs, n: nat)
    requires n <= 128 && g0.w0.t != g0.w1.t
    ensures GenNext(g0, bit, beta, g, n).w0.t != GenNext(g0, bit, beta, g, n).w1.t
  {
  }

  // The invariant after i levels: as long as x and alpha agree the walks are the
  // generator's and the outputs sum to its value; from the first difference on
  // the walks coincide and the outputs sum to beta if x is below alpha, else 0.
  ghost predicate LevelInv(k0: DcfKey, k1: DcfKey, alpha: Block, beta: Block, x: Block, m: nat, i: nat, g: Prgs, n: nat)
    requires i <= m <= 128 && n <= 128 && |k0.cws| == |k1.cws| == m
  {
    var g0 := GenAt(k0.seed, k1.seed, alpha, beta, m, i, g, n);
    var w0, w1 := WalkAt(k0, x, m, i, g), WalkAt(k1, x, m, i, g);
    var sum := Int(OutAt(k0, x, m, i, g, n)) + Int(OutAt(k1, x, m, i, g, n));
    var px, pa := TopBits(x, m, i), TopBits(alpha, m, i);
    if px == pa then
      w0 == g0.w0 && w1 == g0.w1 && w0.t != w1.t && Cong(sum, g0.v, Pow2(n))
    else
      w0 == w1 && Cong(sum, if px < pa then Int(beta) else 0, Pow2(n))
  }

  // One more pair of shares.
  lemma SumStep(o0: Block, o1: Block, x0: Block, x1: Block, sum: int, d: int, n: nat)
    requires n <= 128
    requires Cong(Int(o0) + Int(o1), sum, Pow2(n)) && Cong(Int(x0) + Int(x1), d, Pow2(n))
    ensures Cong(Int(Add(o0, x0, n)) + Int(Add(o1, x1, n)), sum + d, Pow2(n))
  {
    hide Cong, Add;
    var m := Pow2(n);
    AddCong(Add(o0, x0, n), Int(o0) + Int(x0), Add(o1, x1, n), Int(o1) + Int(x1), m);
    AddCong(Int(o0) + Int(o1), sum, Int(x0) + Int(x1), d, m);
    CongTrans(Int(Add(o0, x0, n)) + Int(Add(o1, x1, n)), Int(o0) + Int(x0) + (Int(o1) + Int(x1)), sum + d, m);
  }

  lemma LevelInvStep(k0: DcfKey, k1: DcfKey, alpha: Block, beta: Block, x: Block, m: nat, i: nat, g: Prgs, n: nat)
    requires i < m <= 128 && n <= 128 && KeysFor(k0, k1, k0.seed, k1.seed, alpha, beta, m, g, n)
    requires LevelInv(k0, k1, alpha, beta, x, m, i, g, n)
    ensures LevelInv(k0, k1, alpha, beta, x, m, i + 1, g, n)
  {
    hide *;
    KeyFacts(k0, k1, k0.seed, k1.seed, alpha, beta, m, g, n);
    if TopBits(x, m, i) == TopBits(alpha, m, i) {
      if Bit(x, m - i - 1) == Bit(alpha, m - i - 1) {
        StayOnPath(k0, k1, alpha, beta, x, m, i, g, n);
      } else {
        LeavePath(k0, k1, alpha, beta, x, m, i, g, n);
      }
    } else {
      StayOffPath(k0, k1, alpha, beta, x, m, i, g, n);
    }
  }

  lemma StayOnPath(k0: DcfKey, k1: DcfKey, alpha: Block, beta: Block, x: Block, m: nat, i: nat, g: Prgs, n: nat)
    requires i < m <= 128 && n <= 128 && KeysFor(k0, k1, k0.seed, k1.seed, alpha, beta, m, g, n)
    requires LevelInv(k0, k1, alpha, beta, x, m, i, g, n) && TopBits(x, m, i) == TopBits(alpha, m, i)
    requires Bit(x, m - i - 1) == Bit(alpha, m - i - 1)
    ensures LevelInv(k0, k1, alpha, beta, x, m, i + 1, g, n)
  {
    hide Cong, Share, Add, CwV, NextV, Xor, Bit, Val, GenCw;
    var g0, bit := GenAt(k0.seed, k1.seed, alpha, beta, m, i, g, n), Bit(alpha, m - i - 1);
    var c := GenCw(g0, bit, beta, g, n);
    assert k0.cws[i] == c && k1.cws[i] == c;
    KeepShares(g0, bit, beta, g, n);
    KeepDiffers(g0, bit, beta, g, n);
    SumStep(OutAt(k0, x, m, i, g, n), OutAt(k1, x, m, i, g, n),
            Share(g0.w0, c, bit, false, g, n), Share(g0.w1, c, bit, true, g, n),
            g0.v, Int(NextV(g0, bit, beta, g, n)) - Int(g0.v), n);
  }

  lemma LeavePath(k0: DcfKey, k1: DcfKey, alpha: Block, beta: Block, x: Block, m: nat, i: nat, g: Prgs, n: nat)
    requires i < m <= 128 && n <= 128 && KeysFor(k0, k1, k0.seed, k1.seed, alpha, beta, m, g, n)
    requires LevelInv(k0, k1, alpha, beta, x, m, i, g, n) && TopBits(x, m, i) == TopBits(alpha, m, i)
    requires Bit(x, m - i - 1) != Bit(alpha, m - i - 1)
    ensures LevelInv(k0, k1, alpha, beta, x, m, i + 1, g, n)
  {
    hide Cong, Share, Add, CwV, Xor, Bit, Val, GenCw, GenNext;
    var g0, bit := GenAt(k0.seed, k1.seed, alpha, beta, m, i, g, n), Bit(alpha, m - i - 1);
    var c := GenCw(g0, bit, beta, g, n);
    assert k0.cws[i] == c && k1.cws[i] == c;
    LoseShares(g0, bit, beta, g, n);
    LoseMerges(g0, bit, beta, g, n);
    SumStep(OutAt(k0, x, m, i, g, n), OutAt(k1, x, m, i, g, n),
            Share(g0.w0, c, !bit, false, g, n), Share(g0.w1, c, !bit, true, g, n),
            g0.v, (if bit then Int(beta) else 0) - Int(g0.v), n);
  }

  lemma StayOffPath(k0: DcfKey, k1: DcfKey, alpha: Block, beta: Block, x: Block, m: nat, i: nat, g: Prgs, n: nat)
    requires i < m <= 128 && n <= 128 && KeysFor(k0, k1, k0.seed, k1.seed, alpha, beta, m, g, n)
    requires LevelInv(k0, k1, alpha, beta, x, m, i, g, n) && TopBits(x, m, i) != TopBits(alpha, m, i)
    ensures LevelInv(k0, k1, alpha, beta, x, m, i + 1, g, n)
  {
    hide Cong, Share, Add, Xor, Bit, GenAt, GenCw, LastCw;
    var right, c, w := Bit(x, m - i - 1), k0.cws[i], WalkAt(k0, x, m, i, g);
    SameShares(w, c, right, g, n);
    SumStep(OutAt(k0, x, m, i, g, n), OutAt(k1, x, m, i, g, n),
            Share(w, c, right, false, g, n), Share(w, c, right, true, g, n),
            if TopBits(x, m, i) < TopBits(alpha, m, i) then Int(beta) else 0, 0, n);
  }

  lemma LevelInvStart(k0: DcfKey, k1: DcfKey, alpha: Block, beta: Block, x: Block, m: nat, g: Prgs, n: nat)
    requires m <= 128 && n <= 128 && KeysFor(k0, k1, k0.seed, k1.seed, alpha, beta, m, g, n)
    ensures LevelInv(k0, k1, alpha, beta, x, m, 0, g, n)
  {
    hide Cong;
    CongRefl(0, Pow2(n));
  }

  // The facts about the keys that do not concern a single level.
  lemma KeyFacts(k0: DcfKey, k1: DcfKey, mk0: Block, mk1: Block, alpha: Block, beta: Block, m: nat, g: Prgs, n: nat)
    requires m <= 128 && n <= 128 && KeysFor(k0, k1, mk0, mk1, alpha, beta, m, g, n)
    ensures k0.rank == false && k1.rank == true && k0.seed == mk0 && k1.seed == mk1
    ensures |k0.cws| == |k1.cws| == m && k0.lastCw == k1.lastCw
    ensures k0.lastCw == LastCw(GenAt(mk0, mk1, alpha, beta, m, m, g, n), g, n)
  {
  }

  lemma {:induction false} LevelInvHolds(k0: DcfKey, k1: DcfKey, alpha: Block, beta: Block, x: Block, m: nat, i: nat, g: Prgs, n: nat)
    requires i <= m <= 128 && n <= 128 && KeysFor(k0, k1, k0.seed, k1.seed, alpha, beta, m, g, n)
    ensures LevelInv(k0, k1, alpha, beta, x, m, i, g, n)
  {
    if i == 0 {
      LevelInvStart(k0, k1, alpha, beta, x, m, g, n);
    } else {
      hide *;
      LevelInvHolds(k0, k1, alpha, beta, x, m, i - 1, g, n);
      LevelInvStep(k0, k1, alpha, beta, x, m, i - 1, g, n);
    }
  }

  // The last correction word removes what is left on the path.
  lemma LastShares(g0: Gen, g: Prgs, n: nat)
    requires n <= 128 && g0.w0.t != g0.w1.t
    ensures
      var c := LastCw(g0, g, n);
      Cong(Int(LastShare(g0.w0, c, false, g, n)) + Int(LastShare(g0.w1, c, true, g, n)), -Int(g0.v), Pow2(n))
  {
    hide Cong, LastCw, LastShare;
    var c, m := LastCw(g0, g, n), Pow2(n);
    CongRefl(c, m);
    LoseArith(LastShare(g0.w0, c, false, g, n), LastShare(g0.w1, c, true, g, n),
              g.prg(g0.w0.seed), g.prg(g0.w1.seed), c, c, g0.w1.t, g0.v, 0, m);
  }

  lemma LastSame(w: Walk, c: Block, g: Prgs, n: nat)
    requires n <= 128
    ensures Cong(Int(LastShare(w, c, false, g, n)) + Int(LastShare(w, c, true, g, n)), 0, Pow2(n))
  {
    var p := Int(g.prg(w.seed)) + (if w.t then Int(c) else 0);
    AddCong(LastShare(w, c, false, g, n), Sign(false) * p, LastShare(w, c, true, g, n), Sign(true) * p, Pow2(n));
  }

  // DCF correctness: the two outputs sum to beta below alpha and to 0 elsewhere.
  lemma DcfCorrect(k0: DcfKey, k1: DcfKey, mk0: Block, mk1: Block, alpha: Block, beta: Block, x: Block, m: nat, g: Prgs, n: nat)
    requires m <= 128 && n <= 128 && KeysFor(k0, k1, mk0, mk1, alpha, beta, m, g, n)
    ensures (Int(Output(k0, x, m, g, n)) + Int(Output(k1, x, m, g, n))) % Pow2(n)
         == if Val(x, m) < Val(alpha, m) then Val(beta, n) else 0
  {
    hide KeysFor, Output, Bit, TopBits;
    KeyFacts(k0, k1, mk0, mk1, alpha, beta, m, g, n);
    DcfSum(k0, k1, alpha, beta, x, m, g, n);
    TopBitsAll(x, m);
    TopBitsAll(alpha, m);
    SmallMod(0, Pow2(n));
  }

  lemma DcfSum(k0: DcfKey, k1: DcfKey, alpha: Block, beta: Block, x: Block, m: nat, g: Prgs, n: nat)
    requires m <= 128 && n <= 128 && KeysFor(k0, k1, k0.seed, k1.seed, alpha, beta, m, g, n)
    ensures Cong(Int(Output(k0, x, m, g, n)) + Int(Output(k1, x, m, g, n)),
                 if TopBits(x, m, m) < TopBits(alpha, m, m) then Int(beta) else 0, Pow2(n))
  {
    hide Cong, LastShare, Add, LastCw, TopBits, GenAt, OutAt, WalkAt, KeysFor, Val;
    KeyFacts(k0, k1, k0.seed, k1.seed, alpha, beta, m, g, n);
    LevelInvHolds(k0, k1, alpha, beta, x, m, m, g, n);
    var g0 := GenAt(k0.seed, k1.seed, alpha, beta, m, m, g, n);
    var w0, w1 := WalkAt(k0, x, m, m, g), WalkAt(k1, x, m, m, g);
    var c := k0.lastCw;
    var x0, x1 := LastShare(w0, c, false, g, n), LastShare(w1, c, true, g, n);
    var o0, o1 := OutAt(k0, x, m, m, g, n), OutAt(k1, x, m, m, g, n);
    if TopBits(x, m, m) == TopBits(alpha, m, m) {
      LastShares(g0, g, n);
      SumStep(o0, o1, x0, x1, g0.v, -Int(g0.v), n);
    } else {
      LastSame(w0, c, g, n);
      SumStep(o0, o1, x0, x1, if TopBits(x, m, m) < TopBits(alpha, m, m) then Int(beta) else 0, 0, n);
    }
  }

  // Both parties end to end.
  method DcfRun(alpha: Block, beta: Block, mk0: Block, mk1: Block, x: Block, m: nat, g: Prgs, n: nat) returns (sum: Block)
    requires m <= 128 && n <= 128
    ensures sum == if Val(x, m) < Val(alpha, m) then Val(beta, n) else 0
  {
    hide KeysFor, Output, Cong, Add, Val;
    var k0, k1 := DcfKeyGen(alpha, beta, mk0, mk1, m, g, n);
    KeyFacts(k0, k1, mk0, mk1, alpha, beta, m, g, n);
    var y0 := DcfEval(k0, x, m, g, n);
    var y1 := DcfEval(k1, x, m, g, n);
    DcfCorrect(k0, k1, mk0, mk1, alpha, beta, x, m, g, n);
    ValEq(Add(y0, y1, n), Int(y0) + Int(y1), n);
    sum := Val(Add(y0, y1, n), n);
  }
}
