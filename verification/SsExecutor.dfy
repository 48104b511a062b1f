// The two-party secret-sharing executor, both ranks in lockstep.
module SsExecutor {
  import opened ModArith
  import opened Bits
  import opened Blocks
  import opened Words
  import opened Adder
  import opened Outcome
  import opened ChosenOt
  import opened Triples

  // The shares of one value at rank 0 and rank 1.
  datatype Shares = Shares(s0: Word, s1: Word)

  function ValueA(x: Shares): Word { WAdd(x.s0, x.s1) }
  function ValueB(x: Shares): Word { WXor(x.s0, x.s1) }

  // One party: its rank, its triple queues and its message tag counter.
  class Party {
    const rank: nat
    var arith: seq<ATriple>
    var bools: seq<BTriple>
    var tag: nat

    constructor (rank: nat)
      ensures this.rank == rank && arith == [] && bools == [] && tag == 0
    {
      this.rank := rank;
      arith, bools, tag := [], [], 0;
    }

    method NextTag() returns (t: nat)
      modifies this`tag
      ensures t == old(tag) && tag == old(tag) + 1
    {
      t := tag;
      tag := tag + 1;
    }

    method ConsumeATriple() returns (r: Result<ATriple>)
      modifies this`arith
      ensures r == if old(arith) == [] then Err else Ok(old(arith)[0])
      ensures arith == if old(arith) == [] then [] else old(arith)[1..]
    {
      if arith == [] { return Err; }
      r := Ok(arith[0]);
      arith := arith[1..];
    }

    method ConsumeBTriple() returns (r: Result<BTriple>)
      modifies this`bools
      ensures r == if old(bools) == [] then Err else Ok(old(bools)[0])
      ensures bools == if old(bools) == [] then [] else old(bools)[1..]
    {
      if bools == [] { return Err; }
      r := Ok(bools[0]);
      bools := bools[1..];
    }

    // MulA up to its message: the triple and the two masked operands.
    method OpenA(x: Word, y: Word) returns (r: Result<(ATriple, Word, Word)>)
      modifies this`arith, this`tag
      ensures old(arith) == [] ==> r == Err && arith == [] && tag == old(tag)
      ensures old(arith) != [] ==>
        && var t := old(arith)[0];
        && r == Ok((t, WSub(x, t.a), WSub(y, t.b))) && arith == old(arith)[1..] && tag == old(tag) + 1
    {
      var t := ConsumeATriple();
      if t.Err? { return Err; }
      var _ := NextTag();
      r := Ok((t.value, WSub(x, t.value.a), WSub(y, t.value.b)));
    }

    // MulA from the peer's message on.
    function CloseA(t: ATriple, e: Word, f: Word): Word {
      var z := WAdd(WAdd(t.c, WMul(e, t.b)), WMul(f, t.a));
      if rank == 0 then WAdd(z, WMul(e, f)) else z
    }

    // AndB, likewise.
    method OpenB(x: Word, y: Word) returns (r: Result<(BTriple, Word, Word)>)
      modifies this`bools, this`tag
      ensures old(bools) == [] ==> r == Err && bools == [] && tag == old(tag)
      ensures old(bools) != [] ==>
        && var t := old(bools)[0];
        && r == Ok((t, WXor(x, t.a), WXor(y, t.b))) && bools == old(bools)[1..] && tag == old(tag) + 1
    {
      var t := ConsumeBTriple();
      if t.Err? { return Err; }
      var _ := NextTag();
      r := Ok((t.value, WXor(x, t.value.a), WXor(y, t.value.b)));
    }

    function CloseB(t: BTriple, e: Word, f: Word): Word {
      var z := WXor(WXor(t.c, WAnd(e, t.b)), WAnd(f, t.a));
      if rank == 0 then WXor(z, WAnd(e, f)) else z
    }

    function NotB(x: Word): Word {
      if rank == 0 then WNot(x) else x
    }
  }

  // Both queues are equally long and hold matching triples, and the next message
  // has the same tag on both sides.
  ghost predicate InStep(p0: Party, p1: Party)
    reads p0, p1
  {
    && p0 != p1 && p0.rank == 0 && p1.rank == 1 && p0.tag == p1.tag
    && |p0.arith| == |p1.arith| && |p0.bools| == |p1.bools|
    && (forall i :: 0 <= i < |p0.arith| ==> ATripleOk(p0.arith[i], p1.arith[i]))
    && (forall i :: 0 <= i < |p0.bools| ==> BTripleOk(p0.bools[i], p1.bools[i]))
  }

  // What preprocessing draws and the COTs it consumes.
  datatype Draws = Draws(a0: seq<Word>, b0: seq<Word>, a1: seq<Word>, b1: seq<Word>, r0: seq<Word>, r1: seq<Word>,
                         cA: Cots, cB: Cots) {
    ghost predicate For(n: nat) {
      && |a0| == |b0| == |a1| == |b1| == n && |r0| == |r1| == 64 * n
      && cA.Valid(Padded(64 * n)) && cB.Valid(Padded(64 * n))
    }
  }

  method PreprocessArithTriples(p0: Party, p1: Party, n: int, d: Draws, H: Block -> Block) returns (ok: bool)
    requires InStep(p0, p1) && (n > 0 ==> d.For(n))
    modifies p0`arith, p1`arith
    ensures InStep(p0, p1) && ok == (n > 0)
    ensures |p0.arith| == |old(p0.arith)| + if ok then n else 0
    ensures !ok ==> p0.arith == old(p0.arith) && p1.arith == old(p1.arith)
  {
    hide ATripleOk, BTripleOk;
    ok := n > 0;
    if ok {
      var done, q0, q1 := ArithTriples(n, d.a0, d.b0, d.a1, d.b1, d.r0, d.r1, d.cA, d.cB, H);
      p0.arith, p1.arith := p0.arith + q0, p1.arith + q1;
    }
  }

  method PreprocessBoolTriples(p0: Party, p1: Party, n: int, d: Draws, H: Block -> Block) returns (ok: bool)
    requires InStep(p0, p1) && (n > 0 ==> d.For(n))
    modifies p0`bools, p1`bools
    ensures InStep(p0, p1) && ok == (n > 0)
    ensures |p0.bools| == |old(p0.bools)| + if ok then n else 0
    ensures !ok ==> p0.bools == old(p0.bools) && p1.bools == old(p1.bools)
  {
    hide ATripleOk, BTripleOk;
    ok := n > 0;
    if ok {
      var done, q0, q1 := BoolTriples(n, d.a0, d.b0, d.a1, d.b1, d.r0, d.r1, d.cA, d.cB, H);
      p0.bools, p1.bools := p0.bools + q0, p1.bools + q1;
    }
  }

  // ---- Arithmetic ---------------------------------------------------------

  method ShareA(p0: Party, p1: Party, secret: Word, r: Word) returns (x: Shares)
    requires InStep(p0, p1)
    modifies p0`tag, p1`tag
    ensures InStep(p0, p1) && ValueA(x) == secret
  {
    hide ATripleOk, BTripleOk, WAdd, WSub, Cong;
    var _ := p0.NextTag();
    var _ := p1.NextTag();
    x := Shares(WSub(secret, r), r);
    MaskedSum(secret, r);
  }

  lemma MaskedSum(x: Word, r: Word)
    ensures WAdd(WSub(x, r), r) == x
  {
    hide WAdd, WSub, Cong;
    CongRefl(x, W);
    CongRefl(r, W);
    AddFor(x, r, x, r);
    AddFor(WSub(x, r), r, IntOf(x) - r, r);
    WordCongEq(WAdd(WSub(x, r), r), x, x);
  }

  // Both parties learn the same value.
  method RevealA(p0: Party, p1: Party, x: Shares) returns (v0: Word, v1: Word)
    requires InStep(p0, p1)
    modifies p0`tag, p1`tag
    ensures InStep(p0, p1) && v0 == v1 == ValueA(x)
  {
    hide ATripleOk, BTripleOk;
    var _ := p0.NextTag();
    var _ := p1.NextTag();
    v0, v1 := WAdd(x.s0, x.s1), WAdd(x.s1, x.s0);
  }

  function AddA(x: Shares, y: Shares): Shares { Shares(WAdd(x.s0, y.s0), WAdd(x.s1, y.s1)) }
  function SubA(x: Shares, y: Shares): Shares { Shares(WSub(x.s0, y.s0), WSub(x.s1, y.s1)) }
  function NegA(x: Shares): Shares { Shares(WSub(0, x.s0), WSub(0, x.s1)) }
  function MulConstA(x: Shares, c: Word): Shares { Shares(WMul(x.s0, c), WMul(x.s1, c)) }

  // The local operations act on the shared values.
  lemma LinearA(x: Shares, y: Shares, c: Word)
    ensures ValueA(AddA(x, y)) == WAdd(ValueA(x), ValueA(y))
    ensures ValueA(SubA(x, y)) == WSub(ValueA(x), ValueA(y))
    ensures ValueA(NegA(x)) == WSub(0, ValueA(x))
    ensures ValueA(MulConstA(x, c)) == WMul(ValueA(x), c)
  {
    hide Cong, WAdd, WSub, WMul;
    var x0, x1, y0, y1 := IntOf(x.s0), IntOf(x.s1), IntOf(y.s0), IntOf(y.s1);
    CongRefl(0, W); CongRefl(x0, W); CongRefl(x1, W); CongRefl(y0, W); CongRefl(y1, W); CongRefl(c, W);
    AddFor(x.s0, x.s1, x0, x1);
    AddFor(y.s0, y.s1, y0, y1);
    AddFor(ValueA(x), ValueA(y), x0 + x1, y0 + y1);
    AddFor(x.s0, y.s0, x0, y0);
    AddFor(x.s1, y.s1, x1, y1);
    AddFor(WAdd(x.s0, y.s0), WAdd(x.s1, y.s1), x0 + y0, x1 + y1);
    WordCongEq(ValueA(AddA(x, y)), WAdd(ValueA(x), ValueA(y)), x0 + x1 + (y0 + y1));
    AddFor(WSub(x.s0, y.s0), WSub(x.s1, y.s1), x0 - y0, x1 - y1);
    WordCongEq(ValueA(SubA(x, y)), WSub(ValueA(x), ValueA(y)), x0 + x1 - (y0 + y1));
    AddFor(0, x.s0, 0, x0);
    AddFor(0, x.s1, 0, x1);
    AddFor(0, ValueA(x), 0, x0 + x1);
    AddFor(WSub(0, x.s0), WSub(0, x.s1), 0 - x0, 0 - x1);
    WordCongEq(ValueA(NegA(x)), WSub(0, ValueA(x)), 0 - (x0 + x1));
    AddFor(x.s0, c, x0, c);
    AddFor(x.s1, c, x1, c);
    AddFor(WMul(x.s0, c), WMul(x.s1, c), x0 * c, x1 * c);
    AddFor(ValueA(x), c, x0 + x1, c);
    MulDist(x0, x1, c);
    WordCongEq(ValueA(MulConstA(x, c)), WMul(ValueA(x), c), (x0 + x1) * c);
  }

  // Beaver multiplication: opening x - a and y - b turns the shares of a, b and
  // a*b into shares of x*y.
  lemma BeaverA(t0: ATriple, t1: ATriple, x: Shares, y: Shares, e: Word, f: Word, z: Shares)
    requires ATripleOk(t0, t1)
    requires e == WAdd(WSub(x.s0, t0.a), WSub(x.s1, t1.a)) && f == WAdd(WSub(y.s0, t0.b), WSub(y.s1, t1.b))
    requires z.s0 == WAdd(WAdd(WAdd(t0.c, WMul(e, t0.b)), WMul(f, t0.a)), WMul(e, f))
    requires z.s1 == WAdd(WAdd(t1.c, WMul(e, t1.b)), WMul(f, t1.a))
    ensures ValueA(z) == WMul(ValueA(x), ValueA(y))
  {
    hide Cong, WAdd, WSub, WMul;
    var x', y' := IntOf(x.s0) + x.s1, IntOf(y.s0) + y.s1;
    var a, b := IntOf(t0.a) + t1.a, IntOf(t0.b) + t1.b;
    OpenedFor(x, t0.a, t1.a, e);
    OpenedFor(y, t0.b, t1.b, f);
    BeaverSum(t0, t1, e, f, x' - a, y' - b, z);
    BeaverExpand(x', y', t0.a, t1.a, t0.b, t1.b, t0.c, t1.c);
    Triple(t0, t1, x' * y');
    CongTrans(ValueA(z), x' * y' + (IntOf(t0.c) + t1.c - a * b), x' * y', W);
    ValueFor(x);
    ValueFor(y);
    AddFor(ValueA(x), ValueA(y), x', y');
    WordCongEq(ValueA(z), WMul(ValueA(x), ValueA(y)), x' * y');
  }

  lemma ValueFor(x: Shares)
    ensures Cong(ValueA(x), IntOf(x.s0) + x.s1, W)
  {
  }

  lemma BeaverSum(t0: ATriple, t1: ATriple, e: Word, f: Word, e': int, f': int, z: Shares)
    requires Cong(e, e', W) && Cong(f, f', W)
    requires z.s0 == WAdd(WAdd(WAdd(t0.c, WMul(e, t0.b)), WMul(f, t0.a)), WMul(e, f))
    requires z.s1 == WAdd(WAdd(t1.c, WMul(e, t1.b)), WMul(f, t1.a))
    ensures Cong(ValueA(z), IntOf(t0.c) + e' * t0.b + f' * t0.a + e' * f' + (IntOf(t1.c) + e' * t1.b + f' * t1.a), W)
  {
    hide Cong, WAdd, WMul;
    CloseFor(t0, e, f, e', f');
    CloseFor(t1, e, f, e', f');
    AddFor(e, f, e', f');
    var u0, u1 := IntOf(t0.c) + e' * t0.b + f' * t0.a, IntOf(t1.c) + e' * t1.b + f' * t1.a;
    AddFor(WAdd(WAdd(t0.c, WMul(e, t0.b)), WMul(f, t0.a)), WMul(e, f), u0, e' * f');
    AddFor(z.s0, z.s1, u0 + e' * f', u1);
  }

  lemma OpenedFor(x: Shares, a0: Word, a1: Word, e: Word)
    requires e == WAdd(WSub(x.s0, a0), WSub(x.s1, a1))
    ensures Cong(e, IntOf(x.s0) + x.s1 - (IntOf(a0) + a1), W)
  {
    hide Cong, WAdd, WSub;
    CongRefl(x.s0, W); CongRefl(x.s1, W); CongRefl(a0, W); CongRefl(a1, W);
    AddFor(x.s0, a0, x.s0, a0);
    AddFor(x.s1, a1, x.s1, a1);
    AddFor(WSub(x.s0, a0), WSub(x.s1, a1), IntOf(x.s0) - a0, IntOf(x.s1) - a1);
  }

  lemma CloseFor(t: ATriple, e: Word, f: Word, e': int, f': int)
    requires Cong(e, e', W) && Cong(f, f', W)
    ensures Cong(WAdd(WAdd(t.c, WMul(e, t.b)), WMul(f, t.a)), IntOf(t.c) + e' * t.b + f' * t.a, W)
  {
    hide Cong, WAdd, WMul;
    CongRefl(t.a, W); CongRefl(t.b, W); CongRefl(t.c, W);
    AddFor(e, t.b, e', t.b);
    AddFor(f, t.a, f', t.a);
    AddFor(t.c, WMul(e, t.b), t.c, e' * t.b);
    AddFor(WAdd(t.c, WMul(e, t.b)), WMul(f, t.a), IntOf(t.c) + e' * t.b, f' * t.a);
  }

  lemma BeaverExpand(x: int, y: int, a0: int, a1: int, b0: int, b1: int, c0: int, c1: int)
    ensures
      var e, f := x - (a0 + a1), y - (b0 + b1);
      c0 + e * b0 + f * a0 + e * f + (c1 + e * b1 + f * a1) == x * y + (c0 + c1 - (a0 + a1) * (b0 + b1))
  {
    var a, b := a0 + a1, b0 + b1;
    var e, f := x - a, y - b;
    assert e * b0 + e * b1 == e * b;
    assert f * a0 + f * a1 == f * a;
    assert x * y == (a + e) * (b + f);
    assert (a + e) * (b + f) == a * b + e * b + f * a + e * f;
  }

  lemma Triple(t0: ATriple, t1: ATriple, v: int)
    requires ATripleOk(t0, t1)
    ensures Cong(v + (IntOf(t0.c) + t1.c - (IntOf(t0.a) + t1.a) * (IntOf(t0.b) + t1.b)), v, W)
  {
    var d := (IntOf(t0.a) + t1.a) * (IntOf(t0.b) + t1.b);
    CongRefl(v - d, W);
    AddCong(IntOf(t0.c) + t1.c, d, v - d, v - d, W);
  }

  // MulA at both ranks.
  method MulA(p0: Party, p1: Party, x: Shares, y: Shares) returns (r: Result<Shares>)
    requires InStep(p0, p1)
    modifies p0`arith, p1`arith, p0`tag, p1`tag
    ensures InStep(p0, p1)
    ensures r.Ok? <==> |old(p0.arith)| > 0
    ensures |p0.arith| == |old(p0.arith)| - if r.Ok? then 1 else 0
    ensures r.Ok? ==> ValueA(r.value) == WMul(ValueA(x), ValueA(y))
    ensures r.Err? ==> p0.arith == old(p0.arith) && p1.arith == old(p1.arith) && p0.tag == old(p0.tag)
  {
    hide ATripleOk, BTripleOk, ValueA, Cong;
    var o0 := p0.OpenA(x.s0, y.s0);
    var o1 := p1.OpenA(x.s1, y.s1);
    if o0.Err? || o1.Err? { return Err; }
    var (t0, e0, f0) := o0.value;
    var (t1, e1, f1) := o1.value;
    var z := Shares(p0.CloseA(t0, WAdd(e0, e1), WAdd(f0, f1)), p1.CloseA(t1, WAdd(e1, e0), WAdd(f1, f0)));
    r := Ok(z);
    BeaverA(t0, t1, x, y, WAdd(e0, e1), WAdd(f0, f1), z);
  }

  // ---- Boolean ------------------------------------------------------------

  method ShareB(p0: Party, p1: Party, secret: Word, r: Word) returns (x: Shares)
    requires InStep(p0, p1)
    modifies p0`tag, p1`tag
    ensures InStep(p0, p1) && ValueB(x) == secret
  {
    hide ATripleOk, BTripleOk, WXor;
    var _ := p0.NextTag();
    var _ := p1.NextTag();
    x := Shares(WXor(secret, r), r);
    WXorCancel(secret, r);
  }

  method RevealB(p0: Party, p1: Party, x: Shares) returns (v0: Word, v1: Word)
    requires InStep(p0, p1)
    modifies p0`tag, p1`tag
    ensures InStep(p0, p1) && v0 == v1 == ValueB(x)
  {
    hide ATripleOk, BTripleOk, WXor;
    var _ := p0.NextTag();
    var _ := p1.NextTag();
    v0, v1 := WXor(x.s0, x.s1), WXor(x.s1, x.s0);
    WXorComm(x.s0, x.s1);
  }

  function XorB(x: Shares, y: Shares): Shares { Shares(WXor(x.s0, y.s0), WXor(x.s1, y.s1)) }

  lemma LinearB(x: Shares, y: Shares)
    ensures ValueB(XorB(x, y)) == WXor(ValueB(x), ValueB(y))
    ensures ValueB(Shares(WNot(x.s0), x.s1)) == WNot(ValueB(x))
  {
    WXor4(x.s0, y.s0, x.s1, y.s1);
    WNotXor(x.s0, x.s1);
  }

  lemma BeaverB(t0: BTriple, t1: BTriple, x: Shares, y: Shares, e: Word, f: Word, z: Shares)
    requires BTripleOk(t0, t1)
    requires e == WXor(WXor(x.s0, t0.a), WXor(x.s1, t1.a)) && f == WXor(WXor(y.s0, t0.b), WXor(y.s1, t1.b))
    requires z.s0 == WXor(WXor(WXor(t0.c, WAnd(e, t0.b)), WAnd(f, t0.a)), WAnd(e, f))
    requires z.s1 == WXor(WXor(t1.c, WAnd(e, t1.b)), WAnd(f, t1.a))
    ensures ValueB(z) == WAnd(ValueB(x), ValueB(y))
  {
    hide Bit;
    forall i | 0 <= i < 64
      ensures (Bit(z.s0, i) != Bit(z.s1, i)) == ((Bit(x.s0, i) != Bit(x.s1, i)) && (Bit(y.s0, i) != Bit(y.s1, i)))
    {
      assert Bit(WXor(t0.c, t1.c), i) == Bit(WAnd(WXor(t0.a, t1.a), WXor(t0.b, t1.b)), i);
    }
    WordEq(ValueB(z), WAnd(ValueB(x), ValueB(y)));
  }

  // AndB at both ranks.
  method AndB(p0: Party, p1: Party, x: Shares, y: Shares) returns (r: Result<Shares>)
    requires InStep(p0, p1)
    modifies p0`bools, p1`bools, p0`tag, p1`tag
    ensures InStep(p0, p1)
    ensures r.Ok? <==> |old(p0.bools)| > 0
    ensures |p0.bools| == |old(p0.bools)| - if r.Ok? then 1 else 0
    ensures r.Ok? ==> ValueB(r.value) == WAnd(ValueB(x), ValueB(y))
    ensures r.Err? ==> p0.bools == old(p0.bools) && p1.bools == old(p1.bools) && p0.tag == old(p0.tag)
  {
    hide ATripleOk, BTripleOk, ValueB, WXor, WAnd;
    var o0 := p0.OpenB(x.s0, y.s0);
    var o1 := p1.OpenB(x.s1, y.s1);
    if o0.Err? || o1.Err? { return Err; }
    var (t0, e0, f0) := o0.value;
    var (t1, e1, f1) := o1.value;
    WXorComm(e0, e1);
    WXorComm(f0, f1);
    var z := Shares(p0.CloseB(t0, WXor(e0, e1), WXor(f0, f1)), p1.CloseB(t1, WXor(e1, e0), WXor(f1, f0)));
    r := Ok(z);
    BeaverB(t0, t1, x, y, WXor(e0, e1), WXor(f0, f1), z);
  }

  // ---- A2B ----------------------------------------------------------------

  // One bit of the adder on reconstructed values.
  lemma CarryWord(x: Word, y: Word, k: nat, gen: Word, prop: Word, carry: Word)
    requires gen == Num(Bit(x, k) && Bit(y, k)) && prop == Num(Bit(x, k) != Bit(y, k)) && carry == Num(Carry(x, y, k))
    ensures WXor(gen, WAnd(prop, carry)) == Num(Carry(x, y, k + 1))
  {
    hide Bit;
    BitsOfNum(Bit(x, k) && Bit(y, k));
    BitsOfNum(Bit(x, k) != Bit(y, k));
    BitsOfNum(Carry(x, y, k));
    BitsOfNum(Carry(x, y, k + 1));
    WordEq(WXor(gen, WAnd(prop, carry)), Num(Carry(x, y, k + 1)));
  }

  // Splitting both shares of a word into single bits shares the bit.
  lemma ShareBit(x: Shares, k: nat)
    requires k < 64
    ensures ValueB(Shares(BitOf(x.s0, k), BitOf(x.s1, k))) == Num(Bit(ValueB(x), k))
  {
    hide Bit;
    BitsOfNum(Bit(ValueB(x), k));
    WordEq(ValueB(Shares(BitOf(x.s0, k), BitOf(x.s1, k))), Num(Bit(ValueB(x), k)));
  }

  // The bits placed so far, below k, in both results.
  ghost predicate Placed(r: Shares, sum: Word, k: nat) {
    forall i :: 0 <= i < 64 ==>
      if i < k then (Bit(r.s0, i) != Bit(r.s1, i)) == Bit(sum, i) else !Bit(r.s0, i) && !Bit(r.s1, i)
  }

  // result |= b << k on both sides.
  lemma PlaceBit(r: Shares, sum: Word, k: nat, b0: bool, b1: bool)
    requires k < 64 && Placed(r, sum, k) && (b0 != b1) == Bit(sum, k)
    ensures Placed(Shares(WOr(r.s0, BitWord(b0, k)), WOr(r.s1, BitWord(b1, k))), sum, k + 1)
  {
    hide Bit, WOr, BitWord;
  }

  lemma PlacedAll(r: Shares, sum: Word)
    requires Placed(r, sum, 64)
    ensures ValueB(r) == sum
  {
    hide Bit, WXor;
    WordEq(ValueB(r), sum);
  }

  lemma PlacedNone(sum: Word)
    ensures Placed(Shares(0, 0), sum, 0)
  {
    forall i: nat ensures !Bit(0, i) { BitZero(i); }
  }

  // What the shares that the ranks feed into the adder stand for.
  lemma AdderInputs(x: Shares)
    ensures ValueB(Shares(x.s0, 0)) == x.s0 && ValueB(Shares(0, x.s1)) == x.s1
    ensures XorB(Shares(x.s0, 0), Shares(0, x.s1)) == x
  {
    WXorZero(x.s0);
    WXorZero(x.s1);
  }

  // The carry shares may have bits above the lowest; their XOR has none.
  lemma SumBitShares(x: Shares, carry: Shares, k: nat)
    requires k < 64 && ValueB(carry) == Num(Carry(x.s0, x.s1, k))
    ensures ((Bit(x.s0, k) != Bit(carry.s0, 0)) != (Bit(x.s1, k) != Bit(carry.s1, 0))) == Bit(ValueA(x), k)
  {
    hide Bit, WAdd, WXor, Carry;
    WordSumBit(x.s0, x.s1, k);
    BitsOfNum(Carry(x.s0, x.s1, k));
    assert Bit(ValueB(carry), 0) == (Bit(carry.s0, 0) != Bit(carry.s1, 0));
  }

  // A2B at both ranks: it fails when fewer than 64 triples are left, else takes
  // exactly 64 of them.
  method A2B(p0: Party, p1: Party, x: Shares) returns (r: Result<Shares>)
    requires InStep(p0, p1)
    modifies p0`bools, p1`bools, p0`tag, p1`tag
    ensures InStep(p0, p1)
    ensures r.Ok? <==> |old(p0.bools)| >= 64
    ensures |p0.bools| == |old(p0.bools)| - if r.Ok? then 64 else 0
    ensures r.Ok? ==> ValueB(r.value) == ValueA(x)
    ensures r.Err? ==> p0.bools == old(p0.bools) && p1.bools == old(p1.bools) && p0.tag == old(p0.tag)
  {
    hide ATripleOk, BTripleOk, WXor, WAnd, WOr, BitOf, BitWord, Bit, Placed, Carry, WAdd, ValueA, ValueB;
    if |p0.bools| < 64 { return Err; }
    var a, b := Shares(x.s0, 0), Shares(0, x.s1);
    AdderInputs(x);
    var gen := AndB(p0, p1, a, b);
    var prop := XorB(a, b);
    var sum := Shares(0, 0);
    PlacedNone(ValueA(x));
    FirstBits(x, gen.value);
    sum := Shares(WOr(0, BitWord(Bit(prop.s0, 0), 0)), WOr(0, BitWord(Bit(prop.s1, 0), 0)));
    PlaceBit(Shares(0, 0), ValueA(x), 0, Bit(prop.s0, 0), Bit(prop.s1, 0));
    var carry := Shares(BitOf(gen.value.s0, 0), BitOf(gen.value.s1, 0));
    for k := 1 to 64
      invariant InStep(p0, p1) && |p0.bools| == |old(p0.bools)| - k
      invariant Placed(sum, ValueA(x), k)
      invariant ValueB(carry) == Num(Carry(x.s0, x.s1, k))
    {
      var s0, s1 := Bit(prop.s0, k) != Bit(carry.s0, 0), Bit(prop.s1, k) != Bit(carry.s1, 0);
      SumBitShares(x, carry, k);
      PlaceBit(sum, ValueA(x), k, s0, s1);
      sum := Shares(WOr(sum.s0, BitWord(s0, k)), WOr(sum.s1, BitWord(s1, k)));
      var propK := Shares(BitOf(prop.s0, k), BitOf(prop.s1, k));
      var genK := Shares(BitOf(gen.value.s0, k), BitOf(gen.value.s1, k));
      var propAndCarry := AndB(p0, p1, propK, carry);
      NextCarry(x, gen.value, genK, propK, carry, propAndCarry.value, k);
      carry := XorB(genK, propAndCarry.value);
    }
    PlacedAll(sum, ValueA(x));
    r := Ok(sum);
  }

  lemma FirstBits(x: Shares, gen: Shares)
    requires ValueB(gen) == WAnd(x.s0, x.s1)
    ensures (Bit(x.s0, 0) != Bit(x.s1, 0)) == Bit(ValueA(x), 0)
    ensures ValueB(Shares(BitOf(gen.s0, 0), BitOf(gen.s1, 0))) == Num(Carry(x.s0, x.s1, 1))
  {
    hide Bit, WAdd, WAnd, ValueB;
    WordSumBit(x.s0, x.s1, 0);
    ShareBit(gen, 0);
    assert Bit(WAnd(x.s0, x.s1), 0) == (Bit(x.s0, 0) && Bit(x.s1, 0));
    assert !Carry(x.s0, x.s1, 0);
  }

  lemma NextCarry(x: Shares, gen: Shares, genK: Shares, propK: Shares, carry: Shares, pc: Shares, k: nat)
    requires k < 64 && ValueB(gen) == WAnd(x.s0, x.s1) && ValueB(carry) == Num(Carry(x.s0, x.s1, k))
    requires genK == Shares(BitOf(gen.s0, k), BitOf(gen.s1, k)) && propK == Shares(BitOf(x.s0, k), BitOf(x.s1, k))
    requires ValueB(pc) == WAnd(ValueB(propK), ValueB(carry))
    ensures ValueB(XorB(genK, pc)) == Num(Carry(x.s0, x.s1, k + 1))
  {
    hide Bit, WAnd, WXor, BitOf, XorB, Carry;
    ShareBit(gen, k);
    ShareBit(x, k);
    LinearB(genK, pc);
    assert Bit(WAnd(x.s0, x.s1), k) == (Bit(x.s0, k) && Bit(x.s1, k));
    assert Bit(ValueB(x), k) == (Bit(x.s0, k) != Bit(x.s1, k));
    CarryWord(x.s0, x.s1, k, ValueB(genK), ValueB(propK), ValueB(carry));
  }

  // ---- B2A ----------------------------------------------------------------

  // The correction of bit k: plus or minus 2^k.
  function Correction(b1: bool, k: nat): Word {
    if b1 then WSub(0, Shl(1, k)) else Shl(1, k)
  }

  // The sender's half: messages and its share.
  method B2ASend(x1: Word, rand: seq<Word>) returns (msgs: seq<OtMessages>, share: Word)
    requires |rand| == 64
    ensures |msgs| == 64
    ensures forall k :: 0 <= k < 64 ==> msgs[k] == OtMessages(rand[k], WAdd(rand[k], Correction(Bit(x1, k), k)))
    ensures Cong(share, IntOf(x1) - RowSum(rand, 0, 64), W)
  {
    hide Cong, WAdd, WSub, WMul, Shl, Bit, Correction, Pow2;
    msgs, share := [], 0;
    StartLow(x1);
    for k := 0 to 64
      invariant |msgs| == k
      invariant forall j :: 0 <= j < k ==> msgs[j] == OtMessages(rand[j], WAdd(rand[j], Correction(Bit(x1, j), j)))
      invariant Cong(share, IntOf(x1) % Pow2(k) - RowSum(rand, 0, k), W)
    {
      var b1 := BitOf(x1, k);
      var r := rand[k];
      msgs := msgs + [OtMessages(r, WAdd(r, Correction(Bit(x1, k), k)))];
      SendStep(x1, k, b1, r, share, RowSum(rand, 0, k));
      share := WAdd(share, WSub(WMul(b1, Shl(1, k)), r));
    }
    Pow2Of64();
    SmallMod(x1, W);
  }

  lemma StartLow(x: Word)
    ensures Cong(0, IntOf(x) % Pow2(0) - 0, W)
  {
    DivUnique(x, x, 0, 1);
  }

  lemma SendStep(x1: Word, k: nat, b1: Word, r: Word, share: Word, sum: int)
    requires k < 64 && b1 == Num(Bit(x1, k)) && Cong(share, IntOf(x1) % Pow2(k) - sum, W)
    ensures Cong(WAdd(share, WSub(WMul(b1, Shl(1, k)), r)), IntOf(x1) % Pow2(k + 1) - (sum + r), W)
  {
    hide Cong, WAdd, WSub, WMul, Shl, Bit, Pow2;
    Children(x1, k);
    CongRefl(b1, W);
    CongRefl(r, W);
    AddFor(b1, Shl(1, k), b1, 1 * Pow2(k));
    AddFor(WMul(b1, Shl(1, k)), r, b1 * (1 * Pow2(k)), r);
    AddFor(share, WSub(WMul(b1, Shl(1, k)), r), IntOf(x1) % Pow2(k) - sum, IntOf(b1) * (1 * Pow2(k)) - r);
  }

  // The low k bits of the secret minus those of rank 1's share.
  function LowDiff(x: Shares, k: nat): int {
    IntOf(ValueB(x)) % Pow2(k) - x.s1 % Pow2(k)
  }

  lemma LowDiffEnds(x: Shares)
    ensures LowDiff(x, 0) == 0 && LowDiff(x, 64) == IntOf(ValueB(x)) - x.s1
  {
    hide WXor;
    DivUnique(x.s1, x.s1, 0, Pow2(0));
    DivUnique(ValueB(x), ValueB(x), 0, Pow2(0));
    Pow2Of64();
    SmallMod(x.s1, W);
    SmallMod(ValueB(x), W);
  }

  // What the choices add to the random values.
  lemma {:induction false} B2ASum(x: Shares, rand: seq<Word>, recv: seq<Word>, k: nat)
    requires k <= 64 == |rand| == |recv|
    requires forall t :: 0 <= t < 64 ==>
      recv[t] == if Bit(x.s0, t) then WAdd(rand[t], Correction(Bit(x.s1, t), t)) else rand[t]
    ensures Cong(RowSum(recv, 0, k) - RowSum(rand, 0, k), LowDiff(x, k), W)
    decreases k
  {
    hide Cong, WAdd, Bit, Correction, Pow2, WXor, LowDiff, Weighted;
    if k == 0 {
      LowDiffEnds(x);
      CongRefl(0, W);
    } else {
      B2ASum(x, rand, recv, k - 1);
      ReceivedFor(x, rand[k - 1], k - 1);
      var w := Weighted(Bit(x.s0, k - 1), Bit(x.s1, k - 1), k - 1);
      LowDiffStep(x, k - 1);
      OneMore(RowSum(recv, 0, k - 1), RowSum(rand, 0, k - 1), LowDiff(x, k - 1), recv[k - 1], rand[k - 1], w);
    }
  }

  lemma LowDiffStep(x: Shares, k: nat)
    requires k < 64
    ensures LowDiff(x, k + 1) == LowDiff(x, k) + Weighted(Bit(x.s0, k), Bit(x.s1, k), k)
  {
    hide Bit, Pow2, WXor, Weighted;
    XorPart(x.s0, x.s1, k);
  }

  lemma ReceivedFor(x: Shares, r: Word, k: nat)
    ensures Cong(if Bit(x.s0, k) then WAdd(r, Correction(Bit(x.s1, k), k)) else r,
                 r + Weighted(Bit(x.s0, k), Bit(x.s1, k), k), W)
  {
    hide Cong, WAdd, WSub, Shl, Bit, Pow2;
    CongRefl(r, W);
    CongRefl(0, W);
    AddFor(0, Shl(1, k), 0, 1 * IntPow2(k));
    AddFor(r, Shl(1, k), r, 1 * IntPow2(k));
    AddFor(r, WSub(0, Shl(1, k)), r, 0 - 1 * IntPow2(k));
  }

  // B2A at both ranks: rank 1 sends, rank 0 chooses by the bits of its share.
  method B2A(x: Shares, rand: seq<Word>, c: Cots, H: Block -> Block) returns (z: Shares)
    requires |rand| == 64 && c.Valid(Padded(64))
    ensures ValueA(z) == ValueB(x)
  {
    hide Cong, WAdd, Bit, Correction, RowSum, ValueA, ValueB;
    var msgs, share1 := B2ASend(x.s1, rand);
    var choices := Choices([x.s0]);
    var received := RunChosenOT(c, msgs, choices, H);
    var recv := received.value;
    var sums := ArithReceive(recv, 1);
    z := Shares(sums[0], share1);
    forall t | 0 <= t < 64
      ensures recv[t] == if Bit(x.s0, t) then WAdd(rand[t], Correction(Bit(x.s1, t), t)) else rand[t]
    {
      assert choices[t] == Bit([x.s0][t / 64], t % 64);
    }
    B2ASum(x, rand, recv, 64);
    B2ATotal(x, z, RowSum(recv, 0, 64), RowSum(rand, 0, 64));
  }

  lemma B2ATotal(x: Shares, z: Shares, recvSum: int, randSum: int)
    requires Cong(z.s0, recvSum, W) && Cong(z.s1, IntOf(x.s1) - randSum, W)
    requires Cong(recvSum - randSum, LowDiff(x, 64), W)
    ensures ValueA(z) == ValueB(x)
  {
    hide Cong, WAdd, Pow2, WXor, LowDiff;
    LowDiffEnds(x);
    AddFor(z.s0, z.s1, recvSum, IntOf(x.s1) - randSum);
    CongRefl(x.s1, W);
    AddCong(recvSum - randSum, IntOf(ValueB(x)) - x.s1, x.s1, x.s1, W);
    CongTrans(ValueA(z), recvSum - randSum + x.s1, ValueB(x), W);
    CongRefl(ValueB(x), W);
    WordCongEq(ValueA(z), ValueB(x), ValueB(x));
  }

  // B2A after A2B gives shares of the original value.
  method RoundTrip(p0: Party, p1: Party, x: Shares, rand: seq<Word>, c: Cots, H: Block -> Block) returns (r: Result<Shares>)
    requires InStep(p0, p1) && |rand| == 64 && c.Valid(Padded(64))
    modifies p0`bools, p1`bools, p0`tag, p1`tag
    ensures InStep(p0, p1) && (r.Ok? <==> |old(p0.bools)| >= 64)
    ensures r.Ok? ==> ValueA(r.value) == ValueA(x)
  {
    hide *;
    var b := A2B(p0, p1, x);
    if b.Err? { return Err; }
    var z := B2A(b.value, rand, c, H);
    r := Ok(z);
  }
}
