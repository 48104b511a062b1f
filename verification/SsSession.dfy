// Whole runs of the executor: both ranks carry out the same program, and what
// they reveal is what the program computes on plain words.
module SsSession {
  import opened Words
  import opened Outcome
  import opened ChosenOt
  import opened Blocks
  import opened SsExecutor

  // A step names earlier results by their position among the shares of its kind.
  datatype Op =
    | PrepA(n: int, d: Draws)
    | PrepB(n: int, d: Draws)
    | InputA(v: Word, r: Word)
    | Add(i: nat, j: nat)
    | Sub(i: nat, j: nat)
    | Neg(i: nat)
    | MulConst(i: nat, c: Word)
    | Mul(i: nat, j: nat)
    | OutputA(i: nat)
    | InputB(v: Word, r: Word)
    | Xor(i: nat, j: nat)
    | Not(i: nat)
    | And(i: nat, j: nat)
    | OutputB(i: nat)
    | ToB(i: nat)
    | ToA(i: nat, rand: seq<Word>, cots: Cots)
  {
    // The offline material a step brings has the size the step asks for.
    ghost predicate Ready() {
      match this
      case PrepA(n, d) => n > 0 ==> d.For(n)
      case PrepB(n, d) => n > 0 ==> d.For(n)
      case ToA(_, rand, cots) => |rand| == 64 && cots.Valid(Padded(64))
      case _ => true
    }
  }

  // The program on plain words, with the number of triples left.
  datatype Plain = Plain(a: seq<Word>, b: seq<Word>, arith: nat, bools: nat, out: seq<Word>)

  function PushA(s: Plain, v: Word): Result<Plain> { Ok(s.(a := s.a + [v])) }
  function PushB(s: Plain, v: Word): Result<Plain> { Ok(s.(b := s.b + [v])) }

  function PlainStep(s: Plain, op: Op): Result<Plain> {
    var na, nb := |s.a|, |s.b|;
    match op
    case PrepA(n, _) => if n > 0 then Ok(s.(arith := s.arith + n)) else Err
    case PrepB(n, _) => if n > 0 then Ok(s.(bools := s.bools + n)) else Err
    case InputA(v, _) => PushA(s, v)
    case Add(i, j) => if i < na && j < na then PushA(s, WAdd(s.a[i], s.a[j])) else Err
    case Sub(i, j) => if i < na && j < na then PushA(s, WSub(s.a[i], s.a[j])) else Err
    case Neg(i) => if i < na then PushA(s, WSub(0, s.a[i])) else Err
    case MulConst(i, c) => if i < na then PushA(s, WMul(s.a[i], c)) else Err
    case Mul(i, j) =>
      if i < na && j < na && s.arith > 0 then
        PushA(s.(arith := s.arith - 1), WMul(s.a[i], s.a[j]))
      else Err
    case OutputA(i) => if i < na then Ok(s.(out := s.out + [s.a[i]])) else Err
    case InputB(v, _) => PushB(s, v)
    case Xor(i, j) => if i < nb && j < nb then PushB(s, WXor(s.b[i], s.b[j])) else Err
    case Not(i) => if i < nb then PushB(s, WNot(s.b[i])) else Err
    case And(i, j) =>
      if i < nb && j < nb && s.bools > 0 then
        PushB(s.(bools := s.bools - 1), WAnd(s.b[i], s.b[j]))
      else Err
    case OutputB(i) => if i < nb then Ok(s.(out := s.out + [s.b[i]])) else Err
    case ToB(i) => if i < na && s.bools >= 64 then PushB(s.(bools := s.bools - 64), s.a[i]) else Err
    case ToA(i, _, _) => if i < nb then PushA(s, s.b[i]) else Err
  }

  function PlainRun(s: Plain, ops: seq<Op>): Result<Plain>
    decreases |ops|
  {
    if ops == [] then Ok(s)
    else
      var t := PlainStep(s, ops[0]);
      if t.Err? then Err else PlainRun(t.value, ops[1..])
  }

  ghost function ValuesA(xs: seq<Shares>): (r: seq<Word>)
    ensures |r| == |xs| && forall i :: 0 <= i < |xs| ==> r[i] == ValueA(xs[i])
  {
    seq(|xs|, i requires 0 <= i < |xs| => ValueA(xs[i]))
  }

  ghost function ValuesB(xs: seq<Shares>): (r: seq<Word>)
    ensures |r| == |xs| && forall i :: 0 <= i < |xs| ==> r[i] == ValueB(xs[i])
  {
    seq(|xs|, i requires 0 <= i < |xs| => ValueB(xs[i]))
  }

  lemma Push(xs: seq<Shares>, x: Shares)
    ensures ValuesA(xs + [x]) == ValuesA(xs) + [ValueA(x)]
    ensures ValuesB(xs + [x]) == ValuesB(xs) + [ValueB(x)]
  {
  }

  class Session {
    const p0: Party
    const p1: Party
    var a: seq<Shares>
    var b: seq<Shares>
    var out0: seq<Word>
    var out1: seq<Word>

    // The parties are in step and have learnt the same outputs.
    ghost predicate Valid()
      reads this, p0, p1
    {
      InStep(p0, p1) && out0 == out1
    }

    // What the shares stand for.
    ghost function View(): Plain
      reads this, p0, p1
    {
      Plain(ValuesA(a), ValuesB(b), |p0.arith|, |p0.bools|, out0)
    }

    constructor ()
      ensures Valid() && fresh(p0) && fresh(p1) && View() == Plain([], [], 0, 0, [])
    {
      p0 := new Party(0);
      p1 := new Party(1);
      a, b, out0, out1 := [], [], [], [];
    }

    method ExecA(op: Op) returns (ok: bool)
      requires Valid()
      requires op.InputA? || op.Add? || op.Sub? || op.Neg? || op.MulConst? || op.Mul? || op.OutputA?
      modifies this, p0, p1
      ensures Valid() && ok == PlainStep(old(View()), op).Ok?
      ensures View() == if ok then PlainStep(old(View()), op).value else old(View())
    {
      hide InStep, ValueA, ValueB, ValuesA, ValuesB, WAdd, WSub, WMul;
      var x: Shares;
      match op {
      case InputA(v, r) => x := ShareA(p0, p1, v, r);
      case Add(i, j) =>
        if i >= |a| || j >= |a| { return false; }
        x := AddA(a[i], a[j]);
        LinearA(a[i], a[j], 0);
      case Sub(i, j) =>
        if i >= |a| || j >= |a| { return false; }
        x := SubA(a[i], a[j]);
        LinearA(a[i], a[j], 0);
      case Neg(i) =>
        if i >= |a| { return false; }
        x := NegA(a[i]);
        LinearA(a[i], a[i], 0);
      case MulConst(i, c) =>
        if i >= |a| { return false; }
        x := MulConstA(a[i], c);
        LinearA(a[i], a[i], c);
      case Mul(i, j) =>
        if i >= |a| || j >= |a| { return false; }
        var r := MulA(p0, p1, a[i], a[j]);
        if r.Err? { return false; }
        x := r.value;
      case OutputA(i) =>
        if i >= |a| { return false; }
        var v0, v1 := RevealA(p0, p1, a[i]);
        out0, out1 := out0 + [v0], out1 + [v1];
        return true;
      }
      Push(a, x);
      a := a + [x];
      ok := true;
    }

    method ExecB(op: Op) returns (ok: bool)
      requires Valid()
      requires op.InputB? || op.Xor? || op.Not? || op.And? || op.OutputB? || op.ToB?
      modifies this, p0, p1
      ensures Valid() && ok == PlainStep(old(View()), op).Ok?
      ensures View() == if ok then PlainStep(old(View()), op).value else old(View())
    {
      hide InStep, ValueA, ValueB, ValuesA, ValuesB, WXor, WAnd, WNot;
      var x: Shares;
      match op {
      case InputB(v, r) => x := ShareB(p0, p1, v, r);
      case Xor(i, j) =>
        if i >= |b| || j >= |b| { return false; }
        x := XorB(b[i], b[j]);
        LinearB(b[i], b[j]);
      case Not(i) =>
        if i >= |b| { return false; }
        x := Shares(p0.NotB(b[i].s0), p1.NotB(b[i].s1));
        Ranks(p0, p1);
        LinearB(b[i], b[i]);
      case And(i, j) =>
        if i >= |b| || j >= |b| { return false; }
        var r := AndB(p0, p1, b[i], b[j]);
        if r.Err? { return false; }
        x := r.value;
      case OutputB(i) =>
        if i >= |b| { return false; }
        var v0, v1 := RevealB(p0, p1, b[i]);
        out0, out1 := out0 + [v0], out1 + [v1];
        return true;
      case ToB(i) =>
        if i >= |a| { return false; }
        var r := A2B(p0, p1, a[i]);
        if r.Err? { return false; }
        x := r.value;
      }
      Push(b, x);
      b := b + [x];
      ok := true;
    }

    method ExecOt(op: Op, H: Block -> Block) returns (ok: bool)
      requires Valid() && op.Ready()
      requires op.PrepA? || op.PrepB? || op.ToA?
      modifies this, p0, p1
      ensures Valid() && ok == PlainStep(old(View()), op).Ok?
      ensures View() == if ok then PlainStep(old(View()), op).value else old(View())
    {
      hide InStep, ValueA, ValueB, ValuesA, ValuesB;
      match op {
      case PrepA(n, d) => ok := PreprocessArithTriples(p0, p1, n, d, H);
      case PrepB(n, d) => ok := PreprocessBoolTriples(p0, p1, n, d, H);
      case ToA(i, rand, cots) =>
        if i >= |b| { return false; }
        var x := B2A(b[i], rand, cots, H);
        Push(a, x);
        a := a + [x];
        ok := true;
      }
    }

    // One step at both ranks does what it does on plain words, and fails exactly
    // when that fails, changing nothing.
    method Exec(op: Op, H: Block -> Block) returns (ok: bool)
      requires Valid() && op.Ready()
      modifies this, p0, p1
      ensures Valid() && ok == PlainStep(old(View()), op).Ok?
      ensures View() == if ok then PlainStep(old(View()), op).value else old(View())
    {
      hide *;
      if op.InputA? || op.Add? || op.Sub? || op.Neg? || op.MulConst? || op.Mul? || op.OutputA? {
        ok := ExecA(op);
      } else if op.PrepA? || op.PrepB? || op.ToA? {
        ok := ExecOt(op, H);
      } else {
        ok := ExecB(op);
      }
    }

    // Any run in lockstep: the program succeeds exactly when it does on plain
    // words, and then both ranks have learnt the plain results.
    method Run(ops: seq<Op>, H: Block -> Block) returns (ok: bool)
      requires Valid() && forall k :: 0 <= k < |ops| ==> ops[k].Ready()
      modifies this, p0, p1
      ensures Valid() && ok == PlainRun(old(View()), ops).Ok?
      ensures ok ==> View() == PlainRun(old(View()), ops).value && out0 == out1 == PlainRun(old(View()), ops).value.out
    {
      hide InStep, ValuesA, ValuesB, PlainStep;
      for k := 0 to |ops|
        invariant Valid()
        invariant PlainRun(old(View()), ops) == PlainRun(View(), ops[k..])
      {
        var done := Exec(ops[k], H);
        if !done { return false; }
        assert ops[k..][1..] == ops[k + 1..];
      }
      ok := true;
    }
  }

  lemma Ranks(p0: Party, p1: Party)
    requires InStep(p0, p1)
    ensures p0.rank == 0 && p1.rank == 1
  {
  }
}
