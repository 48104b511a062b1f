// Beaver triples by oblivious transfer: each party's b bits choose between r and
// r plus a shifted copy of the other party's a.
module Triples {
  import opened ModArith
  import opened Bits
  import opened Blocks
  import opened Words
  import opened ChosenOt

  datatype ATriple = ATriple(a: Word, b: Word, c: Word)
  datatype BTriple = BTriple(a: Word, b: Word, c: Word)

  // The invariants of the two kinds of triple.
  ghost predicate ATripleOk(t0: ATriple, t1: ATriple) {
    Cong(t0.c + t1.c, (t0.a + t1.a) * (t0.b + t1.b), W)
  }

  ghost predicate BTripleOk(t0: BTriple, t1: BTriple) {
    WXor(t0.c, t1.c) == WAnd(WXor(t0.a, t1.a), WXor(t0.b, t1.b))
  }

  // x and y are additive shares of a * b.
  ghost predicate SharesProduct(x: Word, y: Word, a: Word, b: Word) {
    Cong(x + y, a * b, W)
  }

  function RowSum(s: seq<Word>, base: nat, k: nat): int
    requires base + k <= |s|
  {
    if k == 0 then 0 else RowSum(s, base, k - 1) + s[base + k - 1]
  }

  // ---- One direction, arithmetic ------------------------------------------

  // What one OT row gives: the sum of the received values minus the random ones.
  lemma {:induction false} GilboaRow(recv: seq<Word>, rand: seq<Word>, base: nat, k: nat, a: Word, b: Word)
    requires base + k <= |recv| == |rand|
    requires forall t :: 0 <= t < k ==>
      recv[base + t] == if Bit(b, t) then WAdd(rand[base + t], Shl(a, t)) else rand[base + t]
    ensures Cong(RowSum(recv, base, k) - RowSum(rand, base, k), a * (b % Pow2(k)), W)
    decreases k
  {
    hide Cong, Bit, WAdd, Shl, Pow2;
    if k == 0 {
      NoLowBits(a, b);
      CongRefl(0, W);
    } else {
      GilboaRow(recv, rand, base, k - 1, a, b);
      GilboaStep(RowSum(recv, base, k - 1), RowSum(rand, base, k - 1), recv[base + k - 1], rand[base + k - 1], a, b, k - 1);
    }
  }

  lemma GilboaStep(x: int, y: int, v: Word, r: Word, a: Word, b: Word, k: nat)
    requires Cong(x - y, a * (b % Pow2(k)), W) && v == if Bit(b, k) then WAdd(r, Shl(a, k)) else r
    ensures Cong(x + v - (y + r), a * (b % Pow2(k + 1)), W)
  {
    hide Cong, Bit, WAdd, Shl, Pow2;
    var low, top := b % Pow2(k), if Bit(b, k) then Pow2(k) else 0;
    GilboaTerm(v, r, a, b, k);
    OneMore(x, y, a * low, v, r, a * top);
    Children(b, k);
    MulSplit(a, low, top);
  }

  lemma GilboaTerm(v: Word, r: Word, a: Word, b: Word, k: nat)
    requires v == if Bit(b, k) then WAdd(r, Shl(a, k)) else r
    ensures Cong(v, r + a * (if Bit(b, k) then Pow2(k) else 0), W)
  {
    hide Cong, Bit, WAdd, Shl, Pow2;
    CongRefl(r, W);
    if Bit(b, k) { AddFor(r, Shl(a, k), r, a * Pow2(k)); }
  }

  lemma NoLowBits(a: nat, b: nat)
    ensures a * (b % Pow2(0)) == 0
  {
  }

  lemma OneMore(a: int, b: int, d: int, v: int, r: int, w: int)
    requires Cong(a - b, d, W) && Cong(v, r + w, W)
    ensures Cong(a + v - (b + r), d + w, W)
  {
    hide Cong;
    CongRefl(r, W);
    SubCong(v, r + w, r, r, W);
    AddCong(a - b, d, v - r, w, W);
  }

  lemma MulSplit(a: nat, x: nat, y: nat)
    ensures a * (x + y) == a * x + a * y
  {
  }

  // The messages of the sender: r, and r plus a shifted by the bit's position.
  ghost predicate GilboaMsgs(msgs: seq<OtMessages>, a: seq<Word>, rand: seq<Word>) {
    && |msgs| <= 64 * |a| && |msgs| <= |rand|
    && forall j :: 0 <= j < |msgs| ==> msgs[j] == OtMessages(rand[j], WAdd(rand[j], Shl(a[j / 64], j % 64)))
  }

  lemma GilboaMsgsNext(msgs: seq<OtMessages>, a: seq<Word>, rand: seq<Word>, i: nat, k: nat, m: OtMessages)
    requires GilboaMsgs(msgs, a, rand) && |msgs| == 64 * i + k && k < 64 && i < |a| && |msgs| < |rand|
    requires m == OtMessages(rand[64 * i + k], WAdd(rand[64 * i + k], Shl(a[i], k)))
    ensures GilboaMsgs(msgs + [m], a, rand)
  {
    hide WAdd, Shl;
    assert (64 * i + k) / 64 == i && (64 * i + k) % 64 == k;
  }

  // The sender's half of RunArithOtDirection.
  method ArithSend(a: seq<Word>, rand: seq<Word>) returns (msgs: seq<OtMessages>, cross: seq<Word>)
    requires |rand| == 64 * |a|
    ensures |msgs| == 64 * |a| && |cross| == |a| && GilboaMsgs(msgs, a, rand)
    ensures forall i :: 0 <= i < |a| ==> Cong(cross[i], -RowSum(rand, 64 * i, 64), W)
  {
    hide Cong, WAdd, WSub, Shl, GilboaMsgs, Pow2;
    msgs, cross := [], [];
    GilboaMsgsNone(a, rand);
    for i := 0 to |a|
      invariant |msgs| == 64 * i && |cross| == i && GilboaMsgs(msgs, a, rand)
      invariant forall j :: 0 <= j < i ==> Cong(cross[j], -RowSum(rand, 64 * j, 64), W)
    {
      var x: Word := 0;
      CongRefl(0, W);
      for k := 0 to 64
        invariant |msgs| == 64 * i + k && GilboaMsgs(msgs, a, rand)
        invariant Cong(x, -RowSum(rand, 64 * i, k), W)
      {
        var r := rand[64 * i + k];
        var m := OtMessages(r, WAdd(r, Shl(a[i], k)));
        GilboaMsgsNext(msgs, a, rand, i, k, m);
        msgs := msgs + [m];
        CongRefl(r, W);
        AddFor(x, r, -RowSum(rand, 64 * i, k), r);
        x := WSub(x, r);
      }
      cross := cross + [x];
    }
  }

  lemma GilboaMsgsNone(a: seq<Word>, rand: seq<Word>)
    ensures GilboaMsgs([], a, rand)
  {
  }

  // The choice bits of either direction.
  method Choices(b: seq<Word>) returns (choices: seq<bool>)
    ensures |choices| == 64 * |b|
    ensures forall j :: 0 <= j < |choices| ==> choices[j] == Bit(b[j / 64], j % 64)
  {
    choices := [];
    for i := 0 to |b|
      invariant |choices| == 64 * i
      invariant forall j :: 0 <= j < |choices| ==> choices[j] == Bit(b[j / 64], j % 64)
    {
      for k := 0 to 64
        invariant |choices| == 64 * i + k
        invariant forall j :: 0 <= j < |choices| ==> choices[j] == Bit(b[j / 64], j % 64)
      {
        choices := choices + [Bit(b[i], k)];
      }
    }
  }

  // The receiver's sums.
  method ArithReceive(recv: seq<Word>, n: nat) returns (cross: seq<Word>)
    requires |recv| == 64 * n
    ensures |cross| == n
    ensures forall i :: 0 <= i < n ==> Cong(cross[i], RowSum(recv, 64 * i, 64), W)
  {
    hide Cong, WAdd;
    cross := [];
    for i := 0 to n
      invariant |cross| == i
      invariant forall j :: 0 <= j < i ==> Cong(cross[j], RowSum(recv, 64 * j, 64), W)
    {
      var x: Word := 0;
      CongRefl(0, W);
      for k := 0 to 64
        invariant Cong(x, RowSum(recv, 64 * i, k), W)
      {
        CongRefl(recv[64 * i + k], W);
        AddFor(x, recv[64 * i + k], RowSum(recv, 64 * i, k), recv[64 * i + k]);
        x := WAdd(x, recv[64 * i + k]);
      }
      cross := cross + [x];
    }
  }

  // RunArithOtDirection, both roles: additive shares of the products a * b.
  method ArithDirection(a: seq<Word>, b: seq<Word>, rand: seq<Word>, c: Cots, H: Block -> Block)
    returns (ok: bool, crossS: seq<Word>, crossR: seq<Word>)
    requires |a| == |b| && |rand| == 64 * |a| && c.Valid(Padded(64 * |a|))
    ensures ok == (|a| > 0) && |crossS| == |a| && (ok ==> |crossR| == |a|)
    ensures ok ==> forall i :: 0 <= i < |a| ==> SharesProduct(crossS[i], crossR[i], a[i], b[i])
  {
    hide Cong, WAdd, Shl, Bit, SharesProduct;
    var msgs, choices;
    msgs, crossS := ArithSend(a, rand);
    choices := Choices(b);
    var received := RunChosenOT(c, msgs, choices, H);
    if received.Err? { return false, crossS, []; }
    var recv := received.value;
    ok := true;
    crossR := ArithReceive(recv, |a|);
    forall i | 0 <= i < |a| ensures SharesProduct(crossS[i], crossR[i], a[i], b[i]) {
      GilboaPair(recv, rand, i, a[i], b[i], crossS[i], crossR[i]);
    }
  }

  lemma GilboaPair(recv: seq<Word>, rand: seq<Word>, i: nat, a: Word, b: Word, s: Word, r: Word)
    requires 64 * i + 64 <= |recv| == |rand|
    requires forall j :: 64 * i <= j < 64 * i + 64 ==>
      recv[j] == if Bit(b, j % 64) then WAdd(rand[j], Shl(a, j % 64)) else rand[j]
    requires Cong(s, -RowSum(rand, 64 * i, 64), W) && Cong(r, RowSum(recv, 64 * i, 64), W)
    ensures SharesProduct(s, r, a, b)
  {
    hide Cong, WAdd, Shl, Bit, RowSum, Pow2;
    forall t | 0 <= t < 64
      ensures recv[64 * i + t] == if Bit(b, t) then WAdd(rand[64 * i + t], Shl(a, t)) else rand[64 * i + t]
    {
      assert (64 * i + t) % 64 == t;
    }
    GilboaRow(recv, rand, 64 * i, 64, a, b);
    Pow2Of64();
    SmallMod(b, W);
    AddCong(s, -RowSum(rand, 64 * i, 64), r, RowSum(recv, 64 * i, 64), W);
    CongTrans(s + r, RowSum(recv, 64 * i, 64) - RowSum(rand, 64 * i, 64), a * b, W);
  }

  // PreprocessArithTriples for both ranks: n new triples each.
  method ArithTriples(n: nat, a0: seq<Word>, b0: seq<Word>, a1: seq<Word>, b1: seq<Word>,
                      rand0: seq<Word>, rand1: seq<Word>, cA: Cots, cB: Cots, H: Block -> Block)
    returns (ok: bool, q0: seq<ATriple>, q1: seq<ATriple>)
    requires |a0| == |b0| == |a1| == |b1| == n && |rand0| == |rand1| == 64 * n
    requires cA.Valid(Padded(64 * n)) && cB.Valid(Padded(64 * n))
    ensures ok == (n > 0)
    ensures ok ==> |q0| == |q1| == n && forall i :: 0 <= i < n ==> ATripleOk(q0[i], q1[i])
  {
    hide ATripleOk, Cong, WAdd, WMul, SharesProduct;
    q0, q1 := [], [];
    var okA, crossA0, crossA1 := ArithDirection(a0, b1, rand0, cA, H);
    if !okA { return false, q0, q1; }
    var okB, crossB1, crossB0 := ArithDirection(a1, b0, rand1, cB, H);
    if !okB { return false, q0, q1; }
    for i := 0 to n
      invariant |q0| == |q1| == i && forall j :: 0 <= j < i ==> ATripleOk(q0[j], q1[j])
    {
      var c0 := WAdd(WAdd(WMul(a0[i], b0[i]), crossA0[i]), crossB0[i]);
      var c1 := WAdd(WAdd(WMul(a1[i], b1[i]), crossA1[i]), crossB1[i]);
      GilboaTriple(a0[i], b0[i], a1[i], b1[i], crossA0[i], crossA1[i], crossB0[i], crossB1[i], c0, c1);
      q0, q1 := q0 + [ATriple(a0[i], b0[i], c0)], q1 + [ATriple(a1[i], b1[i], c1)];
    }
    ok := true;
  }

  lemma GilboaTriple(a0: Word, b0: Word, a1: Word, b1: Word, x0: Word, x1: Word, y0: Word, y1: Word, c0: Word, c1: Word)
    requires SharesProduct(x0, x1, a0, b1) && SharesProduct(y1, y0, a1, b0)
    requires c0 == WAdd(WAdd(WMul(a0, b0), x0), y0) && c1 == WAdd(WAdd(WMul(a1, b1), x1), y1)
    ensures ATripleOk(ATriple(a0, b0, c0), ATriple(a1, b1, c1))
  {
    hide Cong, WAdd, WMul;
    ThreeTerms(a0, b0, x0, y0);
    ThreeTerms(a1, b1, x1, y1);
    AddCong(c0, a0 * b0 + x0 + y0, c1, a1 * b1 + x1 + y1, W);
    AddCong(x0 + x1, a0 * b1, y1 + y0, a1 * b0, W);
    CongRefl(a0 * b0 + a1 * b1, W);
    AddCong(a0 * b0 + a1 * b1, a0 * b0 + a1 * b1, x0 + x1 + (y1 + y0), a0 * b1 + a1 * b0, W);
    CongTrans(c0 + c1, a0 * b0 + a1 * b1 + (x0 + x1 + (y1 + y0)), a0 * b0 + a1 * b1 + (a0 * b1 + a1 * b0), W);
    Expand(a0, a1, b0, b1);
  }

  lemma Expand(a0: int, a1: int, b0: int, b1: int)
    ensures (a0 + a1) * (b0 + b1) == a0 * b0 + a1 * b1 + (a0 * b1 + a1 * b0)
  {
  }

  lemma ThreeTerms(a: Word, b: Word, x: Word, y: Word)
    ensures Cong(WAdd(WAdd(WMul(a, b), x), y), a * b + x + y, W)
  {
    hide Cong, WAdd, WMul;
    CongRefl(x, W);
    CongRefl(y, W);
    AddFor(WMul(a, b), x, a * b, x);
    AddFor(WAdd(WMul(a, b), x), y, a * b + x, y);
  }

  // ---- One direction, boolean ---------------------------------------------

  method BoolSend(a: seq<Word>, rand: seq<Word>) returns (msgs: seq<OtMessages>, cross: seq<Word>)
    requires |rand| == 64 * |a|
    ensures |msgs| == 64 * |a| && |cross| == |a|
    ensures BoolMsgs(msgs, a, rand) && Packed(cross, rand)
  {
    hide WXor, BitOf, Bit, BitWord, BoolMsgs, Packed;
    msgs, cross := [], [];
    BoolMsgsNone(a, rand);
    PackedNone(rand);
    for i := 0 to |a|
      invariant |msgs| == 64 * i && |cross| == i
      invariant BoolMsgs(msgs, a, rand) && Packed(cross, rand)
    {
      var x: Word := 0;
      forall t: nat ensures !Bit(0, t) { BitZero(t); }
      for k := 0 to 64
        invariant |msgs| == 64 * i + k && BoolMsgs(msgs, a, rand)
        invariant forall t :: 0 <= t < 64 ==> Bit(x, t) == (t < k && Bit(rand[64 * i + t], 0))
      {
        var r := BitOf(rand[64 * i + k], 0);
        var m := OtMessages(r, WXor(r, BitOf(a[i], k)));
        BoolMsgsNext(msgs, a, rand, i, k, m);
        msgs := msgs + [m];
        x := PlaceBit(x, rand, 64 * i, k);
      }
      PackedNext(cross, rand, x);
      cross := cross + [x];
    }
  }

  // The messages of the sender: a random bit, and that bit XOR the bit of a.
  ghost predicate BoolMsgs(msgs: seq<OtMessages>, a: seq<Word>, rand: seq<Word>) {
    && |msgs| <= 64 * |a| && |msgs| <= |rand|
    && forall j :: 0 <= j < |msgs| ==>
      msgs[j] == OtMessages(BitOf(rand[j], 0), WXor(BitOf(rand[j], 0), BitOf(a[j / 64], j % 64)))
  }

  lemma BoolMsgsNone(a: seq<Word>, rand: seq<Word>)
    ensures BoolMsgs([], a, rand)
  {
  }

  lemma BoolMsgsNext(msgs: seq<OtMessages>, a: seq<Word>, rand: seq<Word>, i: nat, k: nat, m: OtMessages)
    requires BoolMsgs(msgs, a, rand) && |msgs| == 64 * i + k && k < 64 && i < |a| && |msgs| < |rand|
    requires m == OtMessages(BitOf(rand[64 * i + k], 0), WXor(BitOf(rand[64 * i + k], 0), BitOf(a[i], k)))
    ensures BoolMsgs(msgs + [m], a, rand)
  {
    hide WXor, BitOf;
    assert (64 * i + k) / 64 == i && (64 * i + k) % 64 == k;
  }

  // Word i holds the low bits of entries 64 * i to 64 * i + 63.
  ghost predicate Packed(words: seq<Word>, entries: seq<Word>) {
    && 64 * |words| <= |entries|
    && forall i, t :: 0 <= i < |words| && 0 <= t < 64 ==> Bit(words[i], t) == Bit(entries[64 * i + t], 0)
  }

  lemma PackedNone(entries: seq<Word>)
    ensures Packed([], entries)
  {
  }

  lemma PackedNext(words: seq<Word>, entries: seq<Word>, x: Word)
    requires Packed(words, entries) && 64 * |words| + 64 <= |entries|
    requires forall t :: 0 <= t < 64 ==> Bit(x, t) == Bit(entries[64 * |words| + t], 0)
    ensures Packed(words + [x], entries)
  {
    hide Bit;
  }

  // One more low bit put in its place.
  function PlaceBit(x: Word, entries: seq<Word>, off: nat, k: nat): (r: Word)
    requires k < 64 && off + 64 <= |entries|
    requires forall t :: 0 <= t < 64 ==> Bit(x, t) == (t < k && Bit(entries[off + t], 0))
    ensures forall t :: 0 <= t < 64 ==> Bit(r, t) == (t < k + 1 && Bit(entries[off + t], 0))
  {
    hide WXor, Bit, BitWord;
    WXor(x, BitWord(Bit(entries[off + k], 0), k))
  }

  method BoolReceive(recv: seq<Word>, n: nat) returns (cross: seq<Word>)
    requires |recv| == 64 * n
    ensures |cross| == n
    ensures Packed(cross, recv)
  {
    hide WXor, Bit, BitWord, Packed;
    cross := [];
    PackedNone(recv);
    for i := 0 to n
      invariant |cross| == i && Packed(cross, recv)
    {
      var x: Word := 0;
      forall t: nat ensures !Bit(0, t) { BitZero(t); }
      for k := 0 to 64
        invariant forall t :: 0 <= t < 64 ==> Bit(x, t) == (t < k && Bit(recv[64 * i + t], 0))
      {
        x := PlaceBit(x, recv, 64 * i, k);
      }
      PackedNext(cross, recv, x);
      cross := cross + [x];
    }
  }

  // RunBoolOtDirection, both roles: XOR shares of a & b.
  method BoolDirection(a: seq<Word>, b: seq<Word>, rand: seq<Word>, c: Cots, H: Block -> Block)
    returns (ok: bool, crossS: seq<Word>, crossR: seq<Word>)
    requires |a| == |b| && |rand| == 64 * |a| && c.Valid(Padded(64 * |a|))
    ensures ok == (|a| > 0) && |crossS| == |a| && (ok ==> |crossR| == |a|)
    ensures ok ==> forall i :: 0 <= i < |a| ==> WXor(crossS[i], crossR[i]) == WAnd(a[i], b[i])
  {
    hide Bit, BoolMsgs, Packed, WXor, WAnd, BitOf;
    var msgs, choices;
    msgs, crossS := BoolSend(a, rand);
    choices := Choices(b);
    var received := RunChosenOT(c, msgs, choices, H);
    if received.Err? { return false, crossS, []; }
    var recv := received.value;
    ok := true;
    crossR := BoolReceive(recv, |a|);
    forall i | 0 <= i < |a| ensures WXor(crossS[i], crossR[i]) == WAnd(a[i], b[i]) {
      forall t | 0 <= t < 64 ensures (Bit(crossS[i], t) != Bit(crossR[i], t)) == (Bit(a[i], t) && Bit(b[i], t)) {
        CrossBit(a, b, rand, msgs, choices, recv, crossS, crossR, i, t);
      }
      AndEq(crossS[i], crossR[i], a[i], b[i]);
    }
  }

  // Bit t of word i: the receiver's message is the sender's random bit, flipped
  // when both inputs have the bit.
  lemma CrossBit(a: seq<Word>, b: seq<Word>, rand: seq<Word>, msgs: seq<OtMessages>, choices: seq<bool>, recv: seq<Word>,
                 crossS: seq<Word>, crossR: seq<Word>, i: nat, t: nat)
    requires i < |a| == |b| == |crossS| == |crossR| && t < 64
    requires |msgs| == |choices| == |recv| == |rand| == 64 * |a|
    requires BoolMsgs(msgs, a, rand) && Packed(crossS, rand) && Packed(crossR, recv)
    requires choices[64 * i + t] == Bit(b[i], t)
    requires recv[64 * i + t] == if choices[64 * i + t] then msgs[64 * i + t].m1 else msgs[64 * i + t].m0
    ensures (Bit(crossS[i], t) != Bit(crossR[i], t)) == (Bit(a[i], t) && Bit(b[i], t))
  {
    hide Bit, WXor;
    assert (64 * i + t) / 64 == i && (64 * i + t) % 64 == t;
  }

  lemma AndEq(x: Word, y: Word, a: Word, b: Word)
    requires forall t :: 0 <= t < 64 ==> (Bit(x, t) != Bit(y, t)) == (Bit(a, t) && Bit(b, t))
    ensures WXor(x, y) == WAnd(a, b)
  {
    hide Bit, WXor, WAnd;
    WordEq(WXor(x, y), WAnd(a, b));
  }

  // PreprocessBoolTriples for both ranks.
  method BoolTriples(n: nat, a0: seq<Word>, b0: seq<Word>, a1: seq<Word>, b1: seq<Word>,
                     rand0: seq<Word>, rand1: seq<Word>, cA: Cots, cB: Cots, H: Block -> Block)
    returns (ok: bool, q0: seq<BTriple>, q1: seq<BTriple>)
    requires |a0| == |b0| == |a1| == |b1| == n && |rand0| == |rand1| == 64 * n
    requires cA.Valid(Padded(64 * n)) && cB.Valid(Padded(64 * n))
    ensures ok == (n > 0)
    ensures ok ==> |q0| == |q1| == n && forall i :: 0 <= i < n ==> BTripleOk(q0[i], q1[i])
  {
    hide BTripleOk, WXor, WAnd;
    q0, q1 := [], [];
    var okA, crossA0, crossA1 := BoolDirection(a0, b1, rand0, cA, H);
    if !okA { return false, q0, q1; }
    var okB, crossB1, crossB0 := BoolDirection(a1, b0, rand1, cB, H);
    if !okB { return false, q0, q1; }
    for i := 0 to n
      invariant |q0| == |q1| == i && forall j :: 0 <= j < i ==> BTripleOk(q0[j], q1[j])
    {
      var c0 := WXor(WXor(WAnd(a0[i], b0[i]), crossA0[i]), crossB0[i]);
      var c1 := WXor(WXor(WAnd(a1[i], b1[i]), crossA1[i]), crossB1[i]);
      BoolTriple(a0[i], b0[i], a1[i], b1[i], crossA0[i], crossA1[i], crossB0[i], crossB1[i], c0, c1);
      q0, q1 := q0 + [BTriple(a0[i], b0[i], c0)], q1 + [BTriple(a1[i], b1[i], c1)];
    }
    ok := true;
  }

  lemma BoolTriple(a0: Word, b0: Word, a1: Word, b1: Word, x0: Word, x1: Word, y0: Word, y1: Word, c0: Word, c1: Word)
    requires WXor(x0, x1) == WAnd(a0, b1) && WXor(y1, y0) == WAnd(a1, b0)
    requires c0 == WXor(WXor(WAnd(a0, b0), x0), y0) && c1 == WXor(WXor(WAnd(a1, b1), x1), y1)
    ensures BTripleOk(BTriple(a0, b0, c0), BTriple(a1, b1, c1))
  {
    hide Bit;
    forall i | 0 <= i < 64
      ensures (Bit(c0, i) != Bit(c1, i)) == ((Bit(a0, i) != Bit(a1, i)) && (Bit(b0, i) != Bit(b1, i)))
    {
      assert Bit(WXor(x0, x1), i) == Bit(WAnd(a0, b1), i);
      assert Bit(WXor(y1, y0), i) == Bit(WAnd(a1, b0), i);
    }
    WordEq(WXor(c0, c1), WAnd(WXor(a0, a1), WXor(b0, b1)));
  }
}
