// The GYWZ single-point COT protocols: both parties over one correlated store.
module SinglePointCot {
  import opened Bits
  import opened Blocks
  import opened OtStore
  import opened HalfTree

  // ---- Chosen index -------------------------------------------------------

  // The receiver's first message: its index bits masked by its COT choices.
  method MaskChoice(cot: RecvStore, n: nat, index: nat) returns (masked: seq<bool>)
    requires n > 1 && index < n && cot.Valid() && cot.size == Log2Ceil(n)
    ensures |masked| == cot.size
    ensures forall i :: 0 <= i < cot.size ==> masked[i] == (Bit(index, i) != cot.GetChoice(i))
  {
    masked := [];
    for i := 0 to cot.size
      invariant |masked| == i
      invariant forall k :: 0 <= k < i ==> masked[k] == (Bit(index, k) != cot.GetChoice(k))
    {
      masked := masked + [Bit(index, i) != cot.GetChoice(i)];
    }
  }

  method Send(cot: SendStore, n: nat, masked: seq<bool>, seed: Block, output: array<Block>, H: Block -> Block)
    returns (msg: seq<Block>)
    requires n > 1 && cot.Valid() && cot.size == Log2Ceil(n) == |masked| && output.Length >= n
    modifies output
    ensures output[..n] == Tree(cot.size, seed, cot.delta, H, Full())[..n]
    ensures |msg| == cot.size
    ensures forall i :: 0 <= i < |msg| ==>
      msg[i] == Xor(LeftSum(i, seed, cot.delta, H, Full()), cot.GetBlock(i, !masked[i]))
  {
    hide Tree, LeftSum, Xor, And;
    var leftSums := new Block[cot.size](_ => Zero());
    CggmFullEval(cot.delta, seed, n, output, leftSums, H, Full());
    msg := [];
    for i := 0 to cot.size
      invariant |msg| == i
      invariant forall k :: 0 <= k < i ==>
        msg[k] == Xor(LeftSum(k, seed, cot.delta, H, Full()), cot.GetBlock(k, !masked[k]))
    {
      msg := msg + [Xor(leftSums[i], cot.GetBlock(i, !masked[i]))];
    }
  }

  // The sums a receiver derives from a message by removing its own blocks.
  function Unmask(cot: RecvStore, msg: seq<Block>, one: Block): (sibs: seq<Block>)
    requires cot.Valid() && |msg| == cot.size
    ensures |sibs| == cot.size
    ensures forall i :: 0 <= i < |sibs| ==> sibs[i] == Xor(msg[i], And(cot.GetBlock(i), one))
  {
    seq(cot.size, i requires 0 <= i < cot.size => Xor(msg[i], And(cot.GetBlock(i), one)))
  }

  lemma AndFull(x: Block)
    ensures And(x, Full()) == x
  {
    BlockEq(And(x, Full()), x);
  }

  method Recv(cot: RecvStore, n: nat, index: nat, msg: seq<Block>, output: array<Block>, H: Block -> Block)
    requires n > 1 && index < n && cot.Valid() && cot.size == Log2Ceil(n) == |msg| && output.Length >= n
    modifies output
    ensures output[..n] == PuncTree(cot.size, index, Unmask(cot, msg, Full()), H, Full())[..n]
  {
    hide PuncTree, Xor, And;
    var sibs := [];
    for i := 0 to cot.size
      invariant |sibs| == i
      invariant forall k :: 0 <= k < i ==> sibs[k] == Unmask(cot, msg, Full())[k]
    {
      AndFull(cot.GetBlock(i));
      sibs := sibs + [Xor(msg[i], cot.GetBlock(i))];
    }
    assert sibs == Unmask(cot, msg, Full());
    CggmPuncFullEval(index, sibs, n, output, H, Full());
  }

  // left ^ (k ^ (1-m)*d) ^ (k ^ c*d) for m = b ^ c is left ^ (1-b)*d.
  lemma UnmaskBit(left: Block, k: Block, d: Block, b: bool, c: bool)
    ensures Xor(Xor(left, Xor(k, Times(!(b != c), d))), Xor(k, Times(c, d))) == Xor(left, Times(!b, d))
  {
    var x, y := Times(!(b != c), d), Times(c, d);
    XorAssoc(left, Xor(k, x), Xor(k, y));
    Xor4(k, x, k, y);
    XorZero(k);
    TimesXor(!(b != c), c, d);
    XorZero(Xor(x, y));
  }

  // Whatever the index, seed and store, the two outputs agree except at the
  // index, where they differ by delta.
  method ChosenIndexCot(sender: SendStore, receiver: RecvStore, n: nat, index: nat, seed: Block,
                        sent: array<Block>, received: array<Block>, H: Block -> Block)
    requires n > 1 && index < n && Correlated(sender, receiver) && sender.size == Log2Ceil(n)
    requires sent != received && sent.Length >= n && received.Length >= n
    modifies sent, received
    ensures forall i :: 0 <= i < n ==>
      received[i] == (if i == index then Xor(sent[i], sender.delta) else sent[i])
  {
    hide Tree, PuncTree, LeftSum, Xor, And, Bit;
    var masked := MaskChoice(receiver, n, index);
    var msg := Send(sender, n, masked, seed, sent, H);
    Recv(receiver, n, index, msg, received, H);
    var h, one := sender.size, Full();
    ghost var sibs := Unmask(receiver, msg, one);
    AndFull(sender.delta);
    forall l | 0 <= l < h
      ensures sibs[l] == Xor(LeftSum(l, seed, sender.delta, H, one), Times(!Bit(index, l), And(sender.delta, one)))
    {
      AndFull(receiver.GetBlock(l));
      UnmaskBit(LeftSum(l, seed, sender.delta, H, one), sender.buf[sender.ctr + l], sender.delta,
                Bit(index, l), receiver.GetChoice(l));
    }
    Compare(h, index, n, sibs, seed, sender.delta, H, one, sent[..n], received[..n]);
    DivUnique(index, 0, index, Pow2(h));
    assert forall i :: 0 <= i < n ==> received[i] == received[..n][i] && sent[i] == sent[..n][i];
  }

  lemma Compare(h: nat, index: nat, n: nat, sibs: seq<Block>, seed: Block, delta: Block, H: Block -> Block, one: Block,
                s: seq<Block>, r: seq<Block>)
    requires 1 <= h == |sibs| && n <= Pow2(h) && SiblingSums(sibs, index, seed, delta, H, one)
    requires s == Tree(h, seed, delta, H, one)[..n] && r == PuncTree(h, index, sibs, H, one)[..n]
    ensures forall i :: 0 <= i < n ==>
      r[i] == (if i == index % Pow2(h) then Xor(s[i], And(delta, one)) else s[i])
  {
    hide Tree, PuncTree, SiblingSums, Xor, And;
    PuncTreeCorrect(h, index, sibs, seed, delta, H, one);
  }

  // GywzOtExtSend and GywzOtExtRecv, with the checks that guard them.
  method GywzOtExt(sender: SendStore, receiver: RecvStore, n: nat, index: nat, seed: Block,
                   sent: array<Block>, received: array<Block>, H: Block -> Block) returns (ok: bool)
    requires Correlated(sender, receiver) && sent != received && sent.Length >= n && received.Length >= n
    modifies sent, received
    ensures ok == (n > 1 && index < n && sender.size == Log2Ceil(n) && sender.delta != 0)
    ensures ok ==> forall i :: 0 <= i < n ==>
      received[i] == (if i == index then Xor(sent[i], sender.delta) else sent[i])
  {
    ok := n > 1 && index < n && sender.size == Log2Ceil(n) && sender.delta != 0;
    if ok { ChosenIndexCot(sender, receiver, n, index, seed, sent, received, H); }
  }

  // ---- Index fixed by the choices -----------------------------------------

  // The punctured index is read off the choice bits.
  method ChoiceIndex(cot: RecvStore) returns (index: nat)
    requires cot.Valid()
    ensures index < Pow2(cot.size)
    ensures forall i :: 0 <= i < cot.size ==> Bit(index, i) == cot.GetChoice(i)
  {
    ghost var bits := seq(cot.size, i requires 0 <= i < cot.size => cot.GetChoice(i));
    index := 0;
    for i := 0 to cot.size
      invariant index == FromBits(bits[..i])
    {
      FromBitsSnoc(bits[..i], bits[i]);
      assert bits[..i + 1] == bits[..i] + [bits[i]];
      index := index + Num(cot.GetChoice(i)) * Pow2(i);
    }
    assert bits[..cot.size] == bits;
    forall i | 0 <= i < cot.size ensures Bit(index, i) == cot.GetChoice(i) {
      BitFromBits(bits, i);
    }
  }

  // The sender of the fixed-index (one = Full) and Ferret (one = High) variants.
  method SendFixed(cot: SendStore, n: nat, seed: Block, output: array<Block>, H: Block -> Block, one: Block)
    returns (msg: seq<Block>)
    requires n > 1 && cot.Valid() && cot.size == Log2Ceil(n) && output.Length >= n
    modifies output
    ensures output[..n] == Tree(cot.size, And(seed, one), And(cot.delta, one), H, one)[..n]
    ensures |msg| == cot.size
    ensures forall i :: 0 <= i < |msg| ==>
      msg[i] == Xor(LeftSum(i, And(seed, one), And(cot.delta, one), H, one), And(cot.GetBlock(i, true), one))
  {
    hide Tree, LeftSum, Xor, And;
    var delta, masked := And(cot.delta, one), And(seed, one);
    var leftSums := new Block[cot.size](_ => Zero());
    CggmFullEval(delta, masked, n, output, leftSums, H, one);
    msg := [];
    for i := 0 to cot.size
      invariant |msg| == i
      invariant forall k :: 0 <= k < i ==>
        msg[k] == Xor(LeftSum(k, masked, delta, H, one), And(cot.GetBlock(k, true), one))
    {
      msg := msg + [Xor(leftSums[i], And(cot.GetBlock(i, true), one))];
    }
  }

  // left ^ ((k ^ d) & one) ^ ((k ^ c*d) & one) is left ^ (1-c)*(d & one).
  lemma UnmaskFixed(left: Block, k: Block, d: Block, c: bool, one: Block)
    ensures Xor(Xor(left, And(Xor(k, Times(true, d)), one)), And(Xor(k, Times(c, d)), one))
         == Xor(left, Times(!c, And(d, one)))
  {
    BlockEq(Xor(Xor(left, And(Xor(k, Times(true, d)), one)), And(Xor(k, Times(c, d)), one)),
            Xor(left, Times(!c, And(d, one))));
  }

  // The receiver of the fixed-index variants; the index may be at or beyond n.
  method RecvFixed(cot: RecvStore, n: nat, msg: seq<Block>, output: array<Block>, H: Block -> Block, one: Block)
    returns (index: nat)
    requires n > 1 && cot.Valid() && cot.size == Log2Ceil(n) == |msg| && output.Length >= n
    modifies output
    ensures index < Pow2(cot.size) && forall i :: 0 <= i < cot.size ==> Bit(index, i) == cot.GetChoice(i)
    ensures output[..n] == PuncTree(cot.size, index, Unmask(cot, msg, one), H, one)[..n]
  {
    index := ChoiceIndex(cot);
    var sibs := [];
    for i := 0 to cot.size
      invariant |sibs| == i
      invariant forall k :: 0 <= k < i ==> sibs[k] == Unmask(cot, msg, one)[k]
    {
      sibs := sibs + [Xor(msg[i], And(cot.GetBlock(i), one))];
    }
    assert sibs == Unmask(cot, msg, one);
    CggmPuncFullEval(index, sibs, n, output, H, one);
  }

  // Both parties of the fixed-index protocols. The outputs agree except at the
  // index the choices spell, if that is below n.
  method FixedIndexCot(sender: SendStore, receiver: RecvStore, n: nat, seed: Block,
                       sent: array<Block>, received: array<Block>, H: Block -> Block, one: Block) returns (index: nat)
    requires n > 1 && Correlated(sender, receiver) && sender.size == Log2Ceil(n)
    requires sent != received && sent.Length >= n && received.Length >= n
    modifies sent, received
    ensures index < Pow2(receiver.size) && forall i :: 0 <= i < receiver.size ==> Bit(index, i) == receiver.GetChoice(i)
    ensures sent[..n] == Tree(sender.size, And(seed, one), And(sender.delta, one), H, one)[..n]
    ensures forall i :: 0 <= i < n ==>
      received[i] == (if i == index then Xor(sent[i], And(sender.delta, one)) else sent[i])
  {
    hide Tree, PuncTree, LeftSum, Xor, And, Bit;
    var msg := SendFixed(sender, n, seed, sent, H, one);
    index := RecvFixed(receiver, n, msg, received, H, one);
    ghost var h, sibs := sender.size, Unmask(receiver, msg, one);
    ghost var s, d := And(seed, one), And(sender.delta, one);
    MaskXor(sender.delta, sender.delta, one);
    forall l | 0 <= l < h
      ensures sibs[l] == Xor(LeftSum(l, s, d, H, one), Times(!Bit(index, l), And(d, one)))
    {
      UnmaskFixed(LeftSum(l, s, d, H, one), sender.buf[sender.ctr + l], sender.delta, receiver.GetChoice(l), one);
    }
    Compare(h, index, n, sibs, s, d, H, one, sent[..n], received[..n]);
    DivUnique(index, 0, index, Pow2(h));
    assert forall i :: 0 <= i < n ==> received[i] == received[..n][i] && sent[i] == sent[..n][i];
  }

  // Leaves of a tree masked by High have their low bit clear.
  lemma {:induction false} LeavesMasked(l: nat, seed: Block, delta: Block, H: Block -> Block, i: nat)
    requires l >= 1 && i < Pow2(l)
    ensures !Lsb(Tree(l, seed, delta, H, High())[i])
  {
    if l > 1 {
      var m := Pow2(l - 1);
      LeavesMasked(l - 1, seed, delta, H, if i < m then i else i - m);
    }
  }

  // Setting the low bit of s ^ (delta & High) gives s ^ delta.
  lemma SetLowBit(s: Block, delta: Block)
    requires Lsb(delta) && !Lsb(s)
    ensures Or(Xor(s, And(delta, High())), Not(High())) == Xor(s, delta)
  {
    BlockEq(Or(Xor(s, And(delta, High())), Not(High())), Xor(s, delta));
  }

  // The Ferret variant: the receiver marks its punctured leaf in the low bit, so
  // that the outputs are compact COTs.
  method FerretCot(sender: SendStore, receiver: RecvStore, n: nat, seed: Block,
                   sent: array<Block>, received: array<Block>, H: Block -> Block)
    requires n > 1 && Correlated(sender, receiver) && sender.size == Log2Ceil(n)
    requires receiver.compact && Lsb(sender.delta)
    requires sent != received && sent.Length >= n && received.Length >= n
    modifies sent, received
    ensures CompactCots(sent[..n], received[..n], sender.delta)
  {
    var index := FixedIndexCot(sender, receiver, n, seed, sent, received, H, High());
    ghost var h := sender.size;
    forall i | 0 <= i < n ensures !Lsb(sent[i]) {
      LeavesMasked(h, And(seed, High()), And(sender.delta, High()), H, i);
      assert sent[i] == sent[..n][i];
    }
    if index < n {
      SetLowBit(sent[index], sender.delta);
      received[index] := Or(received[index], Not(High()));
    }
    forall i | 0 <= i < n ensures CompactCot(sent[i], received[i], sender.delta) {
      XorZero(sent[i]);
    }
  }

  // The fixed-index protocols with their checks.
  method GywzOtExtFixed(sender: SendStore, receiver: RecvStore, n: nat, seed: Block,
                        sent: array<Block>, received: array<Block>, H: Block -> Block) returns (ok: bool, index: nat)
    requires Correlated(sender, receiver) && sent != received && sent.Length >= n && received.Length >= n
    modifies sent, received
    ensures ok == (n > 1 && sender.size == Log2Ceil(n) && sender.delta != 0)
    ensures ok ==> index < Pow2(receiver.size) && forall i :: 0 <= i < receiver.size ==> Bit(index, i) == receiver.GetChoice(i)
    ensures ok ==> forall i :: 0 <= i < n ==>
      received[i] == (if i == index then Xor(sent[i], sender.delta) else sent[i])
  {
    hide Xor, And, Bit, Tree;
    ok, index := n > 1 && sender.size == Log2Ceil(n) && sender.delta != 0, 0;
    if ok {
      index := FixedIndexCot(sender, receiver, n, seed, sent, received, H, Full());
      AndFull(sender.delta);
    }
  }

  method GywzOtExtFerret(sender: SendStore, receiver: RecvStore, n: nat, seed: Block,
                         sent: array<Block>, received: array<Block>, H: Block -> Block) returns (ok: bool)
    requires Correlated(sender, receiver) && Lsb(sender.delta)
    requires sent != received && sent.Length >= n && received.Length >= n
    modifies sent, received
    ensures ok == (n > 1 && sender.size == Log2Ceil(n) && receiver.compact)
    ensures ok ==> CompactCots(sent[..n], received[..n], sender.delta)
  {
    ok := n > 1 && sender.size == Log2Ceil(n) && receiver.compact;
    if ok { FerretCot(sender, receiver, n, seed, sent, received, H); }
  }
}
