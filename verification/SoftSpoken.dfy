// SoftSpoken OT extension: the one-time setup from 128 base OTs through punctured
// trees, and the batched extension on top of the small-field VOLE.
module SoftSpoken {
  import opened Bits
  import opened Blocks
  import opened OtStore
  import opened BitMatrix
  import opened Transposes
  import opened Reduction
  import opened SfVole
  import Sgrr

  // The two parties hold matching material.
  ghost predicate Matched(S: VoleSender, R: VoleReceiver) {
    S.Valid(R.leaves) && R.Valid() && S.k == R.k && S.compact == R.compact
  }

  // Their counters agree as well.
  ghost predicate Paired(S: VoleSender, R: VoleReceiver)
    reads S, R
  {
    Matched(S, R) && S.counter == R.counter
  }

  // ---- One-time setup -----------------------------------------------------

  // In compact mode the first base OT is fixed: choice 1 and zero blocks.
  function BaseOts(rots: Rots, compact: bool): (r: Rots)
    requires rots.Valid() && |rots.pairs| == 128
    ensures r.Valid() && |r.pairs| == 128 && (compact ==> r.choices[0])
  {
    if compact then
      Rots([OtPair(0, 0)] + rots.pairs[1..], [true] + rots.choices[1..], [0] + rots.blocks[1..])
    else rots
  }

  function Slice(rots: Rots, from: nat, size: nat): (r: Rots)
    requires rots.Valid() && from + size <= |rots.pairs|
    ensures r.Valid() && |r.pairs| == size && forall j :: 0 <= j < size ==> r.choices[j] == rots.choices[from + j]
  {
    Rots(rots.pairs[from..from + size], rots.choices[from..from + size], rots.blocks[from..from + size])
  }

  // All leaves but the one at q, in order, with leaf 0 at its place.
  ghost predicate WithoutLeaf(compressed: seq<Block>, leaves: seq<Block>, q: nat) {
    && |compressed| + 1 == |leaves|
    && forall j :: 0 <= j < |compressed| ==> compressed[j] == leaves[if j + 1 == q then 0 else j + 1]
  }

  // One tree: the receiver's leaves, and the sender's without the punctured one,
  // leaf 0 taking its place.
  method SetupTree(sub: Rots, lim: nat, seed: Block, mal: bool, g: Sgrr.Split, b: Sgrr.Hashes, H: Block -> Block)
    returns (leaves: seq<Block>, q: nat, compressed: seq<Block>)
    requires sub.Valid() && 1 <= lim == |sub.pairs| <= 128
    ensures |leaves| == Pow2(lim) && q < Pow2(lim) && WithoutLeaf(compressed, leaves, q)
    ensures forall j :: 0 <= j < lim ==> Bit(q, j) == sub.choices[j]
  {
    hide Bit, Pow2, Log2Ceil, Sgrr.Tree;
    Log2OfPow2(lim);
    var n := Pow2(lim);
    var sent, received := new Block[n], new Block[n];
    assert sub.choices[..lim] == sub.choices;
    var ok;
    ok, q := Sgrr.SgrrOtExtFixed(sub, n, seed, sent, received, mal, g, b, H);
    forall j | 0 <= j < lim ensures Bit(q, j) == sub.choices[j] { BitFromBits(sub.choices, j); }
    leaves := sent[..n];
    assert forall y :: 0 <= y < n && y != q ==> received[y] == received[..n][y] == leaves[y];
    received[q] := received[0];
    compressed := [];
    for j := 0 to n - 1
      invariant |compressed| == j && forall y :: 0 <= y < j ==> compressed[y] == leaves[if y + 1 == q then 0 else y + 1]
    {
      compressed := compressed + [received[j + 1]];
    }
  }

  // The material of the first i trees.
  ghost predicate SetUp(leaves: seq<Block>, compress: seq<Block>, idx: seq<nat>, k: nat, i: nat)
    requires k > 0
  {
    && i <= Trees(k) && |idx| == i
    && |leaves| == (if i < Trees(k) then Off(k, i) else Total(k))
    && Trees(k) <= Total(k) && |compress| == (if i < Trees(k) then HashOff(k, i) else Total(k) - Trees(k))
    && (forall j :: 0 <= j < i ==> idx[j] < Pow2(Lim(k, j)))
    && (forall j, y :: 0 <= j < i && 1 <= y < Pow2(Lim(k, j)) ==> CompressedAt(compress, leaves, k, j, idx[j], y))
  }

  lemma SetUpStep(leaves: seq<Block>, compress: seq<Block>, idx: seq<nat>, k: nat, i: nat,
                  more: seq<Block>, q: nat, compressed: seq<Block>)
    requires k > 0 && i < Trees(k) && SetUp(leaves, compress, idx, k, i)
    requires |more| == Pow2(Lim(k, i)) && q < Pow2(Lim(k, i)) && WithoutLeaf(compressed, more, q)
    ensures SetUp(leaves + more, compress + compressed, idx + [q], k, i + 1)
  {
    hide Pow2, Trees, Lim, Off, HashOff, Total;
    CompressedFits(k, i);
    OffInside(k, i);
    HashStep(k, i);
    forall j, y | 0 <= j < i + 1 && 1 <= y < Pow2(Lim(k, j))
      ensures CompressedAt(compress + compressed, leaves + more, k, j, (idx + [q])[j], y)
    {
      if j < i {
        assert CompressedAt(compress, leaves, k, j, idx[j], y);
      } else {
        assert compressed[y - 1] == more[if y == q then 0 else y];
      }
    }
  }

  lemma SetUpDone(leaves: seq<Block>, compress: seq<Block>, idx: seq<nat>, k: nat)
    requires k > 0 && SetUp(leaves, compress, idx, k, Trees(k))
    ensures Compressed(compress, leaves, k, idx)
  {
  }

  // The masks of the first rows: all ones where the tree's index has the bit.
  ghost predicate Masked(mask: seq<Block>, idx: seq<nat>, choices: seq<bool>, k: nat)
    requires k > 0 && |choices| == 128
  {
    |mask| <= 128 && forall r :: 0 <= r < |mask| ==> MaskedAt(mask, idx, choices, k, r)
  }

  ghost predicate MaskedAt(mask: seq<Block>, idx: seq<nat>, choices: seq<bool>, k: nat, r: nat)
    requires k > 0 && |choices| == 128 && r < |mask| && r < 128
  {
    && TreeIn(k, r) < |idx| && mask[r] == (if choices[r] then Full() else Zero())
    && Bit(idx[TreeIn(k, r)], r % k) == choices[r]
  }

  // The masks of one tree.
  method MaskTree(mask: seq<Block>, idx: seq<nat>, ghost choices: seq<bool>, k: nat, i: nat, lim: nat) returns (mask': seq<Block>)
    requires k > 0 && |choices| == 128 && i < |idx| && |mask| == i * k && |mask| + lim <= 128 && lim <= k
    requires Masked(mask, idx, choices, k)
    requires forall j :: 0 <= j < lim ==> Bit(idx[i], j) == choices[|mask| + j]
    ensures |mask'| == |mask| + lim && Masked(mask', idx, choices, k)
  {
    hide Bit, TreeIn, Full, Zero;
    mask' := mask;
    for j := 0 to lim
      invariant |mask'| == |mask| + j && Masked(mask', idx, choices, k)
    {
      ghost var was := mask';
      mask' := mask' + [if Bit(idx[i], j) then Full() else Zero()];
      InTree(k, i, j, |was|);
      forall r | 0 <= r < |mask'| ensures MaskedAt(mask', idx, choices, k, r) {
        if r < |was| { assert MaskedAt(was, idx, choices, k, r); }
      }
    }
  }

  lemma InTree(k: nat, i: nat, j: nat, r: nat)
    requires k > 0 && j < k && r == i * k + j && r < 128
    ensures TreeIn(k, r) == i && r % k == j
  {
    RowOf(k, i, j);
  }

  lemma MoreIndices(mask: seq<Block>, idx: seq<nat>, q: nat, choices: seq<bool>, k: nat)
    requires k > 0 && |choices| == 128 && Masked(mask, idx, choices, k)
    ensures Masked(mask, idx + [q], choices, k)
  {
    hide Bit;
    forall r | 0 <= r < |mask| ensures MaskedAt(mask, idx + [q], choices, k, r) {
      assert MaskedAt(mask, idx, choices, k, r);
    }
  }

  // All trees.
  method SetupTrees(base: Rots, k: nat, mal: bool, seeds: nat -> Block, g: Sgrr.Split, b: Sgrr.Hashes, H: Block -> Block)
    returns (leaves: seq<Block>, compress: seq<Block>, idx: seq<nat>, mask: seq<Block>)
    requires base.Valid() && |base.pairs| == 128 && k > 0
    ensures Trees(k) > 0 && Compressed(compress, leaves, k, idx) && |mask| == 128 && Masked(mask, idx, base.choices, k)
  {
    hide Bit, Pow2, SetUp, Masked, Trees, Lim, Compressed, Off, HashOff, Total;
    leaves, compress, idx, mask := [], [], [], [];
    OffStart(k);
    SetupStart(k, base.choices);
    for i := 0 to Trees(k)
      invariant SetUp(leaves, compress, idx, k, i) && |idx| == i
      invariant |mask| == Rows(k, i) && Masked(mask, idx, base.choices, k)
    {
      RowsStep(k, i);
      Geometry(k, i);
      var lim := Lim(k, i);
      var sub := Slice(base, i * k, lim);
      var more, q, compressed := SetupTree(sub, lim, seeds(i), mal, g, b, H);
      SetUpStep(leaves, compress, idx, k, i, more, q, compressed);
      MoreIndices(mask, idx, q, base.choices, k);
      leaves, compress, idx := leaves + more, compress + compressed, idx + [q];
      mask := MaskTree(mask, idx, base.choices, k, i, lim);
    }
    SetUpDone(leaves, compress, idx, k);
  }

  lemma SetupStart(k: nat, choices: seq<bool>)
    requires k > 0 && |choices| == 128
    ensures SetUp([], [], [], k, 0) && Masked([], [], choices, k)
  {
    OffStart(k);
    HashStart(k);
    CompressedFits(k, 0);
  }

  // OneTimeSetup on both sides; S0 and R0 are what an earlier setup left, if there
  // was one.
  method OneTimeSetup(S0: VoleSender?, R0: VoleReceiver?, rots: Rots, k: nat, compact: bool, mal: bool,
                      seeds: nat -> Block, g: Sgrr.Split, b: Sgrr.Hashes, H: Block -> Block)
    returns (ok: bool, S: VoleSender?, R: VoleReceiver?)
    requires rots.Valid() && k > 0 && (S0 == null <==> R0 == null)
    ensures S0 != null ==> ok && S == S0 && R == R0
    ensures S0 == null ==> ok == (|rots.pairs| == 128)
    ensures S0 == null && ok ==>
      && S != null && R != null && fresh(S) && fresh(R) && Paired(S, R) && S.k == k && S.compact == compact
      && forall r :: 0 <= r < 128 ==> Bit(S.delta, r) == BaseOts(rots, compact).choices[r]
  {
    hide Bit, Compressed, Masked, TreeIn, Full, Zero, Trees;
    if S0 != null { return true, S0, R0; }
    ok, S, R := |rots.pairs| == 128, null, null;
    if ok {
      var base := BaseOts(rots, compact);
      var leaves, compress, idx, mask := SetupTrees(base, k, mal, seeds, g, b, H);
      var delta := ChoiceBlock(base.choices, 0);
      S := new VoleSender(k, compact, delta, compress, idx, mask);
      R := new VoleReceiver(k, compact, leaves);
      MasksHold(S, base.choices);
      LeavesFit(compress, leaves, k, idx);
    }
  }

  lemma MasksHold(S: VoleSender, choices: seq<bool>)
    requires S.k > 0 && |S.mask| == 128 && |choices| == 128 && Masked(S.mask, S.idx, choices, S.k)
    requires forall r :: 0 <= r < 128 ==> Bit(S.delta, r) == choices[r]
    ensures forall r :: 0 <= r < 128 ==> S.MaskAt(r)
  {
    hide Bit, Full, Zero, TreeIn;
    forall r | 0 <= r < 128 ensures S.MaskAt(r) {
      assert MaskedAt(S.mask, S.idx, choices, S.k, r);
    }
  }

  lemma LeavesFit(compress: seq<Block>, leaves: seq<Block>, k: nat, idx: seq<nat>)
    requires k > 0 && Compressed(compress, leaves, k, idx)
    ensures |leaves| == Total(k)
  {
  }

  // ---- The extension ------------------------------------------------------

  // The buffers the parties keep over a run.
  datatype Buffers = Buffers(hash: array<Block>, xorS: array<Block>, xorR: array<Block>)

  ghost predicate Buffered(B: Buffers, S: VoleSender, R: VoleReceiver)
    reads B.hash, B.xorS, B.xorR
  {
    && Matched(S, R) && B.hash != B.xorS && B.hash != B.xorR && B.xorS != B.xorR
    && B.hash.Length == |S.compress| && B.xorS.Length == B.xorR.Length == Trees(S.k) * Pow2(S.k)
    && ZeroFrom(B.xorS[..], Total(S.k)) && ZeroFrom(B.xorR[..], Total(S.k))
  }

  ghost predicate Ready(B: Buffers, S: VoleSender, R: VoleReceiver)
    reads B.hash, B.xorS, B.xorR, S, R
  {
    Buffered(B, S, R) && S.counter == R.counter
  }

  // The message u and the rows w of a batch that the receiver made at counter ctr.
  ghost predicate Sent(R: VoleReceiver, ctr: Block, choice: Block, u: seq<Block>, w: seq<Block>, H: Block -> Block) {
    && R.k > 0 && |u| == Trees(R.k) && |w| == 128
    && var s := Filled(R.leaves, ctr, Trees(R.k) * Pow2(R.k), H);
      && (forall i :: 0 <= i < Trees(R.k) ==> u[i] == Xor(choice, XorSum(TreeOf(s, R.k, i))))
      && (forall r :: 0 <= r < 128 ==> w[r] == if R.compact && r == 0 then choice else RowValue(s, R.k, r))
  }

  // GenSfVole at the receiver.
  method RecvVole(ghost S: VoleSender, R: VoleReceiver, B: Buffers, choice: Block, H: Block -> Block)
    returns (ok: bool, u: seq<Block>, w: seq<Block>)
    requires Buffered(B, S, R)
    modifies R`counter, B.xorR
    ensures ok == (R.k <= 64)
    ensures ok ==> Buffered(B, S, R) && R.counter == Next(old(R.counter)) && Sent(R, old(R.counter), choice, u, w, H)
  {
    hide Xor, Compressed, Total, RowValue, XorSum, TreeOf, ZeroFrom, Pow2, Filled, VoleSender.Valid;
    var U := new Block[Trees(R.k)];
    var W := new Block[128];
    ok := R.GenSfVole(choice, B.xorR, U, W, H);
    u, w := U[..], W[..];
  }

  // The rows of the two sides differ by the choice where delta has a bit; in
  // compact mode the first ones are fixed.
  ghost predicate Related(S: VoleSender, v: seq<Block>, w: seq<Block>, choice: Block) {
    && |v| == |w| == 128
    && (forall r :: 0 <= r < 128 ==> w[r] == Xor(v[r], Times(Bit(S.delta, r), choice)))
    && (S.compact ==> v[0] == Zero() && w[0] == choice)
  }

  // GenSfVole at the sender, from the message of the same batch.
  method SendVole(S: VoleSender, ghost R: VoleReceiver, B: Buffers, u: seq<Block>, ghost choice: Block, ghost w: seq<Block>,
                  H: Block -> Block) returns (ok: bool, v: seq<Block>)
    requires Buffered(B, S, R) && Sent(R, S.counter, choice, u, w, H)
    modifies S`counter, B.hash, B.xorS
    ensures ok == (S.k <= 64)
    ensures ok ==> Buffered(B, S, R) && S.counter == Next(old(S.counter)) && Related(S, v, w, choice)
  {
    hide Bit, Xor, Compressed, Total, RowValue, UnmaskedRow, XorSum, TreeOf, ZeroFrom, Full, Zero, Pow2, Cleared, Filled;
    ghost var ctr := S.counter;
    var U := new Block[|u|](i requires 0 <= i < |u| => u[i]);
    var V := new Block[128];
    assert U[..] == u;
    ok := S.GenSfVole(B.hash, B.xorS, U, V, R.leaves, H);
    v := V[..];
    if !ok { return; }
    forall r | 0 <= r < 128 ensures w[r] == Xor(v[r], Times(Bit(S.delta, r), choice)) {
      RowRelated(S, R, ctr, u, choice, w, v, r, H);
    }
  }

  lemma RowRelated(S: VoleSender, R: VoleReceiver, ctr: Block, u: seq<Block>, choice: Block, w: seq<Block>, v: seq<Block>,
                   r: nat, H: Block -> Block)
    requires Matched(S, R) && Sent(R, ctr, choice, u, w, H) && |v| == 128 && r < 128
    requires
      var s := Cleared(Filled(R.leaves, ctr, Trees(S.k) * Pow2(S.k), H), S.k, S.idx);
      v[r] == if S.compact && r == 0 then Zero() else UnmaskedRow(s, S.k, r, u, S.mask)
    ensures w[r] == Xor(v[r], Times(Bit(S.delta, r), choice)) && (S.compact && r == 0 ==> w[0] == choice)
  {
    hide Bit, Xor, Compressed, Total, RowValue, UnmaskedRow, XorSum, TreeOf, Full, Zero, Pow2, Cleared, Filled;
    if S.compact && r == 0 {
      XorZero(choice);
    } else {
      assert S.MaskAt(r);
      IndexSmall(S, R.leaves, TreeIn(S.k, r));
      RowCorrelation(R.leaves, ctr, S.k, S.idx, r, S.delta, choice, u, S.mask, H);
    }
  }

  lemma IndexSmall(S: VoleSender, leaves: seq<Block>, i: nat)
    requires S.Valid(leaves) && i < Trees(S.k)
    ensures |S.idx| == Trees(S.k) && S.idx[i] < Pow2(S.k)
  {
    hide Pow2, Trees, Lim;
    Geometry(S.k, i);
  }

  method TransposeRows(rows: seq<Block>, cpu: Cpu) returns (t: seq<Block>)
    requires |rows| == 128
    ensures t == Transpose(rows)
  {
    hide Transpose;
    var a := new Block[128](i requires 0 <= i < 128 => rows[i]);
    assert a[..] == rows;
    MatrixTranspose(a, cpu);
    t := a[..];
  }

  // The transposed rows are correlated OTs.
  lemma TransposedCots(S: VoleSender, v: seq<Block>, w: seq<Block>, choice: Block)
    requires Related(S, v, w, choice)
    ensures forall j :: 0 <= j < 128 ==> Cot(Transpose(v)[j], Transpose(w)[j], Bit(choice, j), S.delta, S.compact)
  {
    hide Bit, Xor, Transpose, Zero;
    TransposeCorrelated(v, w, choice, S.delta);
    if S.compact { FirstRows(v, w, choice); }
  }

  // With the first rows fixed, the low bits of the columns are 0 and the choices.
  lemma FirstRows(v: seq<Block>, w: seq<Block>, choice: Block)
    requires Square(v) && Square(w) && v[0] == Zero() && w[0] == choice
    ensures forall j :: 0 <= j < 128 ==> !Lsb(Transpose(v)[j]) && Lsb(Transpose(w)[j]) == Bit(choice, j)
  {
    hide Bit, Transpose;
    forall j | 0 <= j < 128 ensures !Lsb(Transpose(v)[j]) && Lsb(Transpose(w)[j]) == Bit(choice, j) {
      assert Bit(Transpose(v)[j], 0) == Bit(v[0], j);
      assert Bit(Transpose(w)[j], 0) == Bit(w[0], j);
    }
  }

  // The relation of one correlated OT.
  ghost predicate Cot(s: Block, r: Block, choice: bool, delta: Block, compact: bool) {
    && r == Xor(s, Times(choice, delta))
    && (compact ==> !Lsb(s) && Lsb(r) == choice)
  }

  ghost predicate Cots(s: seq<Block>, r: seq<Block>, choices: seq<bool>, n: nat, delta: Block, compact: bool)
    requires n <= |s| == |r| == |choices|
  {
    forall g :: 0 <= g < n ==> Cot(s[g], r[g], choices[g], delta, compact)
  }

  // ExtendChoice: 64 random bits for the check, then zeros up to the last block.
  function ExtendChoice(choices: seq<bool>, tail: seq<bool>): seq<bool> { choices + tail }

  // The receiver's choices in batch g.
  function BatchChoice(choices: seq<bool>, tail: seq<bool>, g: nat): (r: Block)
    ensures OfBatch(r, choices, g)
  {
    hide Bit;
    ChoiceBlock(ExtendChoice(choices, tail), g)
  }

  ghost predicate OfBatch(choice: Block, choices: seq<bool>, g: nat) {
    forall j :: 0 <= j < 128 && 128 * g + j < |choices| ==> Bit(choice, j) == choices[128 * g + j]
  }

  // A single batch, number g, in slot t: VOLE and message of the receiver, VOLE of
  // the sender, transposed and delivered as far as outputs are asked for.
  method RunBatch(S: VoleSender, R: VoleReceiver, B: Buffers, choices: seq<bool>, tail: seq<bool>, g: nat,
                  Vs: array<seq<Block>>, Ws: array<seq<Block>>, t: nat, outS: array<Block>, outR: array<Block>,
                  H: Block -> Block, cpu: Cpu) returns (ok: bool)
    requires Ready(B, S, R) && t < Vs.Length == Ws.Length && Vs != Ws
    requires outS.Length == outR.Length == |choices| && Separate(B, outS, outR)
    requires Cots(outS[..], outR[..], choices, Min(128 * g, |choices|), S.delta, S.compact)
    modifies S`counter, R`counter, B.hash, B.xorS, B.xorR, Vs, Ws, outS, outR
    ensures ok == (S.k <= 64)
    ensures ok ==> Ready(B, S, R)
    ensures ok ==> Cots(outS[..], outR[..], choices, Min(128 * (g + 1), |choices|), S.delta, S.compact)
  {
    hide Xor, Cot, Cots, Sent, Related, Buffered, BatchChoice, OfBatch, Next;
    var choice := BatchChoice(choices, tail, g);
    SameSize(B, S, R);
    var u;
    ok, u, Ws[t] := RecvVole(S, R, B, choice, H);
    if !ok { return; }
    ok, Vs[t] := SendVole(S, R, B, u, choice, Ws[t], H);
    if |choices| > 128 * g {
      DeliverSlot(S, choices, choice, g, Vs, Ws, t, outS, outR, cpu);
    }
  }

  lemma SameSize(B: Buffers, S: VoleSender, R: VoleReceiver)
    requires Buffered(B, S, R)
    ensures S.k == R.k
  {
  }

  // The transposes of one slot, and its rows that are asked for.
  method DeliverSlot(ghost S: VoleSender, choices: seq<bool>, ghost choice: Block, g: nat, Vs: array<seq<Block>>,
                     Ws: array<seq<Block>>, t: nat, outS: array<Block>, outR: array<Block>, cpu: Cpu)
    requires t < Vs.Length == Ws.Length && Vs != Ws && Related(S, Vs[t], Ws[t], choice)
    requires outS != outR && outS.Length == outR.Length == |choices| > 128 * g
    requires Cots(outS[..], outR[..], choices, 128 * g, S.delta, S.compact) && OfBatch(choice, choices, g)
    modifies Vs, Ws, outS, outR
    ensures forall j :: 0 <= j < Ws.Length && j != t ==> Ws[j] == old(Ws[j])
    ensures Cots(outS[..], outR[..], choices, Min(128 * (g + 1), |choices|), S.delta, S.compact)
  {
    hide Bit, Xor, Cot, Cots, Transpose;
    TransposedCots(S, Vs[t], Ws[t], choice);
    Vs[t] := TransposeRows(Vs[t], cpu);
    Ws[t] := TransposeRows(Ws[t], cpu);
    Deliver(Vs[t], Ws[t], choice, choices, g, outS, outR, S.delta, S.compact);
  }

  // The rows of batch g that are asked for.
  method Deliver(v: seq<Block>, w: seq<Block>, ghost choice: Block, choices: seq<bool>, g: nat,
                 outS: array<Block>, outR: array<Block>, ghost delta: Block, ghost compact: bool)
    requires |v| == |w| == 128 && outS != outR && outS.Length == outR.Length == |choices| > 128 * g
    requires Cots(outS[..], outR[..], choices, 128 * g, delta, compact)
    requires forall j :: 0 <= j < 128 ==> Cot(v[j], w[j], Bit(choice, j), delta, compact)
    requires forall j :: 0 <= j < 128 && 128 * g + j < |choices| ==> Bit(choice, j) == choices[128 * g + j]
    modifies outS, outR
    ensures Cots(outS[..], outR[..], choices, Min(128 * (g + 1), |choices|), delta, compact)
  {
    hide Bit, Xor, Cot;
    var limit := Min(128, |choices| - 128 * g);
    ghost var was, had := outS[..], outR[..];
    for j := 0 to limit
      invariant forall x :: 0 <= x < 128 * g ==> outS[x] == was[x] && outR[x] == had[x]
      invariant forall x :: 128 * g <= x < 128 * g + j ==> outS[x] == v[x - 128 * g] && outR[x] == w[x - 128 * g]
    {
      outS[128 * g + j] := v[j];
      outR[128 * g + j] := w[j];
    }
    Delivered(was, had, outS[..], outR[..], v, w, choice, choices, g, delta, compact);
  }

  lemma Delivered(was: seq<Block>, had: seq<Block>, s: seq<Block>, r: seq<Block>, v: seq<Block>, w: seq<Block>, choice: Block,
                  choices: seq<bool>, g: nat, delta: Block, compact: bool)
    requires |v| == |w| == 128 && |was| == |had| == |s| == |r| == |choices| > 128 * g
    requires Cots(was, had, choices, 128 * g, delta, compact)
    requires forall j :: 0 <= j < 128 ==> Cot(v[j], w[j], Bit(choice, j), delta, compact)
    requires forall j :: 0 <= j < 128 && 128 * g + j < |choices| ==> Bit(choice, j) == choices[128 * g + j]
    requires forall x :: 0 <= x < 128 * g ==> s[x] == was[x] && r[x] == had[x]
    requires forall x :: 128 * g <= x < |choices| && x < 128 * g + 128 ==> s[x] == v[x - 128 * g] && r[x] == w[x - 128 * g]
    ensures Cots(s, r, choices, Min(128 * (g + 1), |choices|), delta, compact)
  {
    hide Bit, Xor, Cot;
    forall x | 0 <= x < |choices| && x < 128 * g + 128 ensures Cot(s[x], r[x], choices[x], delta, compact) {
      if x >= 128 * g {
        var j := x - 128 * g;
        assert Cot(v[j], w[j], Bit(choice, j), delta, compact) && Bit(choice, j) == choices[128 * g + j];
      } else {
        assert Cot(was[x], had[x], choices[x], delta, compact);
      }
    }
  }

  function Min(a: nat, b: nat): nat { if a <= b then a else b }

  // The outputs are not the parties' own buffers.
  predicate Separate(B: Buffers, outS: array<Block>, outR: array<Block>) {
    outS != outR && {B.hash, B.xorS, B.xorR} !! {outS, outR}
  }

  // ---- The batches of a run -----------------------------------------------

  // The numbers of batches: expand_numOt / 128 in all, of which whole super
  // batches first; what remains fits the step + 1 slots.
  lemma BatchNumbers(n: nat, step: nat, superNum: nat, expand: nat, batchNum: int)
    requires step > 0 && superNum == n / (step * 128) && expand == (n + 64 + 127) / 128 * 128
    requires batchNum == (expand - superNum * (step * 128) + 127) / 128
    ensures expand >= superNum * (step * 128) && 0 <= batchNum <= step + 1
    ensures (superNum * step + batchNum) * 128 == expand >= n
    ensures superNum * step * 128 <= n
  {
    DivMod(n, step * 128);
    var e, q := (n + 191) / 128, superNum * step;
    NumbersArith(n, step, superNum, n % (step * 128), e);
    assert expand == e * 128 && batchNum == e - q;
  }

  lemma NumbersArith(n: nat, step: nat, t: nat, r: nat, e: nat)
    requires step > 0 && n == t * (step * 128) + r && r < step * 128 && e == (n + 191) / 128
    ensures t * (step * 128) == t * step * 128 && 0 <= t * step <= e <= t * step + step + 1
    ensures (e * 128 - t * (step * 128) + 127) / 128 == e - t * step
  {
    assert t * (step * 128) == t * step * 128;
    assert t * step >= 0;
  }

  method BatchCounts(n: nat, step: nat) returns (superNum: nat, first: nat, expand: nat, batchNum: nat)
    requires step > 0
    ensures first == superNum * step && batchNum <= step + 1 && (first + batchNum) * 128 == expand >= n && first * 128 <= n
    ensures first + batchNum >= 1
  {
    superNum := n / (step * 128);
    expand := (n + 64 + 127) / 128 * 128;
    BatchNumbers(n, step, superNum, expand, (expand - superNum * (step * 128) + 127) / 128);
    batchNum := (expand - superNum * (step * 128) + 127) / 128;
    first := superNum * step;
  }

  // Fresh buffers, zero as the source allocates them.
  method NewBuffers(S: VoleSender, R: VoleReceiver) returns (B: Buffers)
    requires Paired(S, R)
    ensures Ready(B, S, R) && fresh(B.hash) && fresh(B.xorS) && fresh(B.xorR)
  {
    hide Bit, Pow2, Trees, Lim;
    var size := Trees(S.k) * Pow2(S.k);
    SizeIs(S.k);
    var hash := new Block[|S.compress|];
    var xorS := new Block[size](_ => 0);
    var xorR := new Block[size](_ => 0);
    B := Buffers(hash, xorS, xorR);
  }

  lemma SizeIs(k: nat)
    requires k > 0
    ensures Trees(k) * Pow2(k) >= 0
  {
  }

  // Send and Recv on the two sides, for any number of OTs: super batches of step
  // batches first, then at most step + 1 single ones. The first reduction refuses
  // trees of more than 64 bits.
  method Extend(S: VoleSender, R: VoleReceiver, choices: seq<bool>, tail: seq<bool>, step: nat,
                outS: array<Block>, outR: array<Block>, H: Block -> Block, cpu: Cpu) returns (ok: bool)
    requires Paired(S, R) && step > 0 && outS != outR && outS.Length == outR.Length
    modifies S`counter, R`counter, outS, outR
    ensures ok == (|choices| == outR.Length && S.k <= 64)
    ensures ok ==> Paired(S, R) && Cots(outS[..], outR[..], choices, |choices|, S.delta, S.compact)
  {
    hide Paired, Ready, Cots, Cot;
    ok := |choices| == outR.Length;
    if !ok { return; }
    var B := NewBuffers(S, R);
    var n := |choices|;
    var superNum, first, expand, batchNum := BatchCounts(n, step);
    var Vs := new seq<Block>[step + 1](_ => []);
    var Ws := new seq<Block>[step + 1](_ => []);
    NothingYet(outS[..], outR[..], choices, S.delta, S.compact);
    ok := SuperBatches(S, R, B, choices, tail, step, superNum, first, Vs, Ws, outS, outR, H, cpu);
    if !ok { return; }
    ok := SingleBatches(S, R, B, choices, tail, first, batchNum, Vs, Ws, outS, outR, H, cpu);
    if !ok { return; }
    PairedStill(B, S, R);
  }

  // The batches after the super batches; each has a slot of its own.
  method SingleBatches(S: VoleSender, R: VoleReceiver, B: Buffers, choices: seq<bool>, tail: seq<bool>, first: nat, batchNum: nat,
                       Vs: array<seq<Block>>, Ws: array<seq<Block>>, outS: array<Block>, outR: array<Block>,
                       H: Block -> Block, cpu: Cpu) returns (ok: bool)
    requires Ready(B, S, R) && Vs.Length == Ws.Length >= batchNum && Vs != Ws && first + batchNum >= 1
    requires outS.Length == outR.Length == |choices| && Separate(B, outS, outR) && (S.k <= 64 || first == 0)
    requires Cots(outS[..], outR[..], choices, Min(128 * first, |choices|), S.delta, S.compact)
    modifies S`counter, R`counter, B.hash, B.xorS, B.xorR, Vs, Ws, outS, outR
    ensures ok == (S.k <= 64)
    ensures ok ==> Ready(B, S, R) && Cots(outS[..], outR[..], choices, Min(128 * (first + batchNum), |choices|), S.delta, S.compact)
  {
    hide Ready, Cots;
    for t := 0 to batchNum
      invariant Ready(B, S, R) && Cots(outS[..], outR[..], choices, Min(128 * (first + t), |choices|), S.delta, S.compact)
      invariant S.k <= 64 || first + t == 0
    {
      ok := RunBatch(S, R, B, choices, tail, first + t, Vs, Ws, t, outS, outR, H, cpu);
      if !ok { return; }
    }
    ok := true;
  }

  method SuperBatches(S: VoleSender, R: VoleReceiver, B: Buffers, choices: seq<bool>, tail: seq<bool>, step: nat, superNum: nat,
                      ghost first: nat, Vs: array<seq<Block>>, Ws: array<seq<Block>>, outS: array<Block>, outR: array<Block>,
                      H: Block -> Block, cpu: Cpu) returns (ok: bool)
    requires Ready(B, S, R) && Vs.Length == Ws.Length == step + 1 && Vs != Ws && first == superNum * step && step > 0
    requires outS.Length == outR.Length == |choices| >= 128 * first && Separate(B, outS, outR)
    requires Cots(outS[..], outR[..], choices, 0, S.delta, S.compact)
    modifies S`counter, R`counter, B.hash, B.xorS, B.xorR, Vs, Ws, outS, outR
    ensures ok == (S.k <= 64 || first == 0)
    ensures ok ==> Ready(B, S, R) && Cots(outS[..], outR[..], choices, 128 * first, S.delta, S.compact)
  {
    hide Ready, Cots;
    var g := 0;
    for t := 0 to superNum
      invariant g == t * step && 128 * g <= |choices|
      invariant Ready(B, S, R) && Cots(outS[..], outR[..], choices, 128 * g, S.delta, S.compact)
      invariant S.k <= 64 || g == 0
    {
      StepOn(t, superNum, step);
      ok := SuperBatch(S, R, B, choices, tail, step, g, Vs, Ws, outS, outR, H, cpu);
      if !ok { return; }
      g := g + step;
    }
    ok := true;
  }

  // The receiver has made and sent batches g to g + |us| - 1, the first of them at
  // counter ctrs[0].
  ghost predicate Messages(R: VoleReceiver, ctrs: seq<Block>, us: seq<seq<Block>>, ws: seq<seq<Block>>,
                           choices: seq<bool>, tail: seq<bool>, g: nat, from: nat, H: Block -> Block)
  {
    && |ctrs| == |us| + 1 && |us| <= |ws|
    && (forall j :: from <= j < |us| ==> ctrs[j + 1] == Next(ctrs[j]))
    && (forall j :: from <= j < |us| ==> Sent(R, ctrs[j], BatchChoice(choices, tail, g + j), us[j], ws[j], H))
  }

  // A super batch, from batch g on: the receiver runs step VOLEs and sends all
  // their messages as one, then the sender runs its own.
  method SuperBatch(S: VoleSender, R: VoleReceiver, B: Buffers, choices: seq<bool>, tail: seq<bool>, step: nat, g: nat,
                    Vs: array<seq<Block>>, Ws: array<seq<Block>>, outS: array<Block>, outR: array<Block>,
                    H: Block -> Block, cpu: Cpu) returns (ok: bool)
    requires Ready(B, S, R) && Vs.Length == Ws.Length == step + 1 && Vs != Ws && step > 0
    requires outS.Length == outR.Length == |choices| >= 128 * (g + step) && Separate(B, outS, outR)
    requires Cots(outS[..], outR[..], choices, 128 * g, S.delta, S.compact)
    modifies S`counter, R`counter, B.hash, B.xorS, B.xorR, Vs, Ws, outS, outR
    ensures ok == (S.k <= 64)
    ensures ok ==> Ready(B, S, R) && Cots(outS[..], outR[..], choices, 128 * (g + step), S.delta, S.compact)
  {
    hide Xor, Cot, Cots, Sent, Related, BatchChoice, OfBatch, Next, Messages, Buffered;
    SameSize(B, S, R);
    var us: seq<seq<Block>>;
    ghost var ctrs;
    ok, us, ctrs := RecvMessages(S, R, B, choices, tail, step, g, Ws, H);
    if !ok { return; }
    for s := 0 to step
      invariant Buffered(B, S, R) && S.counter == ctrs[s] && R.counter == ctrs[step]
      invariant Messages(R, ctrs, us, Ws[..], choices, tail, g, s, H)
      invariant Cots(outS[..], outR[..], choices, 128 * (g + s), S.delta, S.compact)
    {
      ghost var choice, ws := BatchChoice(choices, tail, g + s), Ws[..];
      NextMessage(R, ctrs, us, ws, choices, tail, g, s, H);
      ok, Vs[s] := SendVole(S, R, B, us[s], choice, Ws[s], H);
      DeliverSlot(S, choices, choice, g + s, Vs, Ws, s, outS, outR, cpu);
      OtherMessages(R, ctrs, us, ws, Ws[..], choices, tail, g, s, H);
    }
    ok := true;
  }

  lemma NextMessage(R: VoleReceiver, ctrs: seq<Block>, us: seq<seq<Block>>, ws: seq<seq<Block>>, choices: seq<bool>,
                    tail: seq<bool>, g: nat, s: nat, H: Block -> Block)
    requires Messages(R, ctrs, us, ws, choices, tail, g, s, H) && s < |us|
    ensures |ctrs| == |us| + 1 && |us| <= |ws| && ctrs[s + 1] == Next(ctrs[s])
    ensures Sent(R, ctrs[s], BatchChoice(choices, tail, g + s), us[s], ws[s], H)
  {
    hide Sent, BatchChoice, Next;
  }

  // The slot of batch g + s is not looked at again.
  lemma OtherMessages(R: VoleReceiver, ctrs: seq<Block>, us: seq<seq<Block>>, was: seq<seq<Block>>, ws: seq<seq<Block>>,
                      choices: seq<bool>, tail: seq<bool>, g: nat, s: nat, H: Block -> Block)
    requires Messages(R, ctrs, us, was, choices, tail, g, s, H) && |ws| == |was|
    requires forall j :: 0 <= j < |ws| && j != s ==> ws[j] == was[j]
    ensures Messages(R, ctrs, us, ws, choices, tail, g, s + 1, H)
  {
    hide Sent, BatchChoice, Next;
  }

  method RecvMessages(ghost S: VoleSender, R: VoleReceiver, B: Buffers, choices: seq<bool>, tail: seq<bool>, step: nat, g: nat,
                      Ws: array<seq<Block>>, H: Block -> Block)
    returns (ok: bool, us: seq<seq<Block>>, ghost ctrs: seq<Block>)
    requires Buffered(B, S, R) && Ws.Length == step + 1 && step > 0
    modifies R`counter, B.xorR, Ws
    ensures ok == (R.k <= 64)
    ensures ok ==> Buffered(B, S, R) && |us| == step && Messages(R, ctrs, us, Ws[..], choices, tail, g, 0, H)
    ensures ok ==> |ctrs| == step + 1 && ctrs[0] == old(R.counter) && R.counter == ctrs[step]
  {
    hide Sent, Matched, BatchChoice, Next;
    us, ctrs, ok := [], [R.counter], true;
    for s := 0 to step
      invariant Buffered(B, S, R) && |us| == s && (ok <==> R.k <= 64 || s == 0)
      invariant Messages(R, ctrs, us, Ws[..], choices, tail, g, 0, H)
      invariant ctrs[0] == old(R.counter) && R.counter == ctrs[s]
    {
      var u, w;
      ghost var before := Ws[..];
      ok, u, w := RecvVole(S, R, B, BatchChoice(choices, tail, g + s), H);
      if !ok { return; }
      Ws[s] := w;
      OneMoreMessage(R, ctrs, us, before, Ws[..], choices, tail, g, u, w, H);
      us, ctrs := us + [u], ctrs + [R.counter];
    }
  }

  lemma OneMoreMessage(R: VoleReceiver, ctrs: seq<Block>, us: seq<seq<Block>>, before: seq<seq<Block>>, ws: seq<seq<Block>>,
                       choices: seq<bool>, tail: seq<bool>, g: nat, u: seq<Block>, w: seq<Block>, H: Block -> Block)
    requires Messages(R, ctrs, us, before, choices, tail, g, 0, H) && |us| < |before| && ws == before[|us| := w]
    requires Sent(R, ctrs[|us|], BatchChoice(choices, tail, g + |us|), u, w, H)
    ensures Messages(R, ctrs + [Next(ctrs[|us|])], us + [u], ws, choices, tail, g, 0, H)
  {
    hide Sent, BatchChoice, Next;
  }

  // The block-wise interface: pairs of messages that in random mode are hashed.
  method ExtendPairs(S: VoleSender, R: VoleReceiver, choices: seq<bool>, tail: seq<bool>, step: nat, cot: bool,
                     send: array<OtPair>, recv: array<Block>, H: Block -> Block, cpu: Cpu) returns (ok: bool)
    requires Paired(S, R) && step > 0 && send.Length == recv.Length
    modifies S`counter, R`counter, send, recv
    ensures ok == (|choices| == recv.Length && S.k <= 64)
    ensures ok ==> Paired(S, R)
    ensures ok ==> forall g :: 0 <= g < |choices| ==>
      recv[g] == send[g].GetBlock(choices[g]) && (cot ==> send[g].b1 == Xor(send[g].b0, S.delta))
  {
    hide Xor, Paired, Zero;
    var outS, outR := new Block[send.Length], new Block[recv.Length];
    ok := Extend(S, R, choices, tail, step, outS, outR, H, cpu);
    if !ok { return; }
    Finish(outS[..], outR[..], choices, S.delta, S.compact, cot, send, recv, H);
  }

  // ParaCrHashInplace on both messages, unless correlated OTs are asked for.
  method Finish(s: seq<Block>, r: seq<Block>, choices: seq<bool>, delta: Block, ghost compact: bool, cot: bool,
                send: array<OtPair>, recv: array<Block>, H: Block -> Block)
    requires |s| == |r| == |choices| == send.Length == recv.Length && Cots(s, r, choices, |choices|, delta, compact)
    modifies send, recv
    ensures forall g :: 0 <= g < |choices| ==>
      recv[g] == send[g].GetBlock(choices[g]) && (cot ==> send[g].b1 == Xor(send[g].b0, delta))
  {
    hide Xor, Zero;
    for g := 0 to |choices|
      invariant forall x :: 0 <= x < g ==>
        recv[x] == send[x].GetBlock(choices[x]) && (cot ==> send[x].b1 == Xor(send[x].b0, delta))
    {
      assert Cot(s[g], r[g], choices[g], delta, compact);
      XorZero(s[g]);
      var x0, x1, y := s[g], Xor(s[g], delta), r[g];
      if !cot { x0, x1, y := H(x0), H(x1), H(y); }
      send[g], recv[g] := OtPair(x0, x1), y;
    }
  }

  lemma StepOn(t: nat, superNum: nat, step: nat)
    requires t < superNum
    ensures (t + 1) * step == t * step + step <= superNum * step
  {
    MulMono(t + 1, superNum, step);
  }

  lemma PairedStill(B: Buffers, S: VoleSender, R: VoleReceiver)
    requires Ready(B, S, R)
    ensures Paired(S, R)
  {
    hide Matched, ZeroFrom;
  }

  lemma NothingYet(s: seq<Block>, r: seq<Block>, choices: seq<bool>, delta: Block, compact: bool)
    requires |s| == |r| == |choices|
    ensures Cots(s, r, choices, 0, delta, compact)
  {
  }
}
