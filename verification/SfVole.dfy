// The small-field VOLE of SoftSpoken: from punctured trees of leaves to 128 rows
// that differ by the choice where the sender's delta has a bit.
module SfVole {
  import opened Bits
  import opened Blocks
  import opened Reduction

  // ---- Geometry -----------------------------------------------------------

  // The number of trees, and the bits of tree i: k, or what is left of 128.
  function Trees(k: nat): nat
    requires k > 0
  {
    (128 + k - 1) / k
  }

  function Lim(k: nat, i: nat): nat {
    if i * k + k <= 128 then k else if i * k < 128 then 128 - i * k else 0
  }

  // The leaves of all trees: every tree full but the last.
  function Total(k: nat): nat
    requires k > 0 && Trees(k) > 0
  {
    (Trees(k) - 1) * Pow2(k) + Pow2(Lim(k, Trees(k) - 1))
  }

  lemma Geometry(k: nat, i: nat)
    requires k > 0 && i < Trees(k)
    ensures Trees(k) > 0 && i * k < 128
    ensures i + 1 < Trees(k) ==> Lim(k, i) == k && i * k + k == (i + 1) * k < 128
    ensures i + 1 == Trees(k) ==> i * k + Lim(k, i) == 128
    ensures 1 <= Lim(k, i) <= k && Pow2(Lim(k, i)) <= Pow2(k) && Pow2(Lim(k, i)) >= 2
  {
    hide Pow2;
    var n := Trees(k);
    DivMod(127 + k, k);
    GeometryArith(k, i, n, (127 + k) % k);
    Pow2Mono(Lim(k, i), k);
    Pow2Mono(1, Lim(k, i));
    Pow2One();
  }

  lemma Pow2One()
    ensures Pow2(1) == 2
  {
  }

  lemma GeometryArith(k: nat, i: nat, n: nat, r: nat)
    requires k > 0 && i < n && 127 + k == n * k + r && r < k
    ensures i * k < 128 && i * k + k == (i + 1) * k
    ensures i + 1 < n ==> i * k + k < 128
    ensures i + 1 == n ==> i * k + k >= 128
  {
    MulMono(i + 1, n, k);
    if i + 1 < n { MulMono(i + 2, n, k); }
  }

  // Row r belongs to tree r / k.
  lemma RowTree(k: nat, r: nat)
    requires k > 0 && r < 128
    ensures r / k < Trees(k) && r % k < Lim(k, r / k) && r == r / k * k + r % k
  {
    DivMod(r, k);
    DivMod(127 + k, k);
    RowArith(k, r, r / k, r % k, Trees(k), (127 + k) % k);
  }

  lemma RowArith(k: nat, r: nat, q: int, j: nat, n: nat, e: nat)
    requires k > 0 && r < 128 && r == q * k + j && j < k && 127 + k == n * k + e && e < k
    ensures 0 <= q < n
  {
    if q < 0 { MulGe(-q, k); assert false; }
    if q >= n { MulMono(n, q, k); assert false; }
  }

  function TreeIn(k: nat, r: nat): (i: nat)
    requires k > 0 && r < 128
    ensures i < Trees(k) && r % k < k
  {
    RowTree(k, r);
    r / k
  }

  // Where tree i starts in the flat buffers.
  function Off(k: nat, i: nat): nat { i * Pow2(k) }

  function TreeOf(s: seq<Block>, k: nat, i: nat): (t: seq<Block>)
    requires k > 0 && i < Trees(k) && |s| == Trees(k) * Pow2(k)
    ensures |t| == Pow2(k) && forall y :: 0 <= y < |t| ==> Off(k, i) + y < |s| && t[y] == s[Off(k, i) + y]
  {
    OffInside(k, i);
    s[Off(k, i)..Off(k, i) + Pow2(k)]
  }

  lemma OffInside(k: nat, i: nat)
    requires k > 0 && i < Trees(k)
    ensures 0 <= Off(k, i) && Off(k, i) + Pow2(k) == Off(k, i + 1) <= Trees(k) * Pow2(k)
  {
    MulMono(i + 1, Trees(k), Pow2(k));
    MulMono(i, i + 1, Pow2(k));
  }

  // Position x of the flat buffer is position x - Off(k, i) of tree i.
  lemma PositionOf(k: nat, i: nat, y: nat)
    requires k > 0 && y < Pow2(k)
    ensures (Off(k, i) + y) / Pow2(k) == i && (Off(k, i) + y) % Pow2(k) == y
  {
    DivUnique(Off(k, i) + y, i, y, Pow2(k));
  }

  // ---- The values ---------------------------------------------------------

  // The refreshed and hashed leaves, zero behind the last.
  function FilledAt(leaves: seq<Block>, counter: Block, x: nat, H: Block -> Block): Block {
    if x < |leaves| then H(Xor(leaves[x], counter)) else 0
  }

  function Filled(leaves: seq<Block>, counter: Block, len: nat, H: Block -> Block): (r: seq<Block>)
    ensures |r| == len && forall x :: 0 <= x < len ==> r[x] == FilledAt(leaves, counter, x, H)
  {
    seq(len, x requires 0 <= x < len => FilledAt(leaves, counter, x, H))
  }

  function ZeroIf(b: bool, x: Block): Block { if b then 0 else x }

  // The same with the punctured position of every tree set to zero.
  function Cleared(s: seq<Block>, k: nat, idx: seq<nat>): (r: seq<Block>)
    requires k > 0
    ensures |r| == |s|
    ensures forall x :: 0 <= x < |s| ==>
      r[x] == if 0 <= x / Pow2(k) < |idx| && x % Pow2(k) == idx[x / Pow2(k)] then 0 else s[x]
  {
    seq(|s|, x requires 0 <= x < |s| => ZeroIf(0 <= x / Pow2(k) < |idx| && x % Pow2(k) == idx[x / Pow2(k)], s[x]))
  }

  lemma ClearedTree(s: seq<Block>, k: nat, idx: seq<nat>, i: nat)
    requires k > 0 && |s| == Trees(k) * Pow2(k) && |idx| == Trees(k) && i < |idx| && idx[i] < Pow2(k)
    ensures TreeOf(Cleared(s, k, idx), k, i) == TreeOf(s, k, i)[idx[i] := Zero()]
  {
    hide Pow2, Zero, Off;
    ZeroIsZero();
    var a, b := TreeOf(Cleared(s, k, idx), k, i), TreeOf(s, k, i)[idx[i] := Zero()];
    forall y | 0 <= y < Pow2(k) ensures a[y] == b[y] {
      PositionOf(k, i, y);
    }
  }

  // What a row is worth on the side with all leaves.
  function RowValue(s: seq<Block>, k: nat, r: nat): Block
    requires k > 0 && r < 128 && |s| == Trees(k) * Pow2(k)
  {
    BitSum(TreeOf(s, k, TreeIn(k, r)), r % k)
  }

  // ---- Receiver -----------------------------------------------------------

  // XorBlock, then ParaCrHashInplace_128.
  method Refresh(leaves: seq<Block>, counter: Block, buf: array<Block>, H: Block -> Block)
    requires |leaves| <= buf.Length
    modifies buf
    ensures forall x :: 0 <= x < |leaves| ==> buf[x] == H(Xor(leaves[x], counter))
    ensures forall x :: |leaves| <= x < buf.Length ==> buf[x] == old(buf[x])
  {
    hide Xor;
    for i := 0 to |leaves|
      invariant forall x :: 0 <= x < i ==> buf[x] == Xor(leaves[x], counter)
      invariant forall x :: |leaves| <= x < buf.Length ==> buf[x] == old(buf[x])
    {
      buf[i] := Xor(leaves[i], counter);
    }
    for i := 0 to |leaves|
      invariant forall x :: 0 <= x < i ==> buf[x] == H(Xor(leaves[x], counter))
      invariant forall x :: i <= x < |leaves| ==> buf[x] == Xor(leaves[x], counter)
      invariant forall x :: |leaves| <= x < buf.Length ==> buf[x] == old(buf[x])
    {
      buf[i] := H(buf[i]);
    }
  }

  function Next(counter: Block): Block { (counter + 1) % SIZE }

  // The reduced blocks hold the sums of the trees.
  lemma SlotsOf(now: seq<Block>, orig: seq<Block>, k: nat, i: nat, r: nat)
    requires k > 0 && |now| == |orig| == Trees(k) * Pow2(k) && i < Trees(k) && AllReduced(now, orig, Trees(k), k)
    ensures Off(k, i) + Pow2(k) <= |now| && k < Pow2(k)
    ensures now[Off(k, i)] == XorSum(TreeOf(orig, k, i))
    ensures r < 128 && r / k == i ==> now[Off(k, i) + 1 + r % k] == RowValue(orig, k, r)
  {
    hide Pow2, XorSum, BitSum, Xor;
    OffInside(k, i);
    DepthFits(k);
    assert BlockReduced(now, orig, i, k);
    var s := now[i * Pow2(k)..i * Pow2(k) + Pow2(k)];
    assert s[0] == now[Off(k, i)];
    if r < 128 && r / k == i {
      RowTree(k, r);
      DivMod(r, k);
      assert s[1 + r % k] == now[Off(k, i) + 1 + r % k];
    }
  }

  class VoleReceiver {
    const k: nat
    const compact: bool
    const leaves: seq<Block>
    var counter: Block

    constructor (k: nat, compact: bool, leaves: seq<Block>)
      ensures this.k == k && this.compact == compact && this.leaves == leaves && counter == 0
    {
      this.k, this.compact, this.leaves, counter := k, compact, leaves, 0;
    }

    ghost predicate Valid() {
      k > 0 && Trees(k) > 0 && |leaves| == Total(k)
    }

    // GenSfVole of the receiver.
    method GenSfVole(choice: Block, xorBuf: array<Block>, u: array<Block>, W: array<Block>, H: Block -> Block) returns (ok: bool)
      requires Valid() && xorBuf.Length == Trees(k) * Pow2(k) && ZeroFrom(xorBuf[..], Total(k))
      requires u.Length == Trees(k) && W.Length == 128 && xorBuf != u && xorBuf != W && u != W
      modifies this`counter, xorBuf, u, W
      ensures ok == (k <= 64) && counter == Next(old(counter)) && (ok ==> ZeroFrom(xorBuf[..], Total(k)))
      ensures ok ==>
        var s := Filled(leaves, old(counter), Trees(k) * Pow2(k), H);
        && (forall i :: 0 <= i < Trees(k) ==> u[i] == Xor(choice, XorSum(TreeOf(s, k, i))))
        && (forall r :: 0 <= r < 128 ==> W[r] == if compact && r == 0 then choice else RowValue(s, k, r))
    {
      hide Xor, XorSum, AllReduced, ZeroFrom, RowValue, Pow2, TreeOf, Trees, Lim, Off, Total;
      ghost var s := Filled(leaves, counter, Trees(k) * Pow2(k), H);
      TotalFits(k);
      TailOf(xorBuf[..], Total(k));
      Refresh(leaves, counter, xorBuf, H);
      counter := Next(counter);
      assert xorBuf[..] == s;
      TailKept(xorBuf[..], Total(k));
      ok := XorReduceImpl(k, xorBuf, Trees(k), Total(k));
      if !ok { return; }
      ChosenRows(k, choice, xorBuf, u, W, s);
      if compact { W[0] := choice; }
    }
  }

  // The masked choices, and the rows of all trees.
  method ChosenRows(k: nat, choice: Block, xorBuf: array<Block>, u: array<Block>, W: array<Block>, ghost s: seq<Block>)
    requires k > 0 && xorBuf.Length == |s| == Trees(k) * Pow2(k) && AllReduced(xorBuf[..], s, Trees(k), k)
    requires u.Length == Trees(k) && W.Length == 128 && xorBuf != u && xorBuf != W && u != W
    modifies u, W
    ensures forall i :: 0 <= i < Trees(k) ==> u[i] == Xor(choice, XorSum(TreeOf(s, k, i)))
    ensures forall r :: 0 <= r < 128 ==> W[r] == RowValue(s, k, r)
  {
    hide Xor, XorSum, AllReduced, RowValue, Pow2, TreeOf, Trees, Lim, Off, Rows;
    var xorOff, wOff := 0, 0;
    OffStart(k);
    for i := 0 to Trees(k)
      invariant xorOff == Off(k, i) && wOff == Rows(k, i) <= 128
      invariant forall j :: 0 <= j < i ==> u[j] == Xor(choice, XorSum(TreeOf(s, k, j)))
      invariant forall r :: 0 <= r < wOff ==> W[r] == RowValue(s, k, r)
    {
      SlotsOf(xorBuf[..], s, k, i, 128);
      RowsStep(k, i);
      OffInside(k, i);
      u[i] := Xor(choice, xorBuf[xorOff]);
      TreeRows(k, i, xorOff, wOff, xorBuf, W, s);
      xorOff := xorOff + Pow2(k);
      wOff := wOff + Lim(k, i);
    }
  }

  // The rows of tree i, copied out of its reduced block.
  method TreeRows(k: nat, i: nat, xorOff: nat, wOff: nat, xorBuf: array<Block>, W: array<Block>, ghost s: seq<Block>)
    requires k > 0 && xorBuf.Length == |s| == Trees(k) * Pow2(k) && AllReduced(xorBuf[..], s, Trees(k), k)
    requires i < Trees(k) && W.Length == 128 && xorBuf != W && xorOff == Off(k, i) && wOff == i * k
    requires Lim(k, i) <= k && wOff + Lim(k, i) <= 128
    modifies W
    ensures forall r :: 0 <= r < wOff ==> W[r] == old(W[r])
    ensures forall r :: wOff <= r < wOff + Lim(k, i) ==> W[r] == RowValue(s, k, r)
  {
    hide Xor, XorSum, AllReduced, RowValue, Pow2, TreeOf, Trees, Lim, Off;
    for j := 0 to Lim(k, i)
      invariant forall r :: 0 <= r < wOff ==> W[r] == old(W[r])
      invariant forall r :: wOff <= r < wOff + j ==> W[r] == RowValue(s, k, r)
    {
      RowOf(k, i, j);
      SlotsOf(xorBuf[..], s, k, i, wOff + j);
      W[wOff + j] := xorBuf[xorOff + 1 + j];
    }
  }

  // The rows of the trees before tree i.
  function Rows(k: nat, i: nat): nat {
    if i * k <= 128 then i * k else 128
  }

  lemma RowsStep(k: nat, i: nat)
    requires k > 0 && i < Trees(k)
    ensures Rows(k, i) == i * k && Rows(k, i + 1) == Rows(k, i) + Lim(k, i) <= 128
    ensures 1 <= Lim(k, i) <= k
    ensures i + 1 == Trees(k) ==> Rows(k, i + 1) == 128
  {
    hide Pow2, Trees;
    Geometry(k, i);
    assert (i + 1) * k == i * k + k;
  }

  lemma RowOf(k: nat, i: nat, j: nat)
    requires k > 0 && j < k
    ensures i * k >= 0 && (i * k + j) / k == i && (i * k + j) % k == j
  {
    DivUnique(i * k + j, i, j, k);
  }

  lemma OffStart(k: nat)
    requires k > 0
    ensures Off(k, 0) == 0 && Rows(k, 0) == 0 <= 128
    ensures Trees(k) > 0 && Rows(k, Trees(k)) == 128
  {
    NumPositive(k);
    RowsStep(k, Trees(k) - 1);
  }

  lemma NumPositive(k: nat)
    requires k > 0
    ensures Trees(k) > 0
  {
    RowTree(k, 0);
  }

  lemma TotalFits(k: nat)
    requires k > 0 && Trees(k) > 0
    ensures 0 <= Total(k) <= Trees(k) * Pow2(k)
  {
    hide Pow2, Trees, Lim;
    Geometry(k, Trees(k) - 1);
    MulMono(Trees(k) - 1, Trees(k), Pow2(k));
  }

  lemma TailOf(s: seq<Block>, tail: nat)
    requires ZeroFrom(s, tail)
    ensures forall x :: tail <= x < |s| ==> s[x] == 0
  {
  }

  lemma TailKept(s: seq<Block>, tail: nat)
    requires forall x :: tail <= x < |s| ==> s[x] == 0
    ensures ZeroFrom(s, tail)
  {
  }

  // ---- Sender -------------------------------------------------------------

  // Where tree i starts among the compressed leaves, which lack one per tree.
  function HashOff(k: nat, i: nat): nat { i * (Pow2(k) - 1) }

  lemma CompressedFits(k: nat, i: nat)
    requires k > 0 && i < Trees(k)
    ensures Total(k) >= Trees(k)
    ensures HashOff(k, i) + (Pow2(Lim(k, i)) - 1) <= Total(k) - Trees(k)
    ensures i + 1 < Trees(k) ==> Lim(k, i) == k
    ensures i + 1 == Trees(k) ==> HashOff(k, i) + (Pow2(Lim(k, i)) - 1) == Total(k) - Trees(k)
    ensures 2 <= Pow2(Lim(k, i)) <= Pow2(k)
    ensures Off(k, i) + Pow2(Lim(k, i)) <= Total(k)
    ensures i + 1 == Trees(k) ==> Off(k, i) + Pow2(Lim(k, i)) == Total(k)
  {
    hide Pow2, Trees, Lim;
    Geometry(k, i);
    Geometry(k, Trees(k) - 1);
    CompressedArith(i, Trees(k) - 1, Pow2(k), Pow2(Lim(k, Trees(k) - 1)), Pow2(Lim(k, i)));
  }

  lemma CompressedArith(i: nat, n: nat, p: nat, l: nat, m: nat)
    requires i <= n && 2 <= l <= p && (if i < n then m == p else m == l)
    ensures n * p + l >= n + 1
    ensures i * (p - 1) + (m - 1) <= n * p + l - (n + 1) && i * p + m <= n * p + l
    ensures i == n ==> i * (p - 1) + (m - 1) == n * p + l - (n + 1)
  {
    assert n * (p - 1) == n * p - n;
    assert n * (p - 1) >= 0;
    if i < n {
      MulMono(i + 1, n, p);
      MulMono(i + 1, n, p - 1);
    }
  }

  // Entry y of the compressed tree i is leaf y, or leaf 0 at the punctured place.
  ghost predicate CompressedAt(compress: seq<Block>, leaves: seq<Block>, k: nat, i: nat, q: nat, y: nat) {
    && 1 <= y && 0 <= HashOff(k, i) + y - 1 < |compress| && Off(k, i) + y < |leaves|
    && compress[HashOff(k, i) + y - 1] == leaves[if y == q then Off(k, i) else Off(k, i) + y]
  }

  ghost predicate Compressed(compress: seq<Block>, leaves: seq<Block>, k: nat, idx: seq<nat>)
    requires k > 0
  {
    && |leaves| == Total(k) && Trees(k) <= Total(k) && |compress| == Total(k) - Trees(k) && |idx| == Trees(k)
    && (forall i :: 0 <= i < Trees(k) ==> idx[i] < Pow2(Lim(k, i)))
    && (forall i, y :: 0 <= i < Trees(k) && 1 <= y < Pow2(Lim(k, i)) ==> CompressedAt(compress, leaves, k, i, idx[i], y))
  }

  // Moves the hashes of a tree to their places and opens a hole at q.
  method PlaceTree(xorBuf: array<Block>, hashBuf: array<Block>, xorOff: nat, hashOff: nat, limit: nat, q: nat)
    requires xorBuf != hashBuf && q <= limit && xorOff + limit < xorBuf.Length && hashOff + limit <= hashBuf.Length
    modifies xorBuf
    ensures forall x :: xorOff < x <= xorOff + limit && x != xorOff + q ==> xorBuf[x] == hashBuf[hashOff + (x - xorOff) - 1]
    ensures xorBuf[xorOff + q] == 0
    ensures q != 0 ==> xorBuf[xorOff] == hashBuf[hashOff + q - 1]
    ensures forall x :: 0 <= x < xorBuf.Length && !(xorOff <= x <= xorOff + limit) ==> xorBuf[x] == old(xorBuf[x])
  {
    for j := 0 to limit
      invariant forall x :: xorOff < x <= xorOff + j ==> xorBuf[x] == hashBuf[hashOff + (x - xorOff) - 1]
      invariant forall x :: 0 <= x < xorBuf.Length && !(xorOff <= x <= xorOff + limit) ==> xorBuf[x] == old(xorBuf[x])
    {
      xorBuf[xorOff + 1 + j] := hashBuf[hashOff + j];
    }
    xorBuf[xorOff] := 0;
    xorBuf[xorOff], xorBuf[xorOff + q] := xorBuf[xorOff + q], xorBuf[xorOff];
  }

  // Then the block of the tree is that of the cleared values.
  lemma TreePlaced(buf: seq<Block>, hash: seq<Block>, compress: seq<Block>, leaves: seq<Block>, counter: Block,
                   k: nat, i: nat, idx: seq<nat>, x: nat, H: Block -> Block)
    requires k > 0 && i < Trees(k) && Compressed(compress, leaves, k, idx) && |buf| == Trees(k) * Pow2(k) && |hash| == |compress|
    requires forall z :: 0 <= z < |hash| ==> hash[z] == H(Xor(compress[z], counter))
    requires ZeroFrom(buf, Total(k))
    requires Off(k, i) + Pow2(Lim(k, i)) <= |buf| && HashOff(k, i) + Pow2(Lim(k, i)) - 1 <= |hash|
    requires forall z :: Off(k, i) < z < Off(k, i) + Pow2(Lim(k, i)) && z != Off(k, i) + idx[i] ==>
      buf[z] == hash[HashOff(k, i) + (z - Off(k, i)) - 1]
    requires buf[Off(k, i) + idx[i]] == 0
    requires idx[i] != 0 ==> buf[Off(k, i)] == hash[HashOff(k, i) + idx[i] - 1]
    requires Off(k, i) <= x < Off(k, i) + Pow2(k) && x < |buf|
    ensures buf[x] == Cleared(Filled(leaves, counter, |buf|, H), k, idx)[x]
  {
    hide Pow2, Trees, Lim, Off, HashOff, Xor;
    CompressedFits(k, i);
    var y := x - Off(k, i);
    PositionOf(k, i, y);
    if y == idx[i] {
    } else if y == 0 {
      assert CompressedAt(compress, leaves, k, i, idx[i], idx[i]);
    } else if y < Pow2(Lim(k, i)) {
      assert CompressedAt(compress, leaves, k, i, idx[i], y);
    }
  }

  class VoleSender {
    const k: nat
    const compact: bool
    const delta: Block
    const compress: seq<Block>
    const idx: seq<nat>
    const mask: seq<Block>
    var counter: Block

    constructor (k: nat, compact: bool, delta: Block, compress: seq<Block>, idx: seq<nat>, mask: seq<Block>)
      ensures this.k == k && this.compact == compact && this.delta == delta && this.compress == compress
      ensures this.idx == idx && this.mask == mask && counter == 0
    {
      this.k, this.compact, this.delta := k, compact, delta;
      this.compress, this.idx, this.mask, counter := compress, idx, mask, 0;
    }

    // What the sender holds against the receiver's leaves: all of them but one
    // per tree, whose position is the tree's part of delta.
    ghost predicate Valid(leaves: seq<Block>) {
      && k > 0 && Trees(k) > 0 && Compressed(compress, leaves, k, idx) && |mask| == 128
      && (forall r :: 0 <= r < 128 ==> MaskAt(r))
      && (compact ==> Bit(delta, 0))
    }

    ghost predicate MaskAt(r: nat)
      requires r < 128 && r < |mask| && k > 0
    {
      && TreeIn(k, r) < |idx| && mask[r] == (if Bit(delta, r) then Full() else Zero())
      && Bit(idx[TreeIn(k, r)], r % k) == Bit(delta, r)
    }

    // Steps 1 to 3: the values of all leaves but the punctured ones, which are 0.
    method Place(hashBuf: array<Block>, xorBuf: array<Block>, ghost leaves: seq<Block>, ctr: Block, H: Block -> Block)
      requires Valid(leaves) && hashBuf.Length == |compress| && xorBuf.Length == Trees(k) * Pow2(k)
      requires ZeroFrom(xorBuf[..], Total(k)) && hashBuf != xorBuf
      modifies hashBuf, xorBuf
      ensures xorBuf[..] == Cleared(Filled(leaves, ctr, Trees(k) * Pow2(k), H), k, idx)
      ensures ZeroFrom(xorBuf[..], Total(k))
    {
      hide Xor, Pow2, Trees, Lim, Off, HashOff, Total, MaskAt;
      ghost var s := Cleared(Filled(leaves, ctr, Trees(k) * Pow2(k), H), k, idx);
      Refresh(compress, ctr, hashBuf, H);
      ghost var hash := hashBuf[..];
      var hashOff, xorOff := 0, 0;
      OffStart(k);
      HashStart(k);
      for i := 0 to Trees(k)
        invariant xorOff == Off(k, i) && hashOff == HashOff(k, i) && hashBuf[..] == hash
        invariant ZeroFrom(xorBuf[..], Total(k))
        invariant forall x :: 0 <= x < xorOff && x < xorBuf.Length ==> xorBuf[x] == s[x]
      {
        HashStep(k, i);
        OffInside(k, i);
        PlaceOne(hashBuf, xorBuf, i, hashOff, xorOff, leaves, ctr, H);
        hashOff := hashOff + (Pow2(k) - 1);
        xorOff := xorOff + Pow2(k);
      }
      OffEnd(k);
    }

    // Step 3 for one tree.
    method PlaceOne(hashBuf: array<Block>, xorBuf: array<Block>, i: nat, hashOff: nat, xorOff: nat,
                    ghost leaves: seq<Block>, ghost ctr: Block, ghost H: Block -> Block)
      requires Valid(leaves) && hashBuf.Length == |compress| && xorBuf.Length == Trees(k) * Pow2(k)
      requires i < Trees(k) && hashOff == HashOff(k, i) && xorOff == Off(k, i)
      requires ZeroFrom(xorBuf[..], Total(k)) && hashBuf != xorBuf
      requires forall z :: 0 <= z < |compress| ==> hashBuf[z] == H(Xor(compress[z], ctr))
      modifies xorBuf
      ensures ZeroFrom(xorBuf[..], Total(k)) && xorOff + Pow2(k) <= xorBuf.Length
      ensures forall x :: 0 <= x < xorOff ==> xorBuf[x] == old(xorBuf[x])
      ensures forall x :: xorOff <= x < xorOff + Pow2(k) ==>
        xorBuf[x] == Cleared(Filled(leaves, ctr, Trees(k) * Pow2(k), H), k, idx)[x]
    {
      hide Xor, Pow2, Trees, Lim, Off, HashOff, Total, MaskAt;
      CompressedFits(k, i);
      OffInside(k, i);
      var limit := if Pow2(k) - 1 <= hashBuf.Length - hashOff then Pow2(k) - 1 else hashBuf.Length - hashOff;
      LimitIs(k, i, hashBuf.Length, limit);
      PlaceTree(xorBuf, hashBuf, xorOff, hashOff, limit, idx[i]);
      forall x | xorOff <= x < xorOff + Pow2(k)
        ensures xorBuf[x] == Cleared(Filled(leaves, ctr, Trees(k) * Pow2(k), H), k, idx)[x]
      {
        TreePlaced(xorBuf[..], hashBuf[..], compress, leaves, ctr, k, i, idx, x, H);
      }
    }

    // GenSfVole of the sender; u are the receiver's masked choices.
    method GenSfVole(hashBuf: array<Block>, xorBuf: array<Block>, u: array<Block>, V: array<Block>,
                     ghost leaves: seq<Block>, H: Block -> Block) returns (ok: bool)
      requires Valid(leaves) && hashBuf.Length == |compress| && xorBuf.Length == Trees(k) * Pow2(k)
      requires ZeroFrom(xorBuf[..], Total(k)) && u.Length == Trees(k) && V.Length == 128
      requires hashBuf != xorBuf && hashBuf != u && hashBuf != V && xorBuf != u && xorBuf != V && u != V
      modifies this`counter, hashBuf, xorBuf, u, V
      ensures ok == (k <= 64) && counter == Next(old(counter)) && (ok ==> ZeroFrom(xorBuf[..], Total(k)))
      ensures ok ==>
        var s := Cleared(Filled(leaves, old(counter), Trees(k) * Pow2(k), H), k, idx);
        forall r :: 0 <= r < 128 ==> V[r] == if compact && r == 0 then Zero() else
          UnmaskedRow(s, k, r, old(u[..]), mask)
    {
      hide Xor, XorSum, Pow2, TreeOf, Trees, Lim, Off, Total, AllReduced, UnmaskedRow, Compressed, MaskAt, Zero;
      ghost var s := Cleared(Filled(leaves, counter, Trees(k) * Pow2(k), H), k, idx);
      Place(hashBuf, xorBuf, leaves, counter, H);
      counter := Next(counter);
      ok := XorReduceImpl(k, xorBuf, Trees(k), Total(k));
      if !ok { return; }
      UnmaskedRows(k, mask, xorBuf, u, V, s);
      ZeroIsZero();
      if compact { V[0] := 0; }
    }
  }

  // Row r of the sender, from the cleared values and the masked choices.
  function UnmaskedRow(s: seq<Block>, k: nat, r: nat, u: seq<Block>, mask: seq<Block>): Block
    requires k > 0 && r < 128 && |s| == Trees(k) * Pow2(k) && |u| == Trees(k) && |mask| == 128
  {
    Xor(RowValue(s, k, r), And(Xor(u[TreeIn(k, r)], XorSum(TreeOf(s, k, TreeIn(k, r)))), mask[r]))
  }

  method UnmaskedRows(k: nat, mask: seq<Block>, xorBuf: array<Block>, u: array<Block>, V: array<Block>, ghost s: seq<Block>)
    requires k > 0 && xorBuf.Length == |s| == Trees(k) * Pow2(k) && AllReduced(xorBuf[..], s, Trees(k), k)
    requires u.Length == Trees(k) && V.Length == |mask| == 128 && xorBuf != u && xorBuf != V && u != V
    modifies u, V
    ensures forall r :: 0 <= r < 128 ==> V[r] == UnmaskedRow(s, k, r, old(u[..]), mask)
  {
    hide Xor, XorSum, AllReduced, UnmaskedRow, Pow2, TreeOf, Trees, Lim, Off, Rows;
    ghost var u0 := u[..];
    var xorOff, vOff := 0, 0;
    OffStart(k);
    for i := 0 to Trees(k)
      invariant xorOff == Off(k, i) && vOff == Rows(k, i) <= 128
      invariant forall j :: i <= j < Trees(k) ==> u[j] == u0[j]
      invariant forall r :: 0 <= r < vOff ==> V[r] == UnmaskedRow(s, k, r, u0, mask)
    {
      SlotsOf(xorBuf[..], s, k, i, 128);
      RowsStep(k, i);
      OffInside(k, i);
      u[i] := Xor(u[i], xorBuf[xorOff]);
      UnmaskTree(k, i, xorOff, vOff, mask, xorBuf, u[i], V, s, u0);
      xorOff := xorOff + Pow2(k);
      vOff := vOff + Lim(k, i);
    }
  }

  method UnmaskTree(k: nat, i: nat, xorOff: nat, vOff: nat, mask: seq<Block>, xorBuf: array<Block>, ui: Block,
                    V: array<Block>, ghost s: seq<Block>, ghost u0: seq<Block>)
    requires k > 0 && xorBuf.Length == |s| == Trees(k) * Pow2(k) && AllReduced(xorBuf[..], s, Trees(k), k)
    requires i < Trees(k) == |u0| && V.Length == |mask| == 128 && xorBuf != V && xorOff == Off(k, i) && vOff == i * k
    requires Lim(k, i) <= k && vOff + Lim(k, i) <= 128 && ui == Xor(u0[i], XorSum(TreeOf(s, k, i)))
    modifies V
    ensures forall r :: 0 <= r < vOff ==> V[r] == old(V[r])
    ensures forall r :: vOff <= r < vOff + Lim(k, i) ==> V[r] == UnmaskedRow(s, k, r, u0, mask)
  {
    hide Xor, And, XorSum, AllReduced, RowValue, Pow2, TreeOf, Trees, Lim, Off;
    for j := 0 to Lim(k, i)
      invariant forall r :: 0 <= r < vOff ==> V[r] == old(V[r])
      invariant forall r :: vOff <= r < vOff + j ==> V[r] == UnmaskedRow(s, k, r, u0, mask)
    {
      RowOf(k, i, j);
      SlotsOf(xorBuf[..], s, k, i, vOff + j);
      V[vOff + j] := Xor(xorBuf[xorOff + 1 + j], And(ui, mask[vOff + j]));
    }
  }

  lemma HashStart(k: nat)
    ensures HashOff(k, 0) == 0
  {
  }

  lemma HashStep(k: nat, i: nat)
    ensures HashOff(k, i + 1) == HashOff(k, i) + (Pow2(k) - 1)
  {
  }

  lemma OffEnd(k: nat)
    ensures k > 0 ==> Off(k, Trees(k)) == Trees(k) * Pow2(k)
  {
  }

  // The source's limit is the size of the tree less one.
  lemma LimitIs(k: nat, i: nat, size: nat, limit: nat)
    requires k > 0 && i < Trees(k) && Total(k) >= Trees(k) && size == Total(k) - Trees(k) && HashOff(k, i) <= size
    requires limit == if Pow2(k) - 1 <= size - HashOff(k, i) then Pow2(k) - 1 else size - HashOff(k, i)
    ensures limit == Pow2(Lim(k, i)) - 1
  {
    hide Pow2, Trees, Lim, Total, HashOff;
    CompressedFits(k, i);
  }

  // ---- The relation -------------------------------------------------------

  // Row by row, W is V plus the choice where delta has a bit.
  lemma RowCorrelation(leaves: seq<Block>, counter: Block, k: nat, idx: seq<nat>, r: nat, delta: Block, choice: Block,
                       u: seq<Block>, mask: seq<Block>, H: Block -> Block)
    requires k > 0 && r < 128 && |u| == |idx| == Trees(k) && |mask| == 128 && idx[TreeIn(k, r)] < Pow2(k)
    requires Bit(idx[TreeIn(k, r)], r % k) == Bit(delta, r) && mask[r] == if Bit(delta, r) then Full() else Zero()
    requires
      var s := Filled(leaves, counter, Trees(k) * Pow2(k), H);
      u[TreeIn(k, r)] == Xor(choice, XorSum(TreeOf(s, k, TreeIn(k, r))))
    ensures
      var s := Filled(leaves, counter, Trees(k) * Pow2(k), H);
      RowValue(s, k, r) == Xor(UnmaskedRow(Cleared(s, k, idx), k, r, u, mask), Times(Bit(delta, r), choice))
  {
    hide Bit, Xor, And, XorSum, BitSum, Pow2, TreeOf, Trees, Off, Full, Zero;
    var s := Filled(leaves, counter, Trees(k) * Pow2(k), H);
    var i := TreeIn(k, r);
    RowTree(k, r);
    ClearedTree(s, k, idx, i);
    var t := TreeOf(s, k, i);
    ClearedSums(t, idx[i], r % k);
    RowAlgebra(choice, XorSum(t), BitSum(t, r % k), t[idx[i]], Bit(delta, r), mask[r]);
  }

  lemma RowAlgebra(choice: Block, sum: Block, row: Block, x: Block, b: bool, mask: Block)
    requires mask == if b then Full() else Zero()
    ensures row == Xor(Xor(Xor(row, Times(b, x)), And(Xor(Xor(choice, sum), Xor(sum, x)), mask)), Times(b, choice))
  {
    BlockEq(row, Xor(Xor(Xor(row, Times(b, x)), And(Xor(Xor(choice, sum), Xor(sum, x)), mask)), Times(b, choice)));
  }
}
