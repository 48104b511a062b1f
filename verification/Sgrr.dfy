// The punctured GGM tree: the receiver learns every leaf but one.
module Sgrr {
  import opened Bits
  import opened Blocks
  import opened OtStore

  // The two fixed-key permutations that split a seed.
  datatype Split = Split(e0: Block -> Block, e1: Block -> Block)

  // ---- The tree -----------------------------------------------------------

  function Side(xs: seq<Block>, e: Block -> Block): (r: seq<Block>)
    ensures |r| == |xs| && forall i :: 0 <= i < |xs| ==> r[i] == Xor(e(xs[i]), xs[i])
  {
    seq(|xs|, i requires 0 <= i < |xs| => Xor(e(xs[i]), xs[i]))
  }

  // Level l: 2^l seeds, the children of seed j at j and j + 2^(l-1).
  function Tree(l: nat, seed: Block, g: Split): (t: seq<Block>)
    ensures |t| == Pow2(l)
  {
    if l == 0 then [seed]
    else
      var xs := Tree(l - 1, seed, g);
      Side(xs, g.e0) + Side(xs, g.e1)
  }

  // The sums of the left and of the right children of level l.
  function SideSum(l: nat, seed: Block, g: Split, right: bool): Block {
    XorSum(Side(Tree(l, seed, g), if right then g.e1 else g.e0))
  }

  // The sum of the elements below j other than element q.
  function SkipSum(xs: seq<Block>, q: nat, j: nat): Block
    requires j <= |xs|
  {
    if j == 0 then Zero()
    else if j - 1 == q then SkipSum(xs, q, j - 1)
    else Xor(SkipSum(xs, q, j - 1), xs[j - 1])
  }

  // A sum without all its elements but one is that element.
  lemma {:induction false} SkipSumMeans(xs: seq<Block>, q: nat, j: nat)
    requires j <= |xs|
    ensures XorSum(xs[..j]) == if q < j then Xor(SkipSum(xs, q, j), xs[q]) else SkipSum(xs, q, j)
    decreases j
  {
    hide Xor, XorSum;
    if j == 0 {
      SumNone(xs, xs);
    } else {
      SkipSumMeans(xs, q, j - 1);
      assert xs[..j] == xs[..j - 1] + [xs[j - 1]];
      XorSumSnoc(xs[..j - 1], xs[j - 1]);
      if q < j - 1 { XorMove(SkipSum(xs, q, j - 1), xs[q], xs[j - 1]); }
    }
  }

  // ---- Sender -------------------------------------------------------------

  // SplitAllSeeds.
  method SplitAllSeeds(seeds: array<Block>, size: nat, g: Split) returns (splits: array<Block>)
    requires size <= seeds.Length
    ensures fresh(splits) && splits.Length == 2 * size
    ensures forall k :: 0 <= k < size ==> splits[k] == g.e0(seeds[k]) && splits[size + k] == g.e1(seeds[k])
  {
    splits := new Block[2 * size];
    for k := 0 to size
      invariant forall i :: 0 <= i < k ==> splits[i] == seeds[i] && splits[size + i] == seeds[i]
    {
      splits[k], splits[size + k] := seeds[k], seeds[k];
    }
    for k := 0 to size
      invariant forall i :: 0 <= i < k ==> splits[i] == g.e0(seeds[i]) && splits[size + i] == g.e1(seeds[i])
      invariant forall i :: k <= i < size ==> splits[i] == seeds[i] && splits[size + i] == seeds[i]
    {
      splits[k], splits[size + k] := g.e0(splits[k]), g.e1(splits[size + k]);
    }
  }

  // The memcpy at the end of a level.
  method CopyBack(splits: array<Block>, output: array<Block>, len: nat)
    requires splits != output && len <= splits.Length && len <= output.Length
    modifies output
    ensures output[..len] == splits[..len]
  {
    for k := 0 to len
      invariant output[..k] == splits[..k]
    {
      output[k] := splits[k];
    }
  }

  function Min(a: nat, b: nat): nat { if a <= b then a else b }

  // The splits of a level after the seeds below j have been XORed on; those of
  // seed q do not matter.
  ghost predicate Part(s: seq<Block>, level: seq<Block>, g: Split, j: nat, q: nat) {
    && |s| == 2 * |level|
    && forall k :: 0 <= k < |level| && k != q ==>
         && s[k] == (if k < j then Xor(g.e0(level[k]), level[k]) else g.e0(level[k]))
         && s[|level| + k] == (if k < j then Xor(g.e1(level[k]), level[k]) else g.e1(level[k]))
  }

  lemma PartStep(s: seq<Block>, level: seq<Block>, g: Split, j: nat, q: nat)
    requires Part(s, level, g, j, q) && j < |level|
    ensures j == q ==> Part(s, level, g, j + 1, q)
    ensures j != q ==>
      Xor(s[j], level[j]) == Side(level, g.e0)[j] && Xor(s[|level| + j], level[j]) == Side(level, g.e1)[j]
    ensures j != q ==>
      var x: Block := Xor(s[j], level[j]);
      var y: Block := Xor(s[|level| + j], level[j]);
      var half: seq<Block> := s[j := x];
      Part(half[|level| + j := y], level, g, j + 1, q)
  {
    hide Xor;
  }

  lemma PartDone(s: seq<Block>, level: seq<Block>, g: Split, q: nat)
    requires Part(s, level, g, |level|, q)
    ensures forall k :: 0 <= k < |s| && k != q && k != q + |level| ==> s[k] == (Side(level, g.e0) + Side(level, g.e1))[k]
  {
    hide Xor;
    forall k | |level| <= k < |s| && k != q + |level| ensures s[k] == Side(level, g.e1)[k - |level|] {
      assert s[|level| + (k - |level|)] == Side(level, g.e1)[k - |level|];
    }
  }

  // splits[j] ^= output[j] on both sides.
  method XorOn(splits: array<Block>, x: Block, size: nat, j: nat, g: Split, ghost level: seq<Block>, ghost q: nat)
    requires j < size == |level| && splits.Length == 2 * size && x == level[j] && j != q
    requires Part(splits[..], level, g, j, q)
    modifies splits
    ensures Part(splits[..], level, g, j + 1, q)
    ensures splits[j] == Side(level, g.e0)[j] && splits[size + j] == Side(level, g.e1)[j]
  {
    hide Xor, Part;
    ghost var s := splits[..];
    PartStep(s, level, g, j, q);
    splits[j] := Xor(splits[j], x);
    ghost var half: seq<Block> := s[j := splits[j]];
    splits[size + j] := Xor(splits[size + j], x);
    assert splits[..] == half[size + j := splits[size + j]];
  }

  // One level of the sender.
  method SendLevel(output: array<Block>, size: nat, n: nat, g: Split, ghost level: seq<Block>) returns (left: Block, right: Block)
    requires size < n <= output.Length && |level| == size && output[..size] == level
    modifies output
    ensures output[..Min(2 * size, n)] == (Side(level, g.e0) + Side(level, g.e1))[..Min(2 * size, n)]
    ensures left == XorSum(Side(level, g.e0)) && right == XorSum(Side(level, g.e1))
  {
    hide Xor, XorSum, Part, Side;
    var splits := SplitAllSeeds(output, size, g);
    ghost var a, b := Side(level, g.e0), Side(level, g.e1);
    left, right := Zero(), Zero();
    SumNone(a, b);
    PartStart(splits[..], level, g, 2 * size);
    for j := 0 to size
      invariant output[..size] == level
      invariant Part(splits[..], level, g, j, 2 * size)
      invariant left == XorSum(a[..j]) && right == XorSum(b[..j])
    {
      assert output[..size][j] == level[j];
      XorOn(splits, output[j], size, j, g, level, 2 * size);
      left := Xor(left, splits[j]);
      right := Xor(right, splits[size + j]);
      SumNext(a, j);
      SumNext(b, j);
    }
    assert a[..size] == a && b[..size] == b;
    PartDone(splits[..], level, g, 2 * size);
    CopyBack(splits, output, Min(2 * size, n));
    assert splits[..] == a + b;
    assert splits[..][..Min(2 * size, n)] == splits[..Min(2 * size, n)];
  }

  lemma PartStart(s: seq<Block>, level: seq<Block>, g: Split, q: nat)
    requires |s| == 2 * |level|
    requires forall k :: 0 <= k < |level| && k != q ==> s[k] == g.e0(level[k]) && s[|level| + k] == g.e1(level[k])
    ensures Part(s, level, g, 0, q)
  {
  }

  lemma SumNone(a: seq<Block>, b: seq<Block>)
    ensures XorSum(a[..0]) == Zero() && XorSum(b[..0]) == Zero()
  {
  }

  lemma SumNext(a: seq<Block>, j: nat)
    requires j < |a|
    ensures XorSum(a[..j + 1]) == Xor(XorSum(a[..j]), a[j])
  {
    assert a[..j + 1] == a[..j] + [a[j]];
    XorSumSnoc(a[..j], a[j]);
  }

  // The levels below the last are narrower than n.
  lemma Narrow(n: nat, i: nat)
    requires n > 1 && i < Log2Ceil(n)
    ensures Pow2(i) < n && Pow2(i + 1) == 2 * Pow2(i)
  {
    Pow2Mono(i, Log2Ceil(n) - 1);
  }

  // The sender's expansion.
  method SendTree(output: array<Block>, n: nat, seed: Block, g: Split) returns (lefts: seq<Block>, rights: seq<Block>)
    requires 1 < n <= output.Length
    modifies output
    ensures output[..n] == Tree(Log2Ceil(n), seed, g)[..n]
    ensures |lefts| == |rights| == Log2Ceil(n)
    ensures forall i :: 0 <= i < |lefts| ==> lefts[i] == SideSum(i, seed, g, false) && rights[i] == SideSum(i, seed, g, true)
  {
    hide Pow2, Side, XorSum, Tree, SideSum, Log2Ceil;
    var h, size := Log2Ceil(n), 1;
    output[0] := seed;
    lefts, rights := [], [];
    FirstLevel(seed, g);
    assert output[..1] == [seed];
    for i := 0 to h
      invariant size == Pow2(i)
      invariant output[..Min(size, n)] == Tree(i, seed, g)[..Min(size, n)]
      invariant |lefts| == |rights| == i
      invariant forall k :: 0 <= k < i ==> lefts[k] == SideSum(k, seed, g, false) && rights[k] == SideSum(k, seed, g, true)
    {
      Narrow(n, i);
      NextLevel(i, seed, g);
      assert Tree(i, seed, g)[..size] == Tree(i, seed, g);
      var left, right := SendLevel(output, size, n, g, Tree(i, seed, g));
      lefts, rights := lefts + [left], rights + [right];
      size := 2 * size;
    }
  }

  lemma NextLevel(i: nat, seed: Block, g: Split)
    ensures Tree(i + 1, seed, g) == Side(Tree(i, seed, g), g.e0) + Side(Tree(i, seed, g), g.e1)
    ensures SideSum(i, seed, g, false) == XorSum(Side(Tree(i, seed, g), g.e0))
    ensures SideSum(i, seed, g, true) == XorSum(Side(Tree(i, seed, g), g.e1))
  {
  }

  lemma FirstLevel(seed: Block, g: Split)
    ensures Pow2(0) == 1 && Tree(0, seed, g)[..1] == [seed]
  {
  }

  // ---- Receiver -----------------------------------------------------------

  // All seeds of a level but the one at q, which is 0.
  ghost predicate Known(p: seq<Block>, t: seq<Block>, q: nat) {
    |p| <= |t| && forall k :: 0 <= k < |p| ==> p[k] == if k == q then 0 else t[k]
  }

  // The children of the known seeds, and the missing child on the side whose sum
  // is given. The positions of the two children of q are left for the caller.
  method RecvSplits(output: array<Block>, size: nat, q: nat, bit: bool, side: Block, g: Split, ghost level: seq<Block>)
    returns (splits: array<Block>, insertVal: Block)
    requires q < size <= output.Length && |level| == size && Known(output[..size], level, q)
    requires side == XorSum(Side(level, if bit then g.e0 else g.e1))
    ensures fresh(splits) && splits.Length == 2 * size
    ensures forall k :: 0 <= k < 2 * size && k != q && k != q + size ==> splits[k] == (Side(level, g.e0) + Side(level, g.e1))[k]
    ensures insertVal == Side(level, if bit then g.e0 else g.e1)[q]
  {
    hide Xor, XorSum, Known, Part, Side;
    KnownAt(output[..size], level, q);
    assert forall k :: 0 <= k < size && k != q ==> output[k] == output[..size][k];
    var punct, inserted := if bit then q + size else q, if bit then q else q + size;
    splits := SplitAllSeeds(output, size, g);
    ghost var mine := Side(level, if bit then g.e0 else g.e1);
    insertVal := side;
    XorZero(side);
    PartStart(splits[..], level, g, q);
    for j := 0 to size
      invariant Part(splits[..], level, g, j, q)
      invariant insertVal == Xor(side, SkipSum(mine, q, j))
    {
      if j != punct && j != inserted {
        XorOn(splits, output[j], size, j, g, level, q);
        insertVal := Xor(insertVal, if bit then splits[j] else splits[size + j]);
        XorAssoc(side, SkipSum(mine, q, j), mine[j]);
      } else {
        PartStep(splits[..], level, g, j, q);
      }
    }
    assert mine[..size] == mine;
    SkipSumMeans(mine, q, size);
    Recovered(SkipSum(mine, q, size), mine[q]);
    PartDone(splits[..], level, g, q);
  }

  lemma KnownAt(p: seq<Block>, t: seq<Block>, q: nat)
    requires Known(p, t, q)
    ensures forall k :: 0 <= k < |p| && k != q ==> p[k] == t[k]
  {
  }

  // One level of the receiver. It knows the level but for position q; of the
  // next it lacks one child of q and computes the other.
  method RecvLevel(output: array<Block>, size: nat, n: nat, q: nat, bit: bool, side: Block, g: Split, ghost level: seq<Block>)
    requires q < size < n <= output.Length && |level| == size && Known(output[..size], level, q)
    requires side == XorSum(Side(level, if bit then g.e0 else g.e1))
    requires (if bit then q + size else q) < n
    modifies output
    ensures Known(output[..Min(2 * size, n)], Side(level, g.e0) + Side(level, g.e1), if bit then q + size else q)
  {
    hide Xor, XorSum, Side;
    var punct, inserted := if bit then q + size else q, if bit then q else q + size;
    var splits, insertVal := RecvSplits(output, size, q, bit, side, g, level);
    var len := Min(2 * size, n);
    CopyBack(splits, output, len);
    assert forall k :: 0 <= k < len ==> output[k] == output[..len][k] && splits[k] == splits[..len][k];
    output[punct] := 0;
    if inserted < n { output[inserted] := insertVal; }
  }

  // The sum of a side without the known seeds is the missing one.
  lemma Recovered(s: Block, x: Block)
    ensures Xor(Xor(s, x), s) == x
  {
    XorMove(s, x, s);
    XorZero(s);
    XorZero(x);
  }

  // The first level: both children of the root are placed at once.
  method RecvFirst(output: array<Block>, bit: bool, side: Block, n: nat, ghost seed: Block, ghost g: Split)
    requires 1 < n <= output.Length && side == SideSum(0, seed, g, !bit)
    modifies output
    ensures Known(output[..2], Tree(1, seed, g), if bit then 1 else 0)
  {
    hide Xor, XorSum, Side;
    var punct, inserted := if bit then 1 else 0, if bit then 0 else 1;
    output[punct] := 0;
    if inserted < n { output[inserted] := side; }
    SideOfOne(seed, g.e0);
    SideOfOne(seed, g.e1);
  }

  lemma SideOfOne(x: Block, e: Block -> Block)
    ensures |Side([x], e)| == 1 && XorSum(Side([x], e)) == Side([x], e)[0]
  {
    XorSumOne(Side([x], e)[0]);
    assert Side([x], e) == [Side([x], e)[0]];
  }

  // The receiver's expansion: it ends with every leaf but the one at index.
  method RecvTree(output: array<Block>, n: nat, index: nat, sides: seq<Block>, ghost seed: Block, g: Split)
    requires 1 < n <= output.Length && index < n && |sides| == Log2Ceil(n)
    requires forall i :: 0 <= i < |sides| ==> sides[i] == SideSum(i, seed, g, !Bit(index, i))
    modifies output
    ensures Known(output[..n], Tree(Log2Ceil(n), seed, g), index)
  {
    hide Pow2, Side, Known, Bit, XorSum;
    var h := Log2Ceil(n);
    RecvFirst(output, Bit(index, 0), sides[0], n, seed, g);
    RecvStart(index, n);
    var q, size := if Bit(index, 0) then 1 else 0, 2;
    for i := 1 to h
      invariant size == Pow2(i) && q == index % Pow2(i)
      invariant Known(output[..Min(size, n)], Tree(i, seed, g), q)
    {
      Narrow(n, i);
      Position(index, n, i);
      RecvLevel(output, size, n, q, Bit(index, i), sides[i], g, Tree(i, seed, g));
      q := if Bit(index, i) then q + size else q;
      size := 2 * size;
    }
    RecvEnd(index, n);
  }

  lemma RecvStart(index: nat, n: nat)
    requires n > 1
    ensures Log2Ceil(n) >= 1 && Pow2(1) == 2 && index % Pow2(1) == if Bit(index, 0) then 1 else 0
  {
  }

  lemma RecvEnd(index: nat, n: nat)
    requires index < n && n > 1
    ensures index % Pow2(Log2Ceil(n)) == index && Pow2(Log2Ceil(n)) >= n
  {
    DivUnique(index, 0, index, Pow2(Log2Ceil(n)));
  }

  // The punctured position of a level never exceeds the index.
  lemma Position(index: nat, n: nat, i: nat)
    requires index < n
    ensures index % Pow2(i) < Pow2(i)
    ensures index % Pow2(i + 1) == index % Pow2(i) + (if Bit(index, i) then Pow2(i) else 0) < n
  {
    hide Bit, Pow2;
    Children(index, i);
    DivMod(index, Pow2(i + 1));
    RemainderAtMost(index, Pow2(i + 1));
  }

  lemma RemainderAtMost(x: nat, p: nat)
    requires p > 0
    ensures x % p <= x
  {
    if x < p { DivUnique(x, 0, x, p); }
  }

  // ---- The messages -------------------------------------------------------

  // The receiver's masked choices.
  method MaskChoices(rots: Rots, index: nat, h: nat) returns (masked: seq<bool>)
    requires rots.Valid() && h <= |rots.pairs|
    ensures |masked| == h && forall i :: 0 <= i < h ==> masked[i] == (!Bit(index, i) != rots.choices[i])
  {
    hide Bit;
    masked := seq(h, (i: nat) => !Bit(index, i));
    for i := 0 to h
      invariant |masked| == h
      invariant forall k :: 0 <= k < h ==> masked[k] == if k < i then !Bit(index, k) != rots.choices[k] else !Bit(index, k)
    {
      masked := masked[i := masked[i] != rots.choices[i]];
    }
  }

  // The sender's masked messages.
  method MaskMsgs(rots: Rots, lefts: seq<Block>, rights: seq<Block>, masked: seq<bool>) returns (msgs: seq<OtPair>)
    requires rots.Valid() && |lefts| == |rights| == |masked| <= |rots.pairs|
    ensures |msgs| == |lefts|
    ensures forall i :: 0 <= i < |msgs| ==>
      msgs[i] == OtPair(Xor(lefts[i], rots.pairs[i].GetBlock(masked[i])), Xor(rights[i], rots.pairs[i].GetBlock(!masked[i])))
  {
    hide Xor;
    msgs := [];
    for i := 0 to |lefts|
      invariant |msgs| == i
      invariant forall k :: 0 <= k < i ==>
        msgs[k] == OtPair(Xor(lefts[k], rots.pairs[k].GetBlock(masked[k])), Xor(rights[k], rots.pairs[k].GetBlock(!masked[k])))
    {
      msgs := msgs + [OtPair(Xor(lefts[i], rots.pairs[i].GetBlock(masked[i])),
                             Xor(rights[i], rots.pairs[i].GetBlock(!masked[i])))];
    }
  }

  // The receiver's unmasking of the side it can complete, given the choices the
  // sides were masked for.
  method Unmask(rots: Rots, msgs: seq<OtPair>, index: nat) returns (sides: seq<Block>)
    requires rots.Valid() && |msgs| <= |rots.pairs|
    ensures |sides| == |msgs|
    ensures forall i :: 0 <= i < |msgs| ==> sides[i] == Xor(msgs[i].GetBlock(!Bit(index, i)), rots.blocks[i])
  {
    hide Bit, Xor;
    sides := seq(|msgs|, i requires 0 <= i < |msgs| && |msgs| <= |rots.blocks| =>
      Xor(msgs[i].GetBlock(!Bit(index, i)), rots.blocks[i]));
  }

  lemma Unmasked(s: Block, k: Block)
    ensures Xor(Xor(s, k), k) == s
  {
    XorCancel(s, k);
  }

  // ---- The consistency check ----------------------------------------------

  datatype Digest = Digest(lo: Block, hi: Block)

  function DXor(a: Digest, b: Digest): Digest { Digest(Xor(a.lo, b.lo), Xor(a.hi, b.hi)) }

  datatype CheckMsg = CheckMsg(t: Digest, s: Digest)

  // The hash of one block, and the hash of a sequence of digests.
  datatype Hashes = Hashes(block: Block -> Digest, all: seq<Digest> -> Digest)

  function Digests(xs: seq<Block>, b: Hashes): (r: seq<Digest>)
    ensures |r| == |xs| && forall i :: 0 <= i < |xs| ==> r[i] == b.block(xs[i])
  {
    seq(|xs|, i requires 0 <= i < |xs| => b.block(xs[i]))
  }

  function DigestSum(ds: seq<Digest>): Digest
  {
    if ds == [] then Digest(0, 0) else DXor(DigestSum(ds[..|ds| - 1]), ds[|ds| - 1])
  }

  lemma DXorLaws(a: Digest, b: Digest, c: Digest)
    ensures DXor(a, b) == DXor(b, a) && DXor(DXor(a, b), c) == DXor(a, DXor(b, c)) && DXor(DXor(a, b), b) == a
  {
    XorComm(a.lo, b.lo); XorComm(a.hi, b.hi);
    XorAssoc(a.lo, b.lo, c.lo); XorAssoc(a.hi, b.hi, c.hi);
    XorCancel(a.lo, b.lo); XorCancel(a.hi, b.hi);
  }

  // Sums of two sequences that differ at one place differ by the difference there.
  lemma {:induction false} DigestSumDiffers(s: seq<Digest>, r: seq<Digest>, q: nat)
    requires |s| == |r| && q < |s| && forall i :: 0 <= i < |s| && i != q ==> s[i] == r[i]
    ensures DXor(DigestSum(s), s[q]) == DXor(DigestSum(r), r[q])
    decreases |s|
  {
    hide DXor;
    var l := |s| - 1;
    if q == l {
      assert s[..l] == r[..l];
      DXorLaws(DigestSum(s[..l]), s[l], s[l]);
      DXorLaws(DigestSum(r[..l]), r[l], r[l]);
    } else {
      DigestSumDiffers(s[..l], r[..l], q);
      DSwap(DigestSum(s[..l]), s[l], s[q]);
      DSwap(DigestSum(r[..l]), r[l], r[q]);
    }
  }

  lemma DSwap(a: Digest, b: Digest, c: Digest)
    ensures DXor(DXor(a, b), c) == DXor(DXor(a, c), b)
  {
    hide DXor;
    DXorLaws(a, b, c);
    DXorLaws(b, c, a);
    DXorLaws(a, c, b);
  }

  // t starts from start; the loops of both sides.
  method HashAll(n: nat, output: seq<Block>, start: Digest, b: Hashes) returns (t: Digest, tmp: seq<Digest>)
    requires |output| == n
    ensures tmp == Digests(output, b) && t == DXor(start, DigestSum(tmp))
  {
    hide DXor;
    t, tmp := start, [];
    StartDigest(start);
    for i := 0 to n
      invariant tmp == Digests(output[..i], b) && t == DXor(start, DigestSum(tmp))
    {
      ghost var was := tmp;
      tmp := tmp + [b.block(output[i])];
      assert output[..i + 1] == output[..i] + [output[i]];
      assert tmp[..|tmp| - 1] == was;
      DXorLaws(start, DigestSum(was), tmp[i]);
      DXorLaws(tmp[i], t, t);
      t := DXor(tmp[i], t);
    }
    assert output[..n] == output;
  }

  lemma StartDigest(d: Digest)
    ensures DXor(d, Digest(0, 0)) == d && DXor(Digest(0, 0), d) == d
  {
    ZeroIsZero();
    XorZero(d.lo);
    XorZero(d.hi);
  }

  method GenCheckMsg(n: nat, output: seq<Block>, b: Hashes) returns (m: CheckMsg)
    requires |output| == n
    ensures m == CheckMsg(DigestSum(Digests(output, b)), b.all(Digests(output, b)))
  {
    var t, tmp := HashAll(n, output, Digest(0, 0), b);
    StartDigest(DigestSum(tmp));
    m := CheckMsg(t, b.all(tmp));
  }

  method VerifyCheckMsg(n: nat, index: nat, output: seq<Block>, proof: CheckMsg, b: Hashes) returns (ok: bool)
    requires |output| == n && index < n
    ensures
      var ds := Digests(output, b);
      ok == (b.all(ds[index := DXor(DXor(proof.t, DigestSum(ds)), ds[index])]) == proof.s)
  {
    hide DXor;
    var t, tmp := HashAll(n, output, proof.t, b);
    tmp := tmp[index := DXor(t, tmp[index])];
    ok := b.all(tmp) == proof.s;
  }

  // The proof of an honest sender verifies against every vector that agrees with
  // its own off the index.
  lemma HonestProofVerifies(s: seq<Block>, r: seq<Block>, index: nat, b: Hashes)
    requires |s| == |r| && index < |s| && forall i :: 0 <= i < |s| && i != index ==> s[i] == r[i]
    ensures
      var ds := Digests(r, b);
      ds[index := DXor(DXor(DigestSum(Digests(s, b)), DigestSum(ds)), ds[index])] == Digests(s, b)
  {
    hide DXor, DigestSum;
    var ds, es := Digests(r, b), Digests(s, b);
    DigestSumDiffers(es, ds, index);
    var x, y := DigestSum(es), DigestSum(ds);
    Isolate(x, y, es[index], ds[index]);
    var fixed := ds[index := DXor(DXor(x, y), ds[index])];
    assert forall i :: 0 <= i < |s| ==> fixed[i] == es[i];
  }

  lemma Isolate(x: Digest, y: Digest, e: Digest, d: Digest)
    requires DXor(x, e) == DXor(y, d)
    ensures DXor(DXor(x, y), d) == e
  {
    hide DXor;
    DXorLaws(x, y, d);
    DXorLaws(x, e, e);
    DXorLaws(e, x, x);
    DXorLaws(DXor(x, e), x, x);
  }

  // ---- The protocol -------------------------------------------------------

  // ParaCrHashInplace_128.
  method Refresh(output: array<Block>, n: nat, H: Block -> Block)
    requires n <= output.Length
    modifies output
    ensures forall k :: 0 <= k < n ==> output[k] == H(old(output[k]))
  {
    for i := 0 to n
      invariant forall k :: 0 <= k < i ==> output[k] == H(old(output[k]))
      invariant forall k :: i <= k < n ==> output[k] == old(output[k])
    {
      output[i] := H(output[i]);
    }
  }

  // Sender and receiver hold the same vector but for a zero at the index.
  ghost predicate PuncturedVector(s: seq<Block>, r: seq<Block>, index: nat) {
    |s| == |r| && index < |s| && forall k :: 0 <= k < |s| ==> r[k] == if k == index then 0 else s[k]
  }

  // After the trees: the check of the malicious mode, which never refuses an
  // honest sender, and the refreshing of both vectors.
  method Finish(sent: array<Block>, received: array<Block>, n: nat, index: nat, mal: bool, b: Hashes, H: Block -> Block)
    returns (ok: bool)
    requires sent != received && n <= sent.Length && n <= received.Length
    requires PuncturedVector(sent[..n], received[..n], index)
    modifies sent, received
    ensures ok && PuncturedVector(sent[..n], received[..n], index)
    ensures forall k :: 0 <= k < n ==> sent[k] == if mal then H(old(sent[k])) else old(sent[k])
  {
    hide DXor, DigestSum;
    ok := true;
    if mal {
      var proof := GenCheckMsg(n, sent[..n], b);
      ok := VerifyCheckMsg(n, index, received[..n], proof, b);
      HonestProofVerifies(sent[..n], received[..n], index, b);
      ghost var s, r := sent[..n], received[..n];
      Refresh(sent, n, H);
      Refresh(received, n, H);
      received[index] := 0;
      forall k | 0 <= k < n ensures received[k] == if k == index then 0 else sent[k] {
        assert r[k] == if k == index then 0 else s[k];
      }
    }
  }

  // Each side the receiver completes is the one it can unmask.
  lemma SideUnmasked(left: Block, right: Block, pair: OtPair, masked: bool, c: bool, bit: bool, block: Block, m: OtPair)
    requires block == pair.GetBlock(c) && masked == (!bit != c)
    requires m == OtPair(Xor(left, pair.GetBlock(masked)), Xor(right, pair.GetBlock(!masked)))
    ensures Xor(m.GetBlock(!bit), block) == if bit then left else right
  {
    Unmasked(left, block);
    Unmasked(right, block);
  }

  // SgrrOtExtSend and SgrrOtExtRecv on one set of random OTs.
  method SgrrOtExt(rots: Rots, n: nat, index: nat, seed: Block, sent: array<Block>, received: array<Block>, mal: bool,
                   g: Split, b: Hashes, H: Block -> Block) returns (ok: bool)
    requires rots.Valid() && sent != received && sent.Length >= n && received.Length >= n
    modifies sent, received
    ensures ok == (n > 1 && Log2Ceil(n) <= |rots.pairs| <= 128 && index < n)
    ensures ok ==> PuncturedVector(sent[..n], received[..n], index)
    ensures ok ==> forall k :: 0 <= k < n ==>
      k < Pow2(Log2Ceil(n)) && sent[k] == if mal then H(Tree(Log2Ceil(n), seed, g)[k]) else Tree(Log2Ceil(n), seed, g)[k]
  {
    hide Bit, SideSum, Tree, Log2Ceil;
    if !(n > 1) || index >= n { return false; }
    var h := Log2Ceil(n);
    if |rots.pairs| < h || |rots.pairs| > 128 { return false; }
    var lefts, rights := SendTree(sent, n, seed, g);
    var masked := MaskChoices(rots, index, h);
    var msgs := MaskMsgs(rots, lefts, rights, masked);
    var sides := Unmask(rots, msgs, index);
    forall i | 0 <= i < h ensures sides[i] == SideSum(i, seed, g, !Bit(index, i)) {
      SideUnmasked(lefts[i], rights[i], rots.pairs[i], masked[i], rots.choices[i], Bit(index, i), rots.blocks[i], msgs[i]);
    }
    RecvTree(received, n, index, sides, seed, g);
    Leaves(sent[..n], received[..n], Tree(h, seed, g), index);
    ghost var before := sent[..n];
    ok := Finish(sent, received, n, index, mal, b, H);
  }

  lemma Leaves(s: seq<Block>, r: seq<Block>, t: seq<Block>, index: nat)
    requires |s| == |r| <= |t| && s == t[..|s|] && Known(r, t, index) && index < |s|
    ensures PuncturedVector(s, r, index)
  {
  }

  // The fixed-index variant: the receiver's choices are the bits of its index,
  // which must fall below n, and the messages need no masked choices.
  method SgrrOtExtFixed(rots: Rots, n: nat, seed: Block, sent: array<Block>, received: array<Block>, mal: bool,
                        g: Split, b: Hashes, H: Block -> Block) returns (ok: bool, index: nat)
    requires rots.Valid() && sent != received && sent.Length >= n && received.Length >= n
    modifies sent, received
    ensures ok == (n > 1 && Log2Ceil(n) <= |rots.pairs| <= 128 && FromBits(rots.choices[..Log2Ceil(n)]) < n)
    ensures ok ==> index == FromBits(rots.choices[..Log2Ceil(n)]) && PuncturedVector(sent[..n], received[..n], index)
    ensures ok ==> forall k :: 0 <= k < n ==>
      k < Pow2(Log2Ceil(n)) && sent[k] == if mal then H(Tree(Log2Ceil(n), seed, g)[k]) else Tree(Log2Ceil(n), seed, g)[k]
  {
    hide Bit, SideSum, Tree, Log2Ceil, Pow2, FromBits, Known, PuncturedVector, Xor;
    index := 0;
    if !(n > 1) { return false, index; }
    var h := Log2Ceil(n);
    if |rots.pairs| < h || |rots.pairs| > 128 { return false, index; }
    index := FromBits(rots.choices[..h]);
    if index >= n { return false, index; }
    var lefts, rights := SendTree(sent, n, seed, g);
    var msgs := MaskMsgs(rots, lefts, rights, seq(h, _ => true));
    var sides := Unmask(rots, msgs, index);
    forall i | 0 <= i < h ensures sides[i] == SideSum(i, seed, g, !Bit(index, i)) {
      BitFromBits(rots.choices[..h], i);
      SideUnmasked(lefts[i], rights[i], rots.pairs[i], true, rots.choices[i], Bit(index, i), rots.blocks[i], msgs[i]);
    }
    RecvTree(received, n, index, sides, seed, g);
    Leaves(sent[..n], received[..n], Tree(h, seed, g), index);
    ok := Finish(sent, received, n, index, mal, b, H);
  }
}
