// The half-tree single-point correlated OT: a GGM-style tree whose leaves XOR to
// delta at every level, expanded in place by the sender, and by the receiver
// for every leaf but one.
module HalfTree {
  import opened Bits
  import opened Blocks

  // ---- The tree -----------------------------------------------------------

  function Lefts(xs: seq<Block>, H: Block -> Block, one: Block): (r: seq<Block>)
    ensures |r| == |xs| && forall i :: 0 <= i < |xs| ==> r[i] == And(H(xs[i]), one)
  {
    seq(|xs|, i requires 0 <= i < |xs| => And(H(xs[i]), one))
  }

  function Rights(xs: seq<Block>, H: Block -> Block, one: Block): (r: seq<Block>)
    ensures |r| == |xs| && forall i :: 0 <= i < |xs| ==> r[i] == Xor(xs[i], And(H(xs[i]), one))
  {
    seq(|xs|, i requires 0 <= i < |xs| => Xor(xs[i], And(H(xs[i]), one)))
  }

  // Level l of the tree: 2^l nodes, the children of node i at i and i + 2^(l-1).
  function Tree(l: nat, seed: Block, delta: Block, H: Block -> Block, one: Block): (t: seq<Block>)
    requires l >= 1
    ensures |t| == Pow2(l)
  {
    if l == 1 then [And(seed, one), Xor(And(seed, one), And(delta, one))]
    else
      var xs := Tree(l - 1, seed, delta, H, one);
      Lefts(xs, H, one) + Rights(xs, H, one)
  }

  // What the sender sends for level l: the sum of the left half of level l + 1.
  function LeftSum(l: nat, seed: Block, delta: Block, H: Block -> Block, one: Block): Block {
    XorSum(Tree(l + 1, seed, delta, H, one)[..Pow2(l)])
  }

  // The invariant of the half tree: the nodes of every level XOR to delta.
  lemma {:induction false} LevelSum(l: nat, seed: Block, delta: Block, H: Block -> Block, one: Block)
    requires l >= 1
    ensures XorSum(Tree(l, seed, delta, H, one)) == And(delta, one)
  {
    hide Xor, And, XorSum, Lefts, Rights;
    if l == 1 {
      FirstSum(And(seed, one), And(delta, one));
    } else {
      LevelSum(l - 1, seed, delta, H, one);
      ChildrenSum(Tree(l - 1, seed, delta, H, one), H, one);
    }
  }

  lemma FirstSum(s: Block, d: Block)
    ensures XorSum([s, Xor(s, d)]) == d
  {
    assert [s, Xor(s, d)] == [s] + [Xor(s, d)];
    XorSumSnoc([s], Xor(s, d));
    XorSumOne(s);
    XorCancel(d, s);
  }

  // Two children XOR to their parent.
  lemma ChildrenSum(xs: seq<Block>, H: Block -> Block, one: Block)
    ensures XorSum(Lefts(xs, H, one) + Rights(xs, H, one)) == XorSum(xs)
  {
    var a, b := Lefts(xs, H, one), Rights(xs, H, one);
    XorSumAppend(a, b);
    XorSumZip(xs, a, b);
    XorComm(XorSum(xs), XorSum(a));
    XorCancel(XorSum(xs), XorSum(a));
  }

  // ---- The punctured tree -------------------------------------------------

  // One level of the receiver: q is the position it does not know, sib the sum
  // of the sibling side.
  function PuncStep(xs: seq<Block>, q: nat, sib: Block, H: Block -> Block, one: Block): (t: seq<Block>)
    requires q < |xs|
    ensures |t| == 2 * |xs|
  {
    var a, b := Lefts(xs, H, one), Rights(xs, H, one);
    var fix := Xor(sib, XorSum(a));
    a[q := Xor(a[q], fix)] + b[q := Xor(b[q], fix)]
  }

  function PuncTree(l: nat, index: nat, sibs: seq<Block>, H: Block -> Block, one: Block): (t: seq<Block>)
    requires 1 <= l <= |sibs|
    ensures |t| == Pow2(l)
  {
    if l == 1 then [And(sibs[0], one), And(sibs[0], one)]
    else PuncStep(PuncTree(l - 1, index, sibs, H, one), index % Pow2(l - 1), sibs[l - 1], H, one)
  }

  // p is t except at position q, where it is off by d.
  ghost predicate Punctured(p: seq<Block>, t: seq<Block>, q: nat, d: Block) {
    && |p| == |t|
    && forall i :: 0 <= i < |t| ==> p[i] == (if i == q then Xor(t[i], d) else t[i])
  }

  // The children of the punctured node come out right on the sibling side and
  // off by d on the other.
  lemma PuncNode(x: Block, d: Block, hx: Block, g: Block, sum: Block, sum': Block, sib: Block, b: bool)
    requires sum' == Xor(sum, Xor(hx, g))
    requires sib == Xor(sum, Times(!b, d))
    ensures Xor(g, Xor(sib, sum')) == Xor(hx, Times(!b, d))
    ensures Xor(Xor(Xor(x, d), g), Xor(sib, sum')) == Xor(Xor(x, hx), Times(b, d))
  {
    BlockEq(Xor(g, Xor(sib, sum')), Xor(hx, Times(!b, d)));
    BlockEq(Xor(Xor(Xor(x, d), g), Xor(sib, sum')), Xor(Xor(x, hx), Times(b, d)));
  }

  lemma PuncLevel(p: seq<Block>, t: seq<Block>, q: nat, d: Block, sib: Block, b: bool, H: Block -> Block, one: Block)
    requires q < |t| && Punctured(p, t, q, d)
    requires sib == Xor(XorSum(Lefts(t, H, one)), Times(!b, d))
    ensures Punctured(PuncStep(p, q, sib, H, one), Lefts(t, H, one) + Rights(t, H, one), if b then q + |t| else q, d)
  {
    var n := |t|;
    var a, a' := Lefts(t, H, one), Lefts(p, H, one);
    assert a' == a[q := a'[q]];
    XorSumUpdate(a, q, a'[q]);
    PuncNode(t[q], d, a[q], a'[q], XorSum(a), XorSum(a'), sib, b);
    XorZero(a[q]);
    XorZero(Xor(t[q], a[q]));
    PuncLayout(p, t, q, d, sib, b, H, one);
  }

  // Every other node is the sender's; the two children of q are as computed.
  lemma PuncLayout(p: seq<Block>, t: seq<Block>, q: nat, d: Block, sib: Block, b: bool, H: Block -> Block, one: Block)
    requires q < |t| && Punctured(p, t, q, d)
    requires Xor(Lefts(p, H, one)[q], Xor(sib, XorSum(Lefts(p, H, one)))) ==
      (if b then Lefts(t, H, one)[q] else Xor(Lefts(t, H, one)[q], d))
    requires Xor(Rights(p, H, one)[q], Xor(sib, XorSum(Lefts(p, H, one)))) ==
      (if b then Xor(Rights(t, H, one)[q], d) else Rights(t, H, one)[q])
    ensures Punctured(PuncStep(p, q, sib, H, one), Lefts(t, H, one) + Rights(t, H, one), if b then q + |t| else q, d)
  {
    hide XorSum, Xor, And;
    var n, s := |t|, PuncStep(p, q, sib, H, one);
    var full, q' := Lefts(t, H, one) + Rights(t, H, one), if b then q + n else q;
    forall i | 0 <= i < 2 * n ensures s[i] == (if i == q' then Xor(full[i], d) else full[i]) {
      if i < n {
        assert p[i] == (if i == q then Xor(t[i], d) else t[i]);
      } else {
        assert p[i - n] == (if i - n == q then Xor(t[i - n], d) else t[i - n]);
      }
    }
  }

  // The sibling sums the receiver should have learned.
  ghost predicate SiblingSums(sibs: seq<Block>, index: nat, seed: Block, delta: Block, H: Block -> Block, one: Block) {
    forall l :: 0 <= l < |sibs| ==>
      sibs[l] == Xor(LeftSum(l, seed, delta, H, one), Times(!Bit(index, l), And(delta, one)))
  }

  lemma LeftSumOfChildren(l: nat, seed: Block, delta: Block, H: Block -> Block, one: Block)
    requires l >= 2
    ensures LeftSum(l - 1, seed, delta, H, one) == XorSum(Lefts(Tree(l - 1, seed, delta, H, one), H, one))
  {
    var t := Tree(l - 1, seed, delta, H, one);
    assert Tree(l, seed, delta, H, one)[..Pow2(l - 1)] == Lefts(t, H, one);
  }

  // With the right sibling sums, the receiver's tree is the sender's tree off by
  // delta at the punctured leaf and nowhere else, level by level.
  lemma {:induction false} PuncTreeCorrect(l: nat, index: nat, sibs: seq<Block>, seed: Block, delta: Block, H: Block -> Block, one: Block)
    requires 1 <= l <= |sibs| && SiblingSums(sibs, index, seed, delta, H, one)
    ensures Punctured(PuncTree(l, index, sibs, H, one), Tree(l, seed, delta, H, one), index % Pow2(l), And(delta, one))
  {
    hide *;
    if l == 1 {
      FirstLevel(index, sibs, seed, delta, H, one);
    } else {
      PuncTreeCorrect(l - 1, index, sibs, seed, delta, H, one);
      NextLevel(l, index, sibs, seed, delta, H, one);
    }
  }

  lemma NextLevel(l: nat, index: nat, sibs: seq<Block>, seed: Block, delta: Block, H: Block -> Block, one: Block)
    requires 2 <= l <= |sibs| && SiblingSums(sibs, index, seed, delta, H, one)
    requires Punctured(PuncTree(l - 1, index, sibs, H, one), Tree(l - 1, seed, delta, H, one), index % Pow2(l - 1), And(delta, one))
    ensures Punctured(PuncTree(l, index, sibs, H, one), Tree(l, seed, delta, H, one), index % Pow2(l), And(delta, one))
  {
    hide Punctured, PuncStep, XorSum, Bit, Lefts, Rights, LeftSum;
    var t := Tree(l - 1, seed, delta, H, one);
    Children(index, l - 1);
    LeftSumOfChildren(l, seed, delta, H, one);
    PuncLevel(PuncTree(l - 1, index, sibs, H, one), t, index % Pow2(l - 1), And(delta, one), sibs[l - 1], Bit(index, l - 1), H, one);
  }

  lemma FirstLevel(index: nat, sibs: seq<Block>, seed: Block, delta: Block, H: Block -> Block, one: Block)
    requires 1 <= |sibs| && SiblingSums(sibs, index, seed, delta, H, one)
    ensures Punctured(PuncTree(1, index, sibs, H, one), Tree(1, seed, delta, H, one), index % Pow2(1), And(delta, one))
  {
    var s, d := And(seed, one), And(delta, one);
    var t := Tree(1, seed, delta, H, one);
    Children(index, 0);
    assert Pow2(0) == 1 && Pow2(1) == 2;
    assert t[..1] == [s];
    XorSumOne(s);
    XorZero(s);
    var sib := sibs[0];
    assert sib == Xor(s, Times(!Bit(index, 0), d));
    BlockEq(And(sib, one), sib);
    XorCancel(s, d);
  }

  // ---- Expansion in place -------------------------------------------------

  // The memcpy of the left side into the right side.
  method CopyLevel(left: array<Block>, right: array<Block>, off: nat, size: nat)
    requires size <= left.Length && off + size <= right.Length && (left == right ==> off >= size)
    modifies right
    ensures left[..size] == old(left[..size])
    ensures right[off..off + size] == old(left[..size])
  {
    for i := 0 to size
      invariant left[..size] == old(left[..size])
      invariant right[off..off + i] == left[..i]
    {
      right[off + i] := left[i];
    }
  }

  // ParaCcrHashInplace on the left side.
  method HashLevel(left: array<Block>, size: nat, H: Block -> Block)
    requires size <= left.Length
    modifies left
    ensures forall k :: 0 <= k < size ==> left[k] == H(old(left[k]))
    ensures forall k :: size <= k < left.Length ==> left[k] == old(left[k])
  {
    for i := 0 to size
      invariant forall k :: 0 <= k < i ==> left[k] == H(old(left[k]))
      invariant forall k :: i <= k < left.Length ==> left[k] == old(left[k])
    {
      left[i] := H(left[i]);
    }
  }

  // Masks the hashes and XORs them onto start.
  method MaskLevel(left: array<Block>, size: nat, one: Block, start: Block) returns (sum: Block)
    requires size <= left.Length
    modifies left
    ensures forall k :: 0 <= k < size ==> left[k] == And(old(left[k]), one)
    ensures forall k :: size <= k < left.Length ==> left[k] == old(left[k])
    ensures sum == Xor(start, XorSum(left[..size]))
  {
    hide XorSum, And, Xor;
    sum := start;
    XorSumNone(left[..]);
    XorZero(start);
    assert left[..][..0] == left[..0];
    for i := 0 to size
      invariant forall k :: 0 <= k < i ==> left[k] == And(old(left[k]), one)
      invariant forall k :: i <= k < left.Length ==> left[k] == old(left[k])
      invariant sum == Xor(start, XorSum(left[..i]))
    {
      ghost var before := left[..i];
      left[i] := And(left[i], one);
      sum := Xor(sum, left[i]);
      XorSumSnoc(before, left[i]);
      XorAssoc(start, XorSum(before), left[i]);
      assert left[..i + 1] == before + [left[i]];
    }
  }

  // Turns the copies into right children.
  method XorLevel(left: array<Block>, right: array<Block>, off: nat, size: nat)
    requires size <= left.Length && off + size <= right.Length && (left == right ==> off >= size)
    modifies right
    ensures left[..size] == old(left[..size])
    ensures forall k :: off <= k < off + size ==> right[k] == Xor(old(right[k]), left[k - off])
  {
    hide Xor;
    for i := 0 to size
      invariant left[..size] == old(left[..size])
      invariant forall k :: off <= k < off + i ==> right[k] == Xor(old(right[k]), left[k - off])
      invariant forall k :: off + i <= k < right.Length ==> right[k] == old(right[k])
    {
      right[off + i] := Xor(right[off + i], left[i]);
    }
  }

  lemma XorSumNone(s: seq<Block>)
    ensures XorSum(s[..0]) == Zero()
  {
  }

  // One level: left holds the nodes, right receives the right children from
  // position off, and left is overwritten by the left children. The two may be
  // the same array. The source masks, sums and XORs in one pass; the passes here
  // touch disjoint parts.
  method DoubleLevel(left: array<Block>, right: array<Block>, off: nat, size: nat, H: Block -> Block, one: Block,
                     start: Block) returns (sum: Block)
    requires size <= left.Length && off + size <= right.Length && (left == right ==> off >= size)
    modifies left, right
    ensures left[..size] == Lefts(old(left[..size]), H, one)
    ensures right[off..off + size] == Rights(old(left[..size]), H, one)
    ensures sum == Xor(start, XorSum(left[..size]))
  {
    hide XorSum, Xor, And, Lefts, Rights;
    ghost var xs := left[..size];
    CopyLevel(left, right, off, size);
    assert forall k :: 0 <= k < size ==> left[k] == left[..size][k] == xs[k];
    assert forall k :: off <= k < off + size ==> right[k] == right[off..off + size][k - off] == xs[k - off];
    HashLevel(left, size, H);
    sum := MaskLevel(left, size, one, start);
    assert forall k :: 0 <= k < size ==> left[k] == And(H(xs[k]), one);
    assert forall k :: off <= k < off + size ==> right[k] == xs[k - off];
    ghost var ls := left[..size];
    XorLevel(left, right, off, size);
    assert forall k :: 0 <= k < size ==> left[k] == left[..size][k] == ls[k];
    ChildrenAre(xs, left[..size], right[off..off + size], H, one);
  }

  lemma ChildrenAre(xs: seq<Block>, ls: seq<Block>, rs: seq<Block>, H: Block -> Block, one: Block)
    requires |ls| == |rs| == |xs|
    requires forall k :: 0 <= k < |xs| ==> ls[k] == And(H(xs[k]), one) && rs[k] == Xor(xs[k], ls[k])
    ensures ls == Lefts(xs, H, one) && rs == Rights(xs, H, one)
  {
    hide Xor, And;
  }

  lemma TreeStep(l: nat, seed: Block, delta: Block, H: Block -> Block, one: Block)
    requires l >= 1
    ensures
      var xs := Tree(l, seed, delta, H, one);
      && Tree(l + 1, seed, delta, H, one) == Lefts(xs, H, one) + Rights(xs, H, one)
      && LeftSum(l, seed, delta, H, one) == XorSum(Lefts(xs, H, one))
  {
    LeftSumOfChildren(l + 1, seed, delta, H, one);
  }

  lemma TreeBase(seed: Block, delta: Block, H: Block -> Block, one: Block)
    ensures Tree(1, seed, delta, H, one) == [And(seed, one), Xor(And(seed, one), And(delta, one))]
    ensures LeftSum(0, seed, delta, H, one) == And(seed, one)
  {
    var s := And(seed, one);
    assert Tree(1, seed, delta, H, one)[..1] == [s];
    XorSumOne(s);
  }

  // Room for one more full level, unless it is the last of a tree whose leaf
  // count is not a power of two.
  lemma LevelFits(level: nat, height: nat, n: nat)
    requires 1 <= level < height && n <= Pow2(height) && Pow2(height - 1) < n
    requires level < height - 1 || n == Pow2(height)
    ensures 2 * Pow2(level) == Pow2(level + 1) <= n
  {
    if level < height - 1 {
      Pow2Mono(level + 1, height - 1);
    }
  }

  // One level with its right side in msgs itself.
  method DoubleInPlace(msgs: array<Block>, size: nat, H: Block -> Block, one: Block, start: Block) returns (sum: Block)
    requires 2 * size <= msgs.Length
    modifies msgs
    ensures msgs[..2 * size] == Lefts(old(msgs[..size]), H, one) + Rights(old(msgs[..size]), H, one)
    ensures sum == Xor(start, XorSum(Lefts(old(msgs[..size]), H, one)))
  {
    hide XorSum, Lefts, Rights, Xor;
    sum := DoubleLevel(msgs, msgs, size, size, H, one, start);
    assert msgs[..2 * size] == msgs[..size] + msgs[size..size + size];
  }

  // One level with its right side in the extra buffer.
  method DoubleInto(msgs: array<Block>, extra: array<Block>, H: Block -> Block, one: Block, start: Block) returns (sum: Block)
    requires extra.Length <= msgs.Length && msgs != extra
    modifies msgs, extra
    ensures msgs[..extra.Length] == Lefts(old(msgs[..extra.Length]), H, one)
    ensures extra[..] == Rights(old(msgs[..extra.Length]), H, one)
    ensures sum == Xor(start, XorSum(Lefts(old(msgs[..extra.Length]), H, one)))
  {
    hide XorSum, Lefts, Rights, Xor;
    sum := DoubleLevel(msgs, extra, 0, extra.Length, H, one, start);
    assert extra[..] == extra[0..0 + extra.Length];
  }

  // The full tree: the first n leaves in place, and the left sum of every level.
  method CggmFullEval(delta: Block, seed: Block, n: nat, allMsgs: array<Block>, leftSums: array<Block>,
                      H: Block -> Block, one: Block)
    requires n >= 2 && leftSums.Length == Log2Ceil(n) && allMsgs.Length >= n && allMsgs != leftSums
    modifies allMsgs, leftSums
    ensures allMsgs[..n] == Tree(Log2Ceil(n), seed, delta, H, one)[..n]
    ensures forall l :: 0 <= l < leftSums.Length ==> leftSums[l] == LeftSum(l, seed, delta, H, one)
  {
    hide Tree, LeftSum, And, Xor, Pow2, Log2Ceil;
    FirstPowers();
    var height := Log2Ceil(n);
    var isTwoPower := n == Pow2(height);
    var extra := new Block[Pow2(height - 1)](_ => Zero());
    var prevSize := 1;
    allMsgs[0] := And(seed, one);
    allMsgs[1] := Xor(And(seed, one), And(delta, one));
    leftSums[0] := And(seed, one);
    TreeBase(seed, delta, H, one);
    assert allMsgs[..2] == Tree(1, seed, delta, H, one);
    var level := 1;
    while level < height
      invariant 1 <= level <= height && prevSize == Pow2(level - 1)
      invariant if level == height && !isTwoPower
                then prevSize < n && allMsgs[..prevSize] + extra[..] == Tree(level, seed, delta, H, one)
                else 2 * prevSize <= n && allMsgs[..2 * prevSize] == Tree(level, seed, delta, H, one)
      invariant forall l :: 0 <= l < level ==> leftSums[l] == LeftSum(l, seed, delta, H, one)
    {
      Pow2Step(level - 1);
      prevSize := 2 * prevSize;
      var sum := ExpandLevel(allMsgs, extra, !isTwoPower && level == height - 1, prevSize, level, n, seed, delta, H, one);
      leftSums[level] := sum;
      level := level + 1;
    }
    if !isTwoPower {
      CopyTail(allMsgs, extra, prevSize, n);
    }
  }

  lemma FirstPowers()
    ensures Pow2(0) == 1 && Pow2(1) == 2
  {
  }

  // The body of the level loop; toExtra is the case in which allMsgs has no room
  // for all leaves.
  method ExpandLevel(allMsgs: array<Block>, extra: array<Block>, toExtra: bool, size: nat, level: nat, n: nat,
                     ghost seed: Block, ghost delta: Block, H: Block -> Block, one: Block) returns (sum: Block)
    requires n >= 2 && 1 <= level < Log2Ceil(n) && size == Pow2(level)
    requires allMsgs != extra && n <= allMsgs.Length && extra.Length == Pow2(Log2Ceil(n) - 1)
    requires toExtra <==> n != Pow2(Log2Ceil(n)) && level == Log2Ceil(n) - 1
    requires size <= n && allMsgs[..size] == Tree(level, seed, delta, H, one)
    modifies allMsgs, extra
    ensures sum == LeftSum(level, seed, delta, H, one)
    ensures toExtra ==> size < n && allMsgs[..size] + extra[..] == Tree(level + 1, seed, delta, H, one)
    ensures !toExtra ==> 2 * size <= n && allMsgs[..2 * size] == Tree(level + 1, seed, delta, H, one)
  {
    hide Tree, LeftSum, XorSum, Lefts, Rights, Xor;
    TreeStep(level, seed, delta, H, one);
    XorZero(XorSum(Lefts(allMsgs[..size], H, one)));
    if toExtra {
      sum := DoubleInto(allMsgs, extra, H, one, Zero());
    } else {
      LevelFits(level, Log2Ceil(n), n);
      sum := DoubleInPlace(allMsgs, size, H, one, Zero());
    }
  }

  // The right side leaves that fit are copied from the extra buffer.
  method CopyTail(allMsgs: array<Block>, extra: array<Block>, prevSize: nat, n: nat)
    requires allMsgs != extra && prevSize <= n <= allMsgs.Length && n - prevSize <= extra.Length
    modifies allMsgs
    ensures allMsgs[..n] == (old(allMsgs[..prevSize]) + extra[..])[..n]
  {
    ghost var t := allMsgs[..prevSize] + extra[..];
    for i := 0 to n - prevSize
      invariant allMsgs[..prevSize + i] == t[..prevSize + i]
    {
      allMsgs[prevSize + i] := extra[i];
    }
  }

  // One level of the receiver's expansion.
  method PuncExpandLevel(msgs: array<Block>, extra: array<Block>, toExtra: bool, size: nat, level: nat, n: nat,
                         q: nat, sibs: seq<Block>, ghost index: nat, H: Block -> Block, one: Block)
    requires n >= 2 && 1 <= level < Log2Ceil(n) == |sibs| && size == Pow2(level) && q == index % Pow2(level)
    requires msgs != extra && n <= msgs.Length && extra.Length == Pow2(Log2Ceil(n) - 1)
    requires toExtra <==> n != Pow2(Log2Ceil(n)) && level == Log2Ceil(n) - 1
    requires size <= n && msgs[..size] == PuncTree(level, index, sibs, H, one)
    modifies msgs, extra
    ensures toExtra ==> size < n && msgs[..size] + extra[..] == PuncTree(level + 1, index, sibs, H, one)
    ensures !toExtra ==> 2 * size <= n && msgs[..2 * size] == PuncTree(level + 1, index, sibs, H, one)
  {
    hide PuncTree, XorSum, Lefts, Rights, Xor, PuncStep;
    PuncTreeStep(level, index, sibs, H, one);
    PuncParts(msgs[..size], q, sibs[level], H, one);
    if toExtra {
      PuncInto(msgs, extra, q, sibs[level], H, one);
    } else {
      LevelFits(level, Log2Ceil(n), n);
      PuncInPlace(msgs, size, q, sibs[level], H, one);
    }
  }

  method PuncInto(msgs: array<Block>, extra: array<Block>, q: nat, sib: Block, H: Block -> Block, one: Block)
    requires q < extra.Length <= msgs.Length && msgs != extra
    modifies msgs, extra
    ensures msgs[..extra.Length] + extra[..] == PuncStep(old(msgs[..extra.Length]), q, sib, H, one)
  {
    PuncParts(msgs[..extra.Length], q, sib, H, one);
    hide XorSum, Lefts, Rights, Xor, PuncStep;
    var sum := DoubleInto(msgs, extra, H, one, sib);
    FixNode(msgs, q, sum, extra.Length);
    FixNode(extra, q, sum, extra.Length);
    assert extra[..extra.Length] == extra[..];
  }

  method PuncInPlace(msgs: array<Block>, size: nat, q: nat, sib: Block, H: Block -> Block, one: Block)
    requires q < size && 2 * size <= msgs.Length
    modifies msgs
    ensures msgs[..2 * size] == PuncStep(old(msgs[..size]), q, sib, H, one)
  {
    PuncParts(msgs[..size], q, sib, H, one);
    ghost var ls, rs := Lefts(msgs[..size], H, one), Rights(msgs[..size], H, one);
    hide XorSum, Lefts, Rights, Xor, PuncStep;
    var sum := DoubleInPlace(msgs, size, H, one, sib);
    UpdateBoth(ls, rs, q, sum);
    FixNode(msgs, q, sum, 2 * size);
    FixNode(msgs, size + q, sum, 2 * size);
  }

  lemma PuncTreeBase(index: nat, sibs: seq<Block>, H: Block -> Block, one: Block)
    requires 1 <= |sibs|
    ensures PuncTree(1, index, sibs, H, one) == [And(sibs[0], one), And(sibs[0], one)]
    ensures index % 2 == index % Pow2(1)
  {
  }

  lemma PuncTreeStep(l: nat, index: nat, sibs: seq<Block>, H: Block -> Block, one: Block)
    requires 1 <= l < |sibs|
    ensures PuncTree(l + 1, index, sibs, H, one) ==
      PuncStep(PuncTree(l, index, sibs, H, one), index % Pow2(l), sibs[l], H, one)
  {
  }

  lemma PuncParts(xs: seq<Block>, q: nat, sib: Block, H: Block -> Block, one: Block)
    requires q < |xs|
    ensures
      var a, b := Lefts(xs, H, one), Rights(xs, H, one);
      var fix := Xor(sib, XorSum(a));
      PuncStep(xs, q, sib, H, one) == a[q := Xor(a[q], fix)] + b[q := Xor(b[q], fix)]
  {
  }

  lemma UpdateBoth(a: seq<Block>, b: seq<Block>, q: nat, fix: Block)
    requires q < |a| == |b|
    ensures
      var s := (a + b)[q := Xor((a + b)[q], fix)];
      s[|a| + q := Xor(s[|a| + q], fix)] == a[q := Xor(a[q], fix)] + b[q := Xor(b[q], fix)]
  {
    hide Xor;
  }

  method FixNode(a: array<Block>, k: nat, fix: Block, ghost size: nat)
    requires k < size <= a.Length
    modifies a
    ensures a[..size] == old(a[..size])[k := Xor(old(a[..size])[k], fix)]
  {
    a[k] := Xor(a[k], fix);
  }

  // The tree but for one leaf, from the sibling sums.
  method CggmPuncFullEval(index: nat, sibs: seq<Block>, n: nat, msgs: array<Block>, H: Block -> Block, one: Block)
    requires n >= 2 && |sibs| == Log2Ceil(n) && msgs.Length >= n
    modifies msgs
    ensures msgs[..n] == PuncTree(|sibs|, index, sibs, H, one)[..n]
  {
    hide PuncTree, And, Xor, Bit, Pow2, Log2Ceil;
    FirstPowers();
    var height := |sibs|;
    var isTwoPower := n == Pow2(height);
    var extra := new Block[Pow2(height - 1)](_ => Zero());
    var prevSize := 1;
    msgs[0] := And(sibs[0], one);
    msgs[1] := And(sibs[0], one);
    var puncturedIdx := index % 2;
    PuncTreeBase(index, sibs, H, one);
    assert msgs[..2] == PuncTree(1, index, sibs, H, one);
    var level := 1;
    while level < height
      invariant 1 <= level <= height && prevSize == Pow2(level - 1)
      invariant puncturedIdx == index % Pow2(level)
      invariant if level == height && !isTwoPower
                then prevSize < n && msgs[..prevSize] + extra[..] == PuncTree(level, index, sibs, H, one)
                else 2 * prevSize <= n && msgs[..2 * prevSize] == PuncTree(level, index, sibs, H, one)
    {
      Pow2Step(level - 1);
      prevSize := 2 * prevSize;
      PuncExpandLevel(msgs, extra, !isTwoPower && level == height - 1, prevSize, level, n, puncturedIdx, sibs, index, H, one);
      puncturedIdx := NextIndex(puncturedIdx, index, level);
      level := level + 1;
    }
    if !isTwoPower {
      CopyTail(msgs, extra, prevSize, n);
    }
  }

  // punctured_idx |= index & mask, for the mask of this level.
  function NextIndex(q: nat, index: nat, level: nat): (q': nat)
    requires q == index % Pow2(level)
    ensures q' == index % Pow2(level + 1)
  {
    Children(index, level);
    if Bit(index, level) then q + Pow2(level) else q
  }
}
