// The in-place reduction of SoftSpoken: from a block of 2^k values to their sum
// and, for each bit of the position, the sum of the values at positions that
// have the bit.
module Reduction {
  import opened Bits
  import opened Blocks

  // The values at positions with bit j, zero elsewhere.
  function WithBit(s: seq<Block>, j: nat): (r: seq<Block>)
    ensures |r| == |s| && forall x :: 0 <= x < |s| ==> r[x] == Times(Bit(x, j), s[x])
  {
    seq(|s|, x requires 0 <= x < |s| => Times(Bit(x, j), s[x]))
  }

  function BitSum(s: seq<Block>, j: nat): Block {
    XorSum(WithBit(s, j))
  }

  // s is the reduction of o to depth d.
  ghost predicate Reduced(s: seq<Block>, o: seq<Block>, d: nat) {
    && |s| == |o| == Pow2(d) && d < Pow2(d)
    && s[0] == XorSum(o)
    && forall j :: 0 <= j < d ==> s[1 + j] == BitSum(o, j)
  }

  lemma {:induction false} DepthFits(d: nat)
    ensures d < Pow2(d)
  {
    if d > 0 { DepthFits(d - 1); }
  }

  lemma ReducedStart(x: Block)
    ensures Reduced([x], [x], 0)
  {
    XorSumOne(x);
    assert Pow2(0) == 1;
  }

  // Two reduced halves make a reduced whole.
  lemma ReducedMerge(s: seq<Block>, sl: seq<Block>, sr: seq<Block>, ol: seq<Block>, rr: seq<Block>, d: nat)
    requires Reduced(sl, ol, d) && Reduced(sr, rr, d) && |s| == 2 * Pow2(d)
    requires forall j :: 0 <= j <= d ==> s[j] == Xor(sl[j], sr[j])
    requires s[d + 1] == sr[0]
    ensures Reduced(s, ol + rr, d + 1)
  {
    hide Bit, Xor;
    DepthFits(d + 1);
    XorSumAppend(ol, rr);
    forall j | 0 <= j < d + 1 ensures s[1 + j] == BitSum(ol + rr, j) {
      BitSumAppend(ol, rr, d, j);
    }
  }

  lemma BitSumAppend(ol: seq<Block>, rr: seq<Block>, d: nat, j: nat)
    requires |ol| == |rr| == Pow2(d) && j <= d
    ensures BitSum(ol + rr, j) == if j < d then Xor(BitSum(ol, j), BitSum(rr, j)) else XorSum(rr)
  {
    hide Bit, Xor, XorSum, Zero, Pow2;
    var a, b := WithBit(ol, j), if j < d then WithBit(rr, j) else rr;
    var w := WithBit(ol + rr, j);
    forall x | 0 <= x < 2 * Pow2(d) ensures w[x] == (a + b)[x] {
      if x >= Pow2(d) { HighBit(x - Pow2(d), d, j); } else { HighBit(x, d, j); }
    }
    assert w == a + b;
    if j == d {
      forall x | 0 <= x < |a| ensures a[x] == Zero() { HighBit(x, d, j); }
    }
    XorSumAppend(a, b);
    if j == d {
      AllZeros(a);
      XorZero(XorSum(b));
    }
  }

  // Adding 2^d to a number below it sets bit d and no lower bit.
  lemma HighBit(x: nat, d: nat, j: nat)
    requires x < Pow2(d) && j <= d
    ensures Bit(x + Pow2(d), j) == (if j < d then Bit(x, j) else true) && (j == d ==> !Bit(x, j))
  {
    hide Bit, Pow2;
    BitAbove(x, d, d);
    if j < d {
      DivUnique(x + Pow2(d), 1, x, Pow2(d));
      BitOfRemainder(x + Pow2(d), d, j);
    } else {
      DivUnique(x + Pow2(d), 1, x, Pow2(d));
      BitDivision(x + Pow2(d), d);
    }
  }

  lemma {:induction false} AllZeros(s: seq<Block>)
    requires forall x :: 0 <= x < |s| ==> s[x] == Zero()
    ensures XorSum(s) == Zero()
    decreases |s|
  {
    if s != [] {
      AllZeros(s[..|s| - 1]);
      XorZero(Zero());
    }
  }

  // Clearing position q takes its value out of the sum, and out of the sum of
  // bit j when q has bit j.
  lemma ClearedSums(s: seq<Block>, q: nat, j: nat)
    requires q < |s|
    ensures XorSum(s[q := Zero()]) == Xor(XorSum(s), s[q])
    ensures BitSum(s[q := Zero()], j) == Xor(BitSum(s, j), Times(Bit(q, j), s[q]))
  {
    hide Bit, Xor, XorSum, Zero;
    var c, m := s[q := Zero()], WithBit(s, j);
    XorSumUpdate(s, q, Zero());
    XorZero(s[q]);
    assert WithBit(c, j) == m[q := Zero()];
    XorSumUpdate(m, q, Zero());
    XorZero(m[q]);
  }

  // ---- The method ---------------------------------------------------------

  // Block b of size 2^d of now is the reduction of the one of orig.
  ghost predicate BlockReduced(now: seq<Block>, orig: seq<Block>, b: nat, d: nat)
    requires |now| == |orig|
  {
    && 0 <= b * Pow2(d) && b * Pow2(d) + Pow2(d) <= |now|
    && Reduced(now[b * Pow2(d)..b * Pow2(d) + Pow2(d)], orig[b * Pow2(d)..b * Pow2(d) + Pow2(d)], d)
  }

  // The first count blocks of size 2^d are reduced.
  ghost predicate AllReduced(now: seq<Block>, orig: seq<Block>, count: nat, d: nat)
    requires |now| == |orig|
  {
    forall b :: 0 <= b < count ==> BlockReduced(now, orig, b, d)
  }

  // From some position on, all is zero.
  ghost predicate ZeroFrom(s: seq<Block>, tail: nat) {
    forall x :: tail <= x < |s| ==> s[x] == 0
  }

  // One pair of neighbouring blocks.
  method MergeBlocks(buf: array<Block>, i: nat, stride: nat, depth: nat)
    requires 1 <= depth <= stride && i + 2 * stride <= buf.Length
    modifies buf
    ensures forall x :: i <= x < i + depth ==> buf[x] == Xor(old(buf[x]), old(buf[x + stride]))
    ensures buf[i + depth] == old(buf[i + stride])
    ensures forall x :: 0 <= x < buf.Length && !(i <= x <= i + depth) ==> buf[x] == old(buf[x])
  {
    hide Xor;
    for j := 0 to depth
      invariant forall x :: i <= x < i + j ==> buf[x] == Xor(old(buf[x]), old(buf[x + stride]))
      invariant forall x :: 0 <= x < buf.Length && !(i <= x < i + j) ==> buf[x] == old(buf[x])
    {
      buf[i + j] := Xor(buf[i + j], buf[i + j + stride]);
    }
    buf[i + depth] := buf[i + stride];
  }

  // The merge of blocks 2b and 2b + 1 reduces block b of twice the size.
  lemma Merged(now: seq<Block>, mid: seq<Block>, orig: seq<Block>, b: nat, d: nat, p: nat, i: nat)
    requires |now| == |mid| == |orig| && p == Pow2(d) && i == b * (2 * p) && i + 2 * p <= |now|
    requires BlockReduced(mid, orig, 2 * b, d) && BlockReduced(mid, orig, 2 * b + 1, d)
    requires d + 1 <= p
    requires forall x :: i <= x <= i + d ==> now[x] == Xor(mid[x], mid[x + p])
    requires now[i + d + 1] == mid[i + p]
    ensures BlockReduced(now, orig, b, d + 1)
  {
    hide Xor, Reduced, Pow2;
    Doubled(b, p);
    Pow2Step(d);
    var sl, sr := mid[i..i + p], mid[i + p..i + 2 * p];
    var ol, rr := orig[i..i + p], orig[i + p..i + 2 * p];
    var s := now[i..i + 2 * p];
    forall j | 0 <= j <= d ensures s[j] == Xor(sl[j], sr[j]) {
      assert s[j] == now[i + j];
      assert sr[j] == mid[i + p + j];
    }
    ReducedMerge(s, sl, sr, ol, rr, d);
    assert orig[i..i + 2 * p] == ol + rr;
  }

  lemma Doubled(b: nat, p: nat)
    ensures 2 * b * p == b * (2 * p) && (2 * b + 1) * p == b * (2 * p) + p
  {
  }

  // One more block is reduced, and the earlier ones are as they were.
  lemma StageStep(was: seq<Block>, now: seq<Block>, mid: seq<Block>, orig: seq<Block>, b: nat, count: nat, d: nat, e: nat, p: nat, i: nat)
    requires |was| == |now| == |mid| == |orig| == count * (2 * p) && p == Pow2(d) && i == b * (2 * p) && b < count && e == d + 1
    requires i + 2 * p <= |now| && d + 1 <= p
    requires AllReduced(mid, orig, 2 * count, d) && AllReduced(was, orig, b, e)
    requires forall x :: 0 <= x < i ==> now[x] == was[x]
    requires forall x :: i <= x <= i + d ==> now[x] == Xor(mid[x], mid[x + p])
    requires now[i + d + 1] == mid[i + p]
    ensures AllReduced(now, orig, b + 1, e)
  {
    hide Xor, BlockReduced, Pow2;
    assert BlockReduced(mid, orig, 2 * b, d) && BlockReduced(mid, orig, 2 * b + 1, d);
    Merged(now, mid, orig, b, d, p, i);
    Pow2Step(d);
    forall c | 0 <= c < b ensures BlockReduced(now, orig, c, e) {
      EarlierBlock(was, now, orig, c, e, b, 2 * p, i);
    }
  }

  lemma EarlierBlock(was: seq<Block>, now: seq<Block>, orig: seq<Block>, c: nat, d: nat, b: nat, size: nat, i: nat)
    requires |was| == |now| == |orig| && size == Pow2(d) && c < b && i == b * size
    requires BlockReduced(was, orig, c, d) && forall x :: 0 <= x < i && x < |was| ==> now[x] == was[x]
    ensures BlockReduced(now, orig, c, d)
  {
    hide Reduced, Pow2;
    MulMono(c + 1, b, size);
    assert now[c * size..c * size + size] == was[c * size..c * size + size];
  }

  // One stage: blocks of size 2^d become blocks of size 2^(d + 1). Whatever is
  // zero from some position on stays so.
  method Stage(buf: array<Block>, stride: nat, d: nat, ghost count: nat, ghost orig: seq<Block>, ghost tail: nat)
    requires stride == Pow2(d) && buf.Length == |orig| == count * (2 * stride)
    requires AllReduced(buf[..], orig, 2 * count, d) && ZeroFrom(buf[..], tail)
    modifies buf
    ensures AllReduced(buf[..], orig, count, d + 1) && ZeroFrom(buf[..], tail)
  {
    hide Xor, AllReduced, Pow2;
    ghost var mid := buf[..];
    DepthFits(d);
    XorZeroes();
    var i := 0;
    ghost var b := 0;
    NoBlocks(mid, orig, d + 1);
    while i < buf.Length
      invariant i == b * (2 * stride) && 0 <= b <= count
      invariant forall x :: i <= x < buf.Length ==> buf[x] == mid[x]
      invariant AllReduced(buf[..], orig, b, d + 1)
      invariant ZeroFrom(buf[..], tail)
    {
      BlockInside(i, b, count, 2 * stride);
      ghost var was := buf[..];
      MergeBlocks(buf, i, stride, d + 1);
      StageStep(was, buf[..], mid, orig, b, count, d, d + 1, stride, i);
      i := i + 2 * stride;
      b := b + 1;
    }
    BlockCount(i, b, count, 2 * stride);
  }

  lemma NoBlocks(s: seq<Block>, o: seq<Block>, d: nat)
    requires |s| == |o|
    ensures AllReduced(s, o, 0, d)
  {
  }

  lemma XorZeroes()
    ensures Xor(0, 0) == 0
  {
    forall i | 0 <= i < 128 ensures !Bit(0, i) { BitZero(i); }
    BlockEq(Xor(0, 0), 0);
  }

  lemma BlockInside(i: nat, b: nat, count: nat, size: nat)
    requires i == b * size && i < count * size
    ensures b < count && i + size <= count * size && i + size == (b + 1) * size
  {
    if b >= count { MulMono(count, b, size); assert false; }
    MulMono(b + 1, count, size);
  }

  lemma BlockCount(i: nat, b: nat, count: nat, size: nat)
    requires i == b * size && i >= count * size && b <= count && size > 0
    ensures b == count
  {
    if b < count { MulMono(b + 1, count, size); assert false; }
  }

  // XorReduce on a buffer of count blocks of size 2^k. It refuses depths above 64.
  method XorReduce(k: nat, buf: array<Block>, ghost count: nat, ghost tail: nat) returns (ok: bool)
    requires buf.Length == count * Pow2(k) && ZeroFrom(buf[..], tail)
    modifies buf
    ensures ok == (k <= 64)
    ensures ok ==> AllReduced(buf[..], old(buf[..]), count, k) && ZeroFrom(buf[..], tail)
    ensures !ok ==> buf[..] == old(buf[..])
  {
    hide AllReduced, ZeroFrom, Pow2;
    ok := k <= 64;
    if !ok { return; }
    ghost var orig := buf[..];
    var stride := 1;
    NothingReduced(orig);
    ghost var blocks := buf.Length;
    SplitBlocks(count, 0, k);
    for depth := 0 to k
      invariant stride == Pow2(depth) && blocks == count * Pow2(k - depth)
      invariant AllReduced(buf[..], orig, blocks, depth) && ZeroFrom(buf[..], tail)
    {
      ghost var half := count * Pow2(k - (depth + 1));
      SplitBlocks(count, depth + 1, k);
      Stage(buf, stride, depth, half, orig, tail);
      stride := 2 * stride;
      blocks := half;
    }
    SplitBlocks(count, k, k);
  }

  // The unrolled template: the instance of k - 1, then one stage.
  method XorReduceUnrolled(k: nat, buf: array<Block>, ghost count: nat, ghost tail: nat)
    requires buf.Length == count * Pow2(k) && ZeroFrom(buf[..], tail)
    modifies buf
    ensures AllReduced(buf[..], old(buf[..]), count, k) && ZeroFrom(buf[..], tail)
  {
    hide AllReduced, ZeroFrom, Pow2;
    ghost var orig := buf[..];
    SplitBlocks(count, 0, 0);
    if k == 0 {
      NothingReduced(orig);
    } else {
      HalfBlocks(count, k);
      XorReduceUnrolled(k - 1, buf, 2 * count, tail);
      Stage(buf, Pow2(k - 1), k - 1, count, orig, tail);
    }
  }

  lemma HalfBlocks(count: nat, k: nat)
    requires k > 0
    ensures count * Pow2(k) == 2 * count * Pow2(k - 1) == count * (2 * Pow2(k - 1))
  {
  }

  // XorReduceImpl: instances up to 8, the loop above.
  method XorReduceImpl(k: nat, buf: array<Block>, ghost count: nat, ghost tail: nat) returns (ok: bool)
    requires buf.Length == count * Pow2(k) && ZeroFrom(buf[..], tail)
    modifies buf
    ensures ok == (k <= 64)
    ensures ok ==> AllReduced(buf[..], old(buf[..]), count, k) && ZeroFrom(buf[..], tail)
    ensures !ok ==> buf[..] == old(buf[..])
  {
    hide *;
    if 1 <= k <= 8 {
      XorReduceUnrolled(k, buf, count, tail);
      ok := true;
    } else {
      ok := XorReduce(k, buf, count, tail);
    }
  }

  lemma SplitBlocks(count: nat, d: nat, k: nat)
    requires d <= k
    ensures Pow2(0) == 1
    ensures d > 0 ==> Pow2(d) == 2 * Pow2(d - 1) && count * Pow2(k - (d - 1)) == 2 * (count * Pow2(k - d))
    ensures d > 0 ==> count * Pow2(k - d) * (2 * Pow2(d - 1)) == count * Pow2(k)
    ensures count * Pow2(k - d) >= 0 && count * Pow2(k - k) == count
  {
    hide Pow2;
    Pow2Zero();
    if d > 0 {
      Pow2Step(k - d);
      Pow2Step(d - 1);
      Pow2Add(k - d, d);
      MulSwapped(count, Pow2(k - d), Pow2(d));
      MulSwapped(count, 2, Pow2(k - d));
    }
  }

  lemma Pow2Zero()
    ensures Pow2(0) == 1
  {
  }

  lemma MulSwapped(a: nat, b: nat, c: nat)
    ensures a * b * c == a * (b * c) && a * (b * c) == b * (a * c) && a * b >= 0 && a * c >= 0
  {
  }

  lemma NothingReduced(s: seq<Block>)
    ensures AllReduced(s, s, |s|, 0)
  {
    hide Reduced;
    assert Pow2(0) == 1;
    forall b | 0 <= b < |s| ensures BlockReduced(s, s, b, 0) {
      ReducedStart(s[b]);
      assert s[b..b + 1] == [s[b]];
    }
  }
}
