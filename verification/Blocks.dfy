// uint128_t blocks under the bitwise operations.
module Blocks {
  import opened Bits

  const SIZE: nat := 0x1_0000_0000_0000_0000_0000_0000_0000_0000

  type Block = x: nat | x < SIZE

  lemma Pow2Of32()
    ensures Pow2(32) == 0x1_0000_0000
  {
    assert Pow2(8) == 256;
    Pow2Add(8, 8);
    Pow2Add(16, 16);
  }

  lemma Pow2Of64()
    ensures Pow2(64) == 0x1_0000_0000_0000_0000
  {
    Pow2Of32();
    Pow2Add(32, 32);
  }

  lemma SizeIsPow2()
    ensures Pow2(128) == SIZE
  {
    Pow2Of64();
    Pow2Add(64, 64);
  }

  // The block with the given bits.
  function MakeBlock(f: nat -> bool): (r: Block)
    ensures forall i :: 0 <= i < 128 ==> Bit(r, i) == f(i)
  {
    SizeIsPow2();
    var bs := seq(128, i requires 0 <= i < 128 => f(i));
    assert forall i :: 0 <= i < 128 ==> Bit(FromBits(bs), i) == f(i) by {
      forall i | 0 <= i < 128 ensures Bit(FromBits(bs), i) == f(i) { BitFromBits(bs, i); }
    }
    FromBits(bs)
  }

  lemma BlockEq(a: Block, b: Block)
    requires forall i :: 0 <= i < 128 ==> Bit(a, i) == Bit(b, i)
    ensures a == b
  {
    SizeIsPow2();
    BitsInjective(a, b, 128);
  }

  function Xor(a: Block, b: Block): (r: Block)
    ensures forall i :: 0 <= i < 128 ==> Bit(r, i) == (Bit(a, i) != Bit(b, i))
  {
    MakeBlock((i: nat) => Bit(a, i) != Bit(b, i))
  }

  function And(a: Block, b: Block): (r: Block)
    ensures forall i :: 0 <= i < 128 ==> Bit(r, i) == (Bit(a, i) && Bit(b, i))
  {
    MakeBlock((i: nat) => Bit(a, i) && Bit(b, i))
  }

  function Or(a: Block, b: Block): (r: Block)
    ensures forall i :: 0 <= i < 128 ==> Bit(r, i) == (Bit(a, i) || Bit(b, i))
  {
    MakeBlock((i: nat) => Bit(a, i) || Bit(b, i))
  }

  function Not(a: Block): (r: Block)
    ensures forall i :: 0 <= i < 128 ==> Bit(r, i) == !Bit(a, i)
  {
    MakeBlock((i: nat) => !Bit(a, i))
  }

  function Zero(): (r: Block)
    ensures forall i :: 0 <= i < 128 ==> !Bit(r, i)
  {
    MakeBlock((i: nat) => false)
  }

  lemma ZeroIsZero()
    ensures Zero() == 0
  {
    forall i | 0 <= i < 128 ensures !Bit(0, i) { BitZero(i); }
    BlockEq(Zero(), 0);
  }

  // Uint128Max().
  function Full(): (r: Block)
    ensures forall i :: 0 <= i < 128 ==> Bit(r, i)
  {
    MakeBlock((i: nat) => true)
  }

  // MakeUint128(0xffffffffffffffff, 0xfffffffffffffffe): everything but the low bit.
  function High(): (r: Block)
    ensures forall i :: 0 <= i < 128 ==> Bit(r, i) == (i != 0)
  {
    MakeBlock((i: nat) => i != 0)
  }

  // b * x for a bit b.
  function Times(b: bool, x: Block): Block {
    if b then x else Zero()
  }

  function Lsb(x: Block): bool {
    Bit(x, 0)
  }

  // Block i of a bit vector that is padded with zeros.
  function ChoiceBlock(choices: seq<bool>, i: nat): (r: Block)
    ensures forall k :: 0 <= k < 128 ==> Bit(r, k) == (128 * i + k < |choices| && choices[128 * i + k])
  {
    MakeBlock((k: nat) => 128 * i + k < |choices| && choices[128 * i + k])
  }

  lemma XorZero(a: Block)
    ensures Xor(a, Zero()) == a && Xor(Zero(), a) == a && Xor(a, a) == Zero()
  {
    BlockEq(Xor(a, Zero()), a);
    BlockEq(Xor(Zero(), a), a);
    BlockEq(Xor(a, a), Zero());
  }

  lemma XorComm(a: Block, b: Block)
    ensures Xor(a, b) == Xor(b, a)
  {
    BlockEq(Xor(a, b), Xor(b, a));
  }

  lemma XorAssoc(a: Block, b: Block, c: Block)
    ensures Xor(Xor(a, b), c) == Xor(a, Xor(b, c))
  {
    BlockEq(Xor(Xor(a, b), c), Xor(a, Xor(b, c)));
  }

  lemma XorCancel(a: Block, b: Block)
    ensures Xor(Xor(a, b), b) == a && Xor(b, Xor(a, b)) == a && Xor(b, Xor(b, a)) == a
  {
    BlockEq(Xor(Xor(a, b), b), a);
    BlockEq(Xor(b, Xor(a, b)), a);
    BlockEq(Xor(b, Xor(b, a)), a);
  }

  lemma Xor4(a: Block, b: Block, c: Block, d: Block)
    ensures Xor(Xor(a, b), Xor(c, d)) == Xor(Xor(a, c), Xor(b, d))
  {
    BlockEq(Xor(Xor(a, b), Xor(c, d)), Xor(Xor(a, c), Xor(b, d)));
  }

  lemma XorMove(a: Block, b: Block, c: Block)
    ensures Xor(Xor(a, b), c) == Xor(Xor(a, c), b)
  {
    BlockEq(Xor(Xor(a, b), c), Xor(Xor(a, c), b));
  }

  lemma TimesXor(b: bool, c: bool, x: Block)
    ensures Xor(Times(b, x), Times(c, x)) == Times(b != c, x)
  {
    XorZero(x);
    XorZero(Zero());
  }

  // Masking twice is masking once, and distributes over XOR.
  lemma MaskXor(a: Block, b: Block, m: Block)
    ensures And(Xor(a, b), m) == Xor(And(a, m), And(b, m))
    ensures And(And(a, m), m) == And(a, m)
  {
    BlockEq(And(Xor(a, b), m), Xor(And(a, m), And(b, m)));
    BlockEq(And(And(a, m), m), And(a, m));
  }

  function XorSum(s: seq<Block>): Block
    decreases |s|
  {
    if s == [] then Zero() else Xor(XorSum(s[..|s| - 1]), s[|s| - 1])
  }

  lemma XorSumSnoc(s: seq<Block>, x: Block)
    ensures XorSum(s + [x]) == Xor(XorSum(s), x)
  {
    assert (s + [x])[..|s|] == s;
  }

  lemma XorSumOne(x: Block)
    ensures XorSum([x]) == x
  {
    XorSumSnoc([], x);
    assert [] + [x] == [x];
    XorZero(x);
  }

  lemma {:induction false} XorSumAppend(s: seq<Block>, t: seq<Block>)
    ensures XorSum(s + t) == Xor(XorSum(s), XorSum(t))
    decreases |t|
  {
    if t == [] {
      assert s + t == s;
      XorZero(XorSum(s));
    } else {
      var l := |t| - 1;
      assert (s + t)[..|s| + l] == s + t[..l];
      XorSumAppend(s, t[..l]);
      XorAssoc(XorSum(s), XorSum(t[..l]), t[l]);
    }
  }

  // Elementwise XOR.
  lemma {:induction false} XorSumZip(s: seq<Block>, t: seq<Block>, u: seq<Block>)
    requires |s| == |t| == |u| && forall i :: 0 <= i < |s| ==> u[i] == Xor(s[i], t[i])
    ensures XorSum(u) == Xor(XorSum(s), XorSum(t))
    decreases |s|
  {
    if s == [] {
      XorZero(Zero());
    } else {
      var l := |s| - 1;
      XorSumZip(s[..l], t[..l], u[..l]);
      Xor4(XorSum(s[..l]), XorSum(t[..l]), s[l], t[l]);
    }
  }

  // Replacing one element changes the sum by the difference.
  lemma {:induction false} XorSumUpdate(s: seq<Block>, i: nat, x: Block)
    requires i < |s|
    ensures XorSum(s[i := x]) == Xor(XorSum(s), Xor(s[i], x))
    decreases |s|
  {
    var l := |s| - 1;
    var s' := s[i := x];
    if i == l {
      assert s'[..l] == s[..l];
      XorAssoc(XorSum(s[..l]), s[l], Xor(s[l], x));
      XorCancel(x, s[l]);
    } else {
      assert s'[..l] == s[..l][i := x];
      XorSumUpdate(s[..l], i, x);
      XorMove(XorSum(s[..l]), Xor(s[i], x), s[l]);
    }
  }
}
