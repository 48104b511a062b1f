// uint64_t: arithmetic that wraps and bitwise operations.
module Words {
  import opened ModArith
  import opened Bits
  import opened Blocks

  const W: nat := 0x1_0000_0000_0000_0000

  type Word = x: nat | x < W

  // The number in a word, as an integer that may be negated.
  function IntOf(a: Word): int { a }

  function WAdd(a: Word, b: Word): (r: Word)
    ensures Cong(r, a + b, W)
  {
    AddMod(a, b, W)
  }

  function WSub(a: Word, b: Word): (r: Word)
    ensures Cong(r, IntOf(a) - b, W)
  {
    SubMod(a, b, W)
  }

  function WMul(a: Word, b: Word): (r: Word)
    ensures Cong(r, a * b, W)
  {
    MulMod(a, b, W)
  }

  // a << k.
  function Shl(a: Word, k: nat): (r: Word)
    ensures Cong(r, a * Pow2(k), W)
  {
    Mod(a * Pow2(k), W)
  }

  // The cast of a 128-bit block.
  function Trunc(b: Block): Word { b % W }

  function MakeWord(f: nat -> bool): (r: Word)
    ensures forall i :: 0 <= i < 64 ==> Bit(r, i) == f(i)
  {
    Pow2Of64();
    var bs := seq(64, i requires 0 <= i < 64 => f(i));
    assert forall i :: 0 <= i < 64 ==> Bit(FromBits(bs), i) == f(i) by {
      forall i | 0 <= i < 64 ensures Bit(FromBits(bs), i) == f(i) { BitFromBits(bs, i); }
    }
    FromBits(bs)
  }

  lemma WordEq(a: Word, b: Word)
    requires forall i :: 0 <= i < 64 ==> Bit(a, i) == Bit(b, i)
    ensures a == b
  {
    Pow2Of64();
    BitsInjective(a, b, 64);
  }

  function WXor(a: Word, b: Word): (r: Word)
    ensures forall i :: 0 <= i < 64 ==> Bit(r, i) == (Bit(a, i) != Bit(b, i))
  {
    MakeWord((i: nat) => Bit(a, i) != Bit(b, i))
  }

  function WAnd(a: Word, b: Word): (r: Word)
    ensures forall i :: 0 <= i < 64 ==> Bit(r, i) == (Bit(a, i) && Bit(b, i))
  {
    MakeWord((i: nat) => Bit(a, i) && Bit(b, i))
  }

  function WOr(a: Word, b: Word): (r: Word)
    ensures forall i :: 0 <= i < 64 ==> Bit(r, i) == (Bit(a, i) || Bit(b, i))
  {
    MakeWord((i: nat) => Bit(a, i) || Bit(b, i))
  }

  function WNot(a: Word): (r: Word)
    ensures forall i :: 0 <= i < 64 ==> Bit(r, i) == !Bit(a, i)
  {
    MakeWord((i: nat) => !Bit(a, i))
  }

  // A single bit shifted to position k.
  function BitWord(b: bool, k: nat): (r: Word)
    ensures forall i :: 0 <= i < 64 ==> Bit(r, i) == (b && i == k)
  {
    MakeWord((i: nat) => b && i == k)
  }

  // (a >> k) & 1.
  function BitOf(a: Word, k: nat): (r: Word)
    ensures r == Num(Bit(a, k))
    ensures forall i :: 0 <= i < 64 ==> Bit(r, i) == (i == 0 && Bit(a, k))
  {
    BitsOfNum(Bit(a, k));
    Num(Bit(a, k))
  }

  lemma BitsOfNum(b: bool)
    ensures forall i: nat :: Bit(Num(b), i) == (i == 0 && b)
  {
    forall i: nat ensures Bit(Num(b), i) == (i == 0 && b) {
      if i > 0 { BitZero(i - 1); }
    }
  }

  lemma WXorCancel(a: Word, b: Word)
    ensures WXor(WXor(a, b), b) == a
  {
    WordEq(WXor(WXor(a, b), b), a);
  }

  lemma WXorZero(a: Word)
    ensures WXor(a, 0) == a && WXor(0, a) == a
  {
    forall i | 0 <= i < 64 ensures !Bit(0, i) { BitZero(i); }
    WordEq(WXor(a, 0), a);
    WordEq(WXor(0, a), a);
  }

  lemma WXorComm(a: Word, b: Word)
    ensures WXor(a, b) == WXor(b, a)
  {
    WordEq(WXor(a, b), WXor(b, a));
  }

  // XOR-ing the two shares of each of two values.
  lemma WXor4(a: Word, b: Word, c: Word, d: Word)
    ensures WXor(WXor(a, b), WXor(c, d)) == WXor(WXor(a, c), WXor(b, d))
  {
    WordEq(WXor(WXor(a, b), WXor(c, d)), WXor(WXor(a, c), WXor(b, d)));
  }

  // Complementing one share complements the value.
  lemma WNotXor(a: Word, b: Word)
    ensures WXor(WNot(a), b) == WNot(WXor(a, b))
  {
    WordEq(WXor(WNot(a), b), WNot(WXor(a, b)));
  }

  lemma WordCongEq(a: Word, b: Word, x: int)
    requires Cong(a, x, W) && Cong(b, x, W)
    ensures a == b
  {
    CongSmall(a, b, W);
  }

  // a + b where a and b stand for x and y.
  lemma AddFor(a: Word, b: Word, x: int, y: int)
    requires Cong(a, x, W) && Cong(b, y, W)
    ensures Cong(WAdd(a, b), x + y, W) && Cong(WSub(a, b), x - y, W) && Cong(WMul(a, b), x * y, W)
  {
    hide Cong;
    AddCong(a, x, b, y, W);
    SubCong(a, x, b, y, W);
    MulCong(a, x, b, y, W);
    CongTrans(WAdd(a, b), a + b, x + y, W);
    CongTrans(WSub(a, b), IntOf(a) - b, x - y, W);
    CongTrans(WMul(a, b), a * b, x * y, W);
  }
}
