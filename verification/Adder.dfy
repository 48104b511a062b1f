// The arithmetic behind the share conversions: ripple carries, and XOR as a
// sum of weighted bits.
module Adder {
  import opened ModArith
  import opened Bits
  import opened Blocks
  import opened Words

  // The carry into bit k when x and y are added.
  function Carry(x: nat, y: nat, k: nat): bool {
    if k == 0 then false
    else (Bit(x, k - 1) && Bit(y, k - 1)) != ((Bit(x, k - 1) != Bit(y, k - 1)) && Carry(x, y, k - 1))
  }

  // The low k bits of x and y add up to the low k bits of the sum and a carry.
  lemma {:induction false} CarryMeans(x: nat, y: nat, k: nat)
    ensures x % Pow2(k) + y % Pow2(k) == (x + y) % Pow2(k) + if Carry(x, y, k) then Pow2(k) else 0
    ensures Bit(x + y, k) == ((Bit(x, k) != Bit(y, k)) != Carry(x, y, k))
    decreases k
  {
    if k == 0 {
      assert Bit(x + y, 0) == ((x + y) % 2 == 1);
    } else {
      CarryMeans(x, y, k - 1);
      CarryStep(x, y, k - 1);
    }
    SumBit(x, y, k);
  }

  lemma CarryStep(x: nat, y: nat, k: nat)
    requires x % Pow2(k) + y % Pow2(k) == (x + y) % Pow2(k) + if Carry(x, y, k) then Pow2(k) else 0
    requires Bit(x + y, k) == ((Bit(x, k) != Bit(y, k)) != Carry(x, y, k))
    ensures x % Pow2(k + 1) + y % Pow2(k + 1)
         == (x + y) % Pow2(k + 1) + if Carry(x, y, k + 1) then Pow2(k + 1) else 0
  {
    hide Bit, Pow2;
    Children(x, k);
    Children(y, k);
    Children(x + y, k);
    Pow2Step(k);
  }

  lemma SumBit(x: nat, y: nat, k: nat)
    requires x % Pow2(k) + y % Pow2(k) == (x + y) % Pow2(k) + if Carry(x, y, k) then Pow2(k) else 0
    ensures Bit(x + y, k) == ((Bit(x, k) != Bit(y, k)) != Carry(x, y, k))
  {
    hide *;
    var p, c := Pow2(k), Num(Carry(x, y, k));
    BitDivision(x, k);
    BitDivision(y, k);
    BitDivision(x + y, k);
    DivMod(x, p);
    DivMod(y, p);
    DivMod(x + y, p);
    NumIs(Carry(x, y, k));
    QuotientSum(x / p, y / p, (x + y) / p, x % p, y % p, (x + y) % p, c, p, x, y);
  }

  lemma NumIs(b: bool)
    ensures Num(b) == if b then 1 else 0
  {
  }

  lemma QuotientSum(q: int, r: int, s: int, a: nat, b: nat, d: nat, c: nat, p: nat, x: nat, y: nat)
    requires p > 0 && x == q * p + a && y == r * p + b && x + y == s * p + d
    requires a + b == d + (if c == 1 then p else 0) && c <= 1
    ensures (s % 2 == 1) == (((q % 2 == 1) != (r % 2 == 1)) != (c == 1))
  {
    var t := q + r + c - s;
    assert t * p == q * p + r * p + c * p - s * p;
    assert c * p == if c == 1 then p else 0;
    if t > 0 { Bits.MulGe(t, p); assert false; }
    if t < 0 { Bits.MulGe(-t, p); assert false; }
    assert s == q + r + c;
  }

  // Bit k of the sum modulo 2^64.
  lemma WordSumBit(x: Word, y: Word, k: nat)
    requires k < 64
    ensures Bit(WAdd(x, y), k) == ((Bit(x, k) != Bit(y, k)) != Carry(x, y, k))
  {
    CarryMeans(x, y, k);
    Pow2Of64();
    BitOfRemainder(x + y, 64, k);
  }

  // ---- XOR as a sum -------------------------------------------------------

  // What choosing by a bit of x between 0 and plus or minus 2^k adds.
  function Weighted(b0: bool, b1: bool, k: nat): int {
    if b0 then if b1 then -IntPow2(k) else IntPow2(k) else 0
  }

  function IntPow2(k: nat): int { Pow2(k) }

  lemma XorPart(x: Word, y: Word, k: nat)
    requires k < 64
    ensures WXor(x, y) % Pow2(k + 1) - y % Pow2(k + 1)
         == WXor(x, y) % Pow2(k) - y % Pow2(k) + Weighted(Bit(x, k), Bit(y, k), k)
  {
    hide Bit, Pow2;
    Children(WXor(x, y), k);
    Children(y, k);
    Pow2Step(k);
  }
}
