// Machine words as natural numbers, and their bits, lowest first.
module Bits {

  function Pow2(n: nat): (r: nat)
    ensures r >= 1
  {
    if n == 0 then 1 else 2 * Pow2(n - 1)
  }

  lemma {:induction false} Pow2Mono(a: nat, b: nat)
    requires a <= b
    ensures Pow2(a) <= Pow2(b)
  {
    if a < b { Pow2Mono(a, b - 1); }
  }

  lemma {:induction false} Pow2Add(a: nat, b: nat)
    ensures Pow2(a + b) == Pow2(a) * Pow2(b)
  {
    if b > 0 {
      Pow2Add(a, b - 1);
      assert Pow2(a) * (2 * Pow2(b - 1)) == 2 * (Pow2(a) * Pow2(b - 1));
    }
  }

  // math::Log2Ceil: the least h with n <= 2^h.
  function Log2Ceil(n: nat): (h: nat)
    requires n >= 1
    ensures n <= Pow2(h) && (h > 0 ==> Pow2(h - 1) < n)
  {
    if n == 1 then 0 else Log2Ceil((n + 1) / 2) + 1
  }

  lemma Log2CeilMono(a: nat, b: nat)
    requires 1 <= a <= b
    ensures Log2Ceil(a) <= Log2Ceil(b)
  {
    var h, k := Log2Ceil(a), Log2Ceil(b);
    if h > k {
      Pow2Mono(k, h - 1);
      assert false;
    }
  }

  lemma {:induction false} Log2OfPow2(h: nat)
    ensures Log2Ceil(Pow2(h)) == h && (h >= 1 ==> Pow2(h) > 1)
  {
    hide Pow2, Log2Ceil;
    var l := Log2Ceil(Pow2(h));
    if h >= 1 {
      Pow2Step(h - 1);
      if l < h { Pow2Mono(l, h - 1); assert false; }
    }
    if l > h { Pow2Mono(h, l - 1); assert false; }
  }

  // Bit i of x.
  function Bit(x: nat, i: nat): bool
    decreases i
  {
    if i == 0 then x % 2 == 1 else Bit(x / 2, i - 1)
  }

  function Num(b: bool): nat {
    if b then 1 else 0
  }

  function FromBits(bs: seq<bool>): (x: nat)
    ensures x < Pow2(|bs|)
  {
    if bs == [] then 0 else Num(bs[0]) + 2 * FromBits(bs[1..])
  }

  lemma {:induction false} FromBitsSnoc(bs: seq<bool>, b: bool)
    ensures FromBits(bs + [b]) == FromBits(bs) + Num(b) * Pow2(|bs|)
  {
    if bs == [] {
      assert [] + [b] == [b] && [b][1..] == [];
    } else {
      FromBitsSnoc(bs[1..], b);
      assert (bs + [b])[1..] == bs[1..] + [b];
    }
  }

  lemma {:induction false} BitFromBits(bs: seq<bool>, i: nat)
    ensures Bit(FromBits(bs), i) == (i < |bs| && bs[i])
    decreases i
  {
    if bs == [] {
      BitZero(i);
    } else {
      var x := FromBits(bs);
      assert x / 2 == FromBits(bs[1..]) && x % 2 == Num(bs[0]);
      if i > 0 { BitFromBits(bs[1..], i - 1); }
    }
  }

  lemma {:induction false} BitZero(i: nat)
    ensures !Bit(0, i)
  {
    if i > 0 { BitZero(i - 1); }
  }

  // A word has no bits above its width.
  lemma {:induction false} BitAbove(x: nat, n: nat, i: nat)
    requires x < Pow2(n) && n <= i
    ensures !Bit(x, i)
    decreases n
  {
    if n == 0 {
      BitZero(i);
    } else {
      BitAbove(x / 2, n - 1, i - 1);
    }
  }

  // A word is determined by its bits.
  lemma {:induction false} BitsInjective(x: nat, y: nat, n: nat)
    requires x < Pow2(n) && y < Pow2(n)
    requires forall i :: 0 <= i < n ==> Bit(x, i) == Bit(y, i)
    ensures x == y
    decreases n
  {
    if n > 0 {
      forall i | 0 <= i < n - 1 ensures Bit(x / 2, i) == Bit(y / 2, i) {
        assert Bit(x, i + 1) == Bit(y, i + 1);
      }
      BitsInjective(x / 2, y / 2, n - 1);
      assert Bit(x, 0) == Bit(y, 0);
    }
  }

  // Bits in terms of division, as the shifts of the source compute them.
  lemma {:induction false} BitDivision(x: nat, i: nat)
    ensures Bit(x, i) <==> x / Pow2(i) % 2 == 1
    decreases i
  {
    if i > 0 {
      BitDivision(x / 2, i - 1);
      DivDiv(x, Pow2(i - 1));
    }
  }

  lemma DivDiv(x: nat, m: nat)
    requires m > 0
    ensures x / 2 / m == x / (2 * m)
  {
    var h, b := x / 2, x % 2;
    var q, r := h / m, h % m;
    assert h == q * m + r;
    DivUnique(x, q, 2 * r + b, 2 * m);
  }

  lemma DivUnique(a: nat, k: nat, r: nat, m: nat)
    requires 0 <= r < m && a == k * m + r
    ensures a / m == k && a % m == r
  {
    var k', r' := a / m, a % m;
    assert (k - k') * m == r' - r;
    if k > k' {
      MulGe(k - k', m);
    } else if k < k' {
      MulGe(k' - k, m);
    }
  }

  lemma MulMono(a: nat, b: nat, c: nat)
    requires a <= b
    ensures a * c <= b * c && b * c == a * c + (b - a) * c
  {
    assert (b - a) * c >= 0;
  }

  lemma MulGe(x: int, m: nat)
    requires x >= 1
    ensures x * m >= m
  {
    assert x * m == (x - 1) * m + m;
  }

  // One more bit of a remainder: a residue class splits into its two extensions.
  lemma Children(x: nat, i: nat)
    ensures x % Pow2(i + 1) == x % Pow2(i) + (if Bit(x, i) then Pow2(i) else 0)
  {
    hide Bit, Pow2;
    Pow2Step(i);
    BitDivision(x, i);
    DivMod(x, Pow2(i));
    ChildResidue(x, Pow2(i), x / Pow2(i), x % Pow2(i));
  }

  lemma Pow2Step(i: nat)
    ensures Pow2(i + 1) == 2 * Pow2(i)
  {
  }

  lemma DivMod(x: nat, p: nat)
    requires p > 0
    ensures x == x / p * p + x % p && 0 <= x / p && x % p < p
  {
  }

  lemma ChildResidue(x: nat, p: nat, q: nat, r: nat)
    requires r < p && x == q * p + r
    ensures x % (2 * p) == r + if q % 2 == 1 then p else 0
  {
    var h := q / 2;
    if q % 2 == 1 {
      assert (2 * h + 1) * p == h * (2 * p) + p;
      DivUnique(x, h, p + r, 2 * p);
    } else {
      assert (2 * h) * p == h * (2 * p);
      DivUnique(x, h, r, 2 * p);
    }
  }

  // A remainder keeps the bits below it.
  lemma {:induction false} BitOfRemainder(x: nat, m: nat, i: nat)
    requires i < m
    ensures Bit(x, i) == Bit(x % Pow2(m), i)
    decreases m
  {
    hide Pow2;
    Pow2Step(m - 1);
    DivMod(x, Pow2(m));
    HalfRemainder(x, x / Pow2(m), x % Pow2(m), Pow2(m - 1));
    if i > 0 { BitOfRemainder(x / 2, m - 1, i - 1); }
  }

  // Halving a number halves its remainder.
  lemma HalfRemainder(x: nat, k: nat, y: nat, h: nat)
    requires h > 0 && x == k * (2 * h) + y && y < 2 * h
    ensures x % 2 == y % 2 && x / 2 % h == y / 2
  {
    DoubleProduct(k, h);
    assert x / 2 == k * h + y / 2;
    DivUnique(x / 2, k, y / 2, h);
  }

  lemma DoubleProduct(k: int, h: nat)
    ensures k * (2 * h) == 2 * (k * h)
  {
  }
}
