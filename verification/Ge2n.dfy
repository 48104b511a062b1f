// GE2n<N>: elements of the integers modulo 2^N kept in an unmasked 128-bit store.
module Ge2n {
  import opened ModArith
  import opened Bits
  import opened Blocks

  // The number in a store, as an integer that may be negated.
  function Int(a: Block): int { a }

  // The store holds more bits than the element has.
  lemma StoreCong(a: int, n: nat)
    requires n <= 128
    ensures Cong(a % SIZE, a, Pow2(n))
  {
    SizeIsPow2();
    Pow2Add(n, 128 - n);
    ReduceCong(a, Pow2(n), Pow2(128 - n), SIZE);
  }

  lemma ReduceCong(a: int, m: nat, k: nat, s: nat)
    requires m > 0 && k > 0 && s == m * k
    ensures Cong(a % s, a, m)
  {
    var q := a / s;
    assert a == q * s + a % s;
    assert q * s == (q * k) * m;
    assert a % s - a == (-(q * k)) * m;
    CongIntro(a % s, a, -(q * k), m);
  }

  // GetVal.
  function Val(s: Block, n: nat): (r: Block)
    requires n <= 128
    ensures r < Pow2(n) && Cong(r, s, Pow2(n))
  {
    ModCong(s, Pow2(n));
    ValSmall(s, n);
    s % Pow2(n)
  }

  lemma ValSmall(s: Block, n: nat)
    requires n <= 128
    ensures s % Pow2(n) < SIZE
  {
    SizeIsPow2();
    Pow2Mono(n, 128);
  }

  // operator+, which wraps at 128 bits.
  function Add(a: Block, b: Block, n: nat): (r: Block)
    requires n <= 128
    ensures Cong(r, a + b, Pow2(n))
  {
    StoreCong(a + b, n);
    (a + b) % SIZE
  }

  // GetReverse: the mask minus the value plus one.
  function Reverse(a: Block, n: nat): (r: Block)
    requires n <= 128
    ensures Cong(r, -Int(a), Pow2(n))
  {
    ReverseCong(a, n);
    (Pow2(n) - 1 - Val(a, n) + 1) % SIZE
  }

  lemma ReverseCong(a: Block, n: nat)
    requires n <= 128
    ensures Cong((Pow2(n) - 1 - Val(a, n) + 1) % SIZE, -Int(a), Pow2(n))
  {
    hide Cong;
    var m, v := Pow2(n), Int(Val(a, n));
    StoreCong(m - v, n);
    CongIntro(m - v, -v, 1, m);
    NegCong(v, a, m);
    CongTrans(m - v, -v, -Int(a), m);
    CongTrans((m - v) % SIZE, m - v, -Int(a), m);
  }

  function Sign(b: bool): int {
    if b then -1 else 1
  }

  // Reversal on a flag negates on that flag.
  function ReverseIf(b: bool, a: Block, n: nat): (r: Block)
    requires n <= 128
    ensures Cong(r, Sign(b) * Int(a), Pow2(n))
  {
    if b then Reverse(a, n) else a
  }

  // Two shares with a correction word for the difference of what they mask.
  lemma LoseArith(x0: int, x1: int, l0: int, l1: int, cv: int, cw: int, t1: bool, v: int, b: int, m: nat)
    requires m > 0 && Cong(cv, cw, m)
    requires Cong(x0, Sign(false) * (l0 + (if !t1 then cv else 0)), m)
    requires Cong(x1, Sign(true) * (l1 + (if t1 then cv else 0)), m)
    requires Cong(cw, Sign(t1) * (l1 - l0 - v + b), m)
    ensures Cong(x0 + x1, b - v, m)
  {
    hide Cong;
    var s := Sign(t1);
    var e := l0 - l1 + s * cv;
    AddCong(x0, Sign(false) * (l0 + (if !t1 then cv else 0)), x1, Sign(true) * (l1 + (if t1 then cv else 0)), m);
    assert Cong(x0 + x1, e, m);
    var d := l1 - l0 - v + b;
    CongTrans(cv, cw, s * d, m);
    CongRefl(s, m);
    MulCong(s, s, cv, s * d, m);
    assert s * (s * d) == d;
    CongRefl(l0 - l1, m);
    AddCong(l0 - l1, l0 - l1, s * cv, d, m);
    CongTrans(x0 + x1, e, b - v, m);
  }

  // Equal values modulo 2^N are equal elements.
  lemma ValEq(a: Block, x: int, n: nat)
    requires n <= 128 && Cong(a, x, Pow2(n))
    ensures Val(a, n) == x % Pow2(n)
  {
  }

  // The top i of the m low bits of x, as a number.
  function TopBits(x: nat, m: nat, i: nat): (r: nat)
    requires i <= m
  {
    if i == 0 then 0 else 2 * TopBits(x, m, i - 1) + Num(Bit(x, m - i))
  }

  // All m of them are x modulo 2^m.
  lemma {:induction false} TopBitsAll(x: nat, m: nat)
    ensures TopBits(x, m, m) == x % Pow2(m)
  {
    TopBitsPart(x, m, m);
    assert Pow2(0) == 1;
  }

  lemma {:induction false} TopBitsPart(x: nat, m: nat, i: nat)
    requires i <= m
    ensures TopBits(x, m, i) == x % Pow2(m) / Pow2(m - i)
    decreases i
  {
    var y := x % Pow2(m);
    if i == 0 {
      DivUnique(y, 0, y, Pow2(m));
    } else {
      TopBitsPart(x, m, i - 1);
      var q := Pow2(m - i);
      assert Pow2(m - (i - 1)) == 2 * q;
      BitOfRemainder(x, m, m - i);
      BitDivision(y, m - i);
      HalfStep(y, q);
    }
  }

  lemma HalfStep(y: nat, q: nat)
    requires q > 0
    ensures y / q == 2 * (y / (2 * q)) + y / q % 2
  {
    var k, r := y / q, y % q;
    assert y == k * q + r;
    assert k == 2 * (k / 2) + k % 2;
    assert (2 * (k / 2) + k % 2) * q == (k / 2) * (2 * q) + (k % 2) * q;
    assert (k % 2) * q + r < 2 * q by { if k % 2 == 1 { assert (k % 2) * q == q; } else { assert (k % 2) * q == 0; } }
    DivUnique(y, k / 2, (k % 2) * q + r, 2 * q);
  }
}
