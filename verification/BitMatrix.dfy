// Transposes of a 128 x 128 bit matrix: the naive one as the specification, and
// the masked swaps of Eklundh and the SSE sub-squares against it.
module BitMatrix {
  import opened Bits
  import opened Blocks

  // ---- Shifts -------------------------------------------------------------

  function Shl(x: Block, w: nat): (r: Block)
    ensures forall i :: 0 <= i < 128 ==> Bit(r, i) == (i >= w && Bit(x, i - w))
  {
    SizeIsPow2();
    forall i | 0 <= i < 128
      ensures Bit(x * Pow2(w) % SIZE, i) == (i >= w && Bit(x, i - w))
    {
      BitOfRemainder(x * Pow2(w), 128, i);
      BitOfProduct(x, w, i);
    }
    x * Pow2(w) % SIZE
  }

  function Shr(x: Block, w: nat): (r: Block)
    ensures forall i :: 0 <= i < 128 ==> Bit(r, i) == Bit(x, i + w)
  {
    QuotientSmall(x, Pow2(w));
    forall i | 0 <= i < 128
      ensures Bit(x / Pow2(w), i) == Bit(x, i + w)
    {
      BitOfQuotient(x, x / Pow2(w), w, i);
    }
    x / Pow2(w)
  }

  lemma QuotientSmall(x: nat, p: nat)
    requires p > 0
    ensures 0 <= x / p <= x
  {
    DivMod(x, p);
    MulMono(1, p, x / p);
  }

  lemma {:induction false} BitOfProduct(x: nat, w: nat, i: nat)
    ensures Bit(x * Pow2(w), i) == (i >= w && Bit(x, i - w))
    decreases w
  {
    if w > 0 {
      var y := x * Pow2(w - 1);
      assert x * (2 * Pow2(w - 1)) == 2 * y;
      if i > 0 { BitOfProduct(x, w - 1, i - 1); }
    }
  }

  lemma {:induction false} BitOfQuotient(x: nat, q: nat, w: nat, i: nat)
    requires q == x / Pow2(w)
    ensures Bit(q, i) == Bit(x, i + w)
    decreases w
  {
    if w > 0 {
      DivDiv(x, Pow2(w - 1));
      BitOfQuotient(x / 2, q, w - 1, i);
    }
  }

  // ---- The specification --------------------------------------------------

  ghost predicate Square(m: seq<Block>) {
    |m| == 128
  }

  function Transpose(m: seq<Block>): (r: seq<Block>)
    requires Square(m)
    ensures Square(r)
    ensures forall i, j :: 0 <= i < 128 && 0 <= j < 128 ==> Bit(r[i], j) == Bit(m[j], i)
  {
    seq(128, i requires 0 <= i < 128 => MakeBlock((j: nat) => j < |m| && Bit(m[j], i)))
  }

  lemma RowsEq(m: seq<Block>, r: seq<Block>)
    requires Square(m) && Square(r)
    requires forall i, j :: 0 <= i < 128 && 0 <= j < 128 ==> Bit(m[i], j) == Bit(r[i], j)
    ensures m == r
  {
    forall i | 0 <= i < 128 ensures m[i] == r[i] { BlockEq(m[i], r[i]); }
  }

  lemma TransposeTwice(m: seq<Block>)
    requires Square(m)
    ensures Transpose(Transpose(m)) == m
  {
    hide Transpose, Bit;
    var t := Transpose(m);
    var u := Transpose(t);
    forall i, j | 0 <= i < 128 && 0 <= j < 128 ensures Bit(u[i], j) == Bit(m[i], j) {
      assert Bit(u[i], j) == Bit(t[j], i);
    }
    RowsEq(u, m);
  }

  // GetBit(x, i) << j.
  function BitAt(x: Block, i: nat, j: nat): (r: Block)
    ensures forall k :: 0 <= k < 128 ==> Bit(r, k) == (k == j && Bit(x, i))
  {
    MakeBlock((k: nat) => k == j && Bit(x, i))
  }

  method NaiveTranspose(inout: array<Block>)
    requires inout.Length == 128
    modifies inout
    ensures inout[..] == Transpose(old(inout[..]))
  {
    hide Bit, Transpose, Or, BitAt;
    var inp := inout[..];
    for i := 0 to 128
      invariant inout[..i] == Transpose(inp)[..i]
    {
      var t: Block := 0;
      forall k: nat ensures !Bit(0, k) { BitZero(k); }
      for j := 0 to 128
        invariant inout[..i] == Transpose(inp)[..i]
        invariant forall k :: 0 <= k < 128 ==> Bit(t, k) == (k < j && Bit(inp[k], i))
      {
        t := Or(t, BitAt(inp[j], i, j));
      }
      inout[i] := t;
      BlockEq(t, Transpose(inp)[i]);
      assert inout[..i + 1] == inout[..i] + [t];
    }
  }

  // ---- Eklundh ------------------------------------------------------------

  // trans_mask and trans_mask_inv.
  const MASK: seq<Block> := [
    0x0000000000000000_ffffffffffffffff,
    0x00000000ffffffff_00000000ffffffff,
    0x0000ffff0000ffff_0000ffff0000ffff,
    0x00ff00ff00ff00ff_00ff00ff00ff00ff,
    0x0f0f0f0f0f0f0f0f_0f0f0f0f0f0f0f0f,
    0x3333333333333333_3333333333333333,
    0x5555555555555555_5555555555555555]

  const MASK_INV: seq<Block> := [
    0xffffffffffffffff_0000000000000000,
    0xffffffff00000000_ffffffff00000000,
    0xffff0000ffff0000_ffff0000ffff0000,
    0xff00ff00ff00ff00_ff00ff00ff00ff00,
    0xf0f0f0f0f0f0f0f0_f0f0f0f0f0f0f0f0,
    0xcccccccccccccccc_cccccccccccccccc,
    0xaaaaaaaaaaaaaaaa_aaaaaaaaaaaaaaaa]

  // n stretches of w ones, each followed by w zeros.
  function Stripes(w: nat, n: nat): nat {
    if n == 0 then 0 else Pow2(w) - 1 + Pow2(2 * w) * Stripes(w, n - 1)
  }

  lemma {:induction false} StripesValue(w: nat, n: nat)
    ensures Stripes(w, n) * (Pow2(w) + 1) == Pow2(2 * w * n) - 1
  {
    if n == 0 {
      assert 2 * w * 0 == 0;
    } else {
      StripesValue(w, n - 1);
      assert 2 * w * n == 2 * w + 2 * w * (n - 1);
      Pow2Add(2 * w, 2 * w * (n - 1));
      Pow2Add(w, w);
      StripesStep(Pow2(w), Pow2(2 * w), Stripes(w, n - 1), Pow2(2 * w * (n - 1)));
    }
  }

  lemma StripesStep(p: nat, q: nat, s: nat, t: nat)
    requires q == p * p && p >= 1 && s * (p + 1) == t - 1
    ensures (p - 1 + q * s) * (p + 1) == q * t - 1
  {
    assert (p - 1 + q * s) * (p + 1) == (p - 1) * (p + 1) + q * s * (p + 1);
    assert q * s * (p + 1) == q * (s * (p + 1)) == q * (t - 1);
    assert (p - 1) * (p + 1) == p * p - 1;
  }

  lemma {:induction false} StripesBit(w: nat, n: nat, i: nat)
    requires w > 0 && i < 2 * w * n
    ensures Bit(Stripes(w, n), i) == (i / w % 2 == 0)
    decreases n
  {
    hide Bit, Pow2;
    if n == 0 {
      assert false;
    } else {
      Pow2Mono(w, 2 * w);
      OneStripe(w, i, Stripes(w, n - 1));
      if i >= 2 * w {
        assert 2 * w * n == 2 * w * (n - 1) + 2 * w;
        StripesBit(w, n - 1, i - 2 * w);
      }
    }
  }

  lemma OneStripe(w: nat, i: nat, s: nat)
    requires w > 0 && Pow2(w) - 1 < Pow2(2 * w)
    ensures i < 2 * w ==> Bit(Pow2(w) - 1 + Pow2(2 * w) * s, i) == (i / w % 2 == 0)
    ensures i >= 2 * w ==> Bit(Pow2(w) - 1 + Pow2(2 * w) * s, i) == Bit(s, i - 2 * w)
    ensures i >= 2 * w ==> i / w % 2 == (i - 2 * w) / w % 2
  {
    hide Bit, Pow2;
    BitOfSum(Pow2(w) - 1, s, 2 * w, i);
    if i < w {
      LowOnes(w, i);
      DivUnique(i, 0, i, w);
    } else if i < 2 * w {
      LowOnes(w, i);
      DivUnique(i, 1, i - w, w);
    } else {
      QuotientShift(i, w, (i - 2 * w) / w, (i - 2 * w) % w);
    }
  }

  lemma QuotientShift(i: nat, w: nat, q: nat, r: nat)
    requires w > 0 && r < w && i - 2 * w == q * w + r
    ensures i / w == q + 2
  {
    assert (q + 2) * w == q * w + 2 * w;
    DivUnique(i, q + 2, r, w);
  }

  // Bits of a + 2^k * b.
  lemma {:induction false} BitOfSum(a: nat, b: nat, k: nat, i: nat)
    requires a < Pow2(k)
    ensures Bit(a + Pow2(k) * b, i) == if i < k then Bit(a, i) else Bit(b, i - k)
    decreases k
  {
    if k > 0 {
      var p := Pow2(k - 1);
      assert a + 2 * p * b == a + 2 * (p * b);
      assert (a + 2 * (p * b)) / 2 == a / 2 + p * b;
      if i > 0 { BitOfSum(a / 2, b, k - 1, i - 1); }
    }
  }

  lemma {:induction false} LowOnes(w: nat, i: nat)
    ensures Bit(Pow2(w) - 1, i) == (i < w)
    decreases w
  {
    if w == 0 {
      BitZero(i);
    } else {
      assert (Pow2(w) - 1) / 2 == Pow2(w - 1) - 1;
      if i > 0 { LowOnes(w - 1, i - 1); }
    }
  }

  // The mask of stage i keeps the columns whose bit 6 - i is clear.
  lemma MaskBit(i: nat, w: nat, c: nat)
    requires i < 7 && w == Pow2(6 - i) && c < 128
    ensures Bit(MASK[i], c) == (c / w % 2 == 0) && Bit(MASK_INV[i], c) == (c / w % 2 == 1)
  {
    var n := Pow2(i);
    Pow2Add(6 - i, i);
    assert Pow2(6) == 64;
    assert 2 * w * n == 128;
    StripesBit(w, n, c);
    StripesValue(w, n);
    SizeIsPow2();
    MaskIsStripes(i, w, Stripes(w, n));
    Complement(MASK[i], c);
  }

  lemma MaskIsStripes(i: nat, w: nat, s: nat)
    requires i < 7 && w == Pow2(6 - i) && s * (Pow2(w) + 1) == SIZE - 1
    ensures s == MASK[i] && MASK_INV[i] == SIZE - 1 - MASK[i]
  {
    Widths(i);
    assert MASK[i] * (Pow2(w) + 1) == SIZE - 1;
    CancelFactor(s, MASK[i], Pow2(w) + 1);
  }

  lemma CancelFactor(a: nat, b: nat, m: nat)
    requires m > 0 && a * m == b * m
    ensures a == b
  {
  }

  lemma Widths(i: nat)
    requires i < 7
    ensures Pow2(6 - i) == [64, 32, 16, 8, 4, 2, 1][i]
    ensures Pow2(Pow2(6 - i)) == [0x1_0000_0000_0000_0000, 0x1_0000_0000, 0x1_0000, 0x100, 0x10, 4, 2][i]
  {
    Pow2Of64();
    Pow2Of32();
    assert Pow2(8) == 0x100;
    Pow2Add(8, 8);
  }

  lemma {:induction false} Complement(x: Block, i: nat)
    requires i < 128
    ensures Bit(SIZE - 1 - x, i) == !Bit(x, i)
  {
    SizeIsPow2();
    ComplementBelow(x, 128, i);
  }

  lemma {:induction false} ComplementBelow(x: nat, n: nat, i: nat)
    requires i < n && x < Pow2(n)
    ensures Bit(Pow2(n) - 1 - x, i) == !Bit(x, i)
    decreases n
  {
    var p := Pow2(n - 1);
    assert (2 * p - 1 - x) / 2 == p - 1 - x / 2 && (2 * p - 1 - x) % 2 == 1 - x % 2;
    if i > 0 { ComplementBelow(x / 2, n - 1, i - 1); }
  }

  // The two rows a masked swap writes.
  function SwapLow(t: Block, tt: Block, i: nat, w: nat): Block
    requires i < 7
  {
    Xor(And(t, MASK[i]), Shl(And(tt, MASK[i]), w))
  }

  function SwapHigh(t: Block, tt: Block, i: nat, w: nat): Block
    requires i < 7
  {
    Xor(And(tt, MASK_INV[i]), Shr(And(t, MASK_INV[i]), w))
  }

  lemma SwapBits(t: Block, tt: Block, i: nat, w: nat, c: nat)
    requires i < 7 && w == Pow2(6 - i) && c < 128
    ensures c / w % 2 == 0 ==> c + w < 128
    ensures c / w % 2 == 1 ==> c >= w
    ensures Bit(SwapLow(t, tt, i, w), c) == if c / w % 2 == 0 then Bit(t, c) else Bit(tt, c - w)
    ensures Bit(SwapHigh(t, tt, i, w), c) == if c / w % 2 == 0 then Bit(t, c + w) else Bit(tt, c)
  {
    hide Bit, And, Xor, Shl, Shr, Pow2;
    Neighbours(c, w, i);
    MaskBit(i, w, c);
    if c >= w { MaskBit(i, w, c - w); }
    if c + w < 128 { MaskBit(i, w, c + w); } else { NoBit(And(t, MASK_INV[i]), c + w); }
  }

  lemma NoBit(x: Block, i: nat)
    requires i >= 128
    ensures !Bit(x, i)
  {
    SizeIsPow2();
    BitAbove(x, 128, i);
  }

  // The columns w to the left and to the right of c lie in stripes of the other
  // kind.
  lemma Neighbours(c: nat, w: nat, i: nat)
    requires i < 7 && w == Pow2(6 - i) && c < 128
    ensures c / w % 2 == 1 ==> c >= w
    ensures c >= w ==> (c - w) / w % 2 == 1 - c / w % 2
    ensures (c + w) / w % 2 == 1 - c / w % 2
    ensures c / w % 2 == 0 ==> c + w < 128
  {
    hide Pow2;
    Pow2Add(6 - i, i);
    Pow2Of6();
    DivMod(c, w);
    NextStripe(c, w, c / w, c % w, Pow2(i));
    StripeParity(c / w, (c - w) / w, (c + w) / w, c >= w);
  }

  lemma StripeParity(q: int, before: int, after: int, inside: bool)
    requires after == q + 1 && (inside ==> before == q - 1)
    ensures inside ==> before % 2 == 1 - q % 2
    ensures after % 2 == 1 - q % 2
  {
  }

  lemma Pow2Of6()
    ensures Pow2(6) == 64
  {
  }

  lemma NextStripe(c: nat, w: nat, q: int, r: nat, n: nat)
    requires w > 0 && r < w && c == q * w + r && w * n == 64 && c < 128
    ensures q >= 0 && (c + w) / w == q + 1
    ensures q >= 1 ==> c >= w
    ensures c >= w ==> q >= 1 && (c - w) / w == q - 1
    ensures q % 2 == 0 ==> c + w < 128
  {
    if q < 0 { MulGe(-q, w); assert false; }
    Shifted(q, 1, w);
    DivUnique(c + w, q + 1, r, w);
    PreviousStripe(c, w, q, r);
    if q % 2 == 0 { StripeFits(c, w, q, r, n); }
  }

  lemma PreviousStripe(c: nat, w: nat, q: nat, r: nat)
    requires w > 0 && r < w && c == q * w + r
    ensures q >= 1 ==> c >= w
    ensures c >= w ==> q >= 1 && (c - w) / w == q - 1
  {
    if q >= 1 {
      Shifted(q - 1, 1, w);
      Shifted(0, q - 1, w);
      DivUnique(c - w, q - 1, r, w);
    }
  }

  lemma Shifted(q: int, d: int, w: nat)
    ensures (q + d) * w == q * w + d * w && (d >= 0 ==> d * w >= 0)
  {
  }

  lemma StripeFits(c: nat, w: nat, q: nat, r: nat, n: nat)
    requires r < w && c == q * w + r && w * n == 64 && c < 128 && q % 2 == 0
    ensures c + w < 128
  {
    Shifted(0, n, w);
    Shifted(n, n, w);
    if q >= 2 * n {
      MulMono(2 * n, q, w);
      assert false;
    }
    MulMono(q + 2, 2 * n, w);
    Shifted(q, 2, w);
  }

  // Entry (r, c) after the stage that exchanges the bits of weight w of row and
  // column number.
  ghost predicate Exchanged(m: seq<Block>, r: nat, c: nat, w: nat)
    requires Square(m) && w > 0 && r < 128 && c < 128
  {
    var p, q := r / w % 2, c / w % 2;
    if p == q then Bit(m[r], c)
    else if p == 0 then r + w < 128 && c >= w && Bit(m[r + w], c - w)
    else r >= w && Bit(m[r - w], c + w)
  }

  ghost predicate RowDone(x: Block, m: seq<Block>, r: nat, w: nat)
    requires Square(m) && w > 0 && r < 128
  {
    forall c :: 0 <= c < 128 ==> Bit(x, c) == Exchanged(m, r, c, w)
  }

  lemma LowDone(m: seq<Block>, r: nat, i: nat, w: nat)
    requires Square(m) && i < 7 && w == Pow2(6 - i) && r + w < 128 && r / w % 2 == 0
    ensures RowDone(SwapLow(m[r], m[r + w], i, w), m, r, w)
  {
    hide Bit, SwapLow, SwapHigh, Pow2;
    var x := SwapLow(m[r], m[r + w], i, w);
    forall c | 0 <= c < 128 ensures Bit(x, c) == Exchanged(m, r, c, w) {
      SwapBits(m[r], m[r + w], i, w, c);
      Parity(c, w);
    }
  }

  lemma HighDone(m: seq<Block>, r: nat, i: nat, w: nat)
    requires Square(m) && i < 7 && w == Pow2(6 - i) && w <= r < 128 && r / w % 2 == 1
    ensures RowDone(SwapHigh(m[r - w], m[r], i, w), m, r, w)
  {
    hide Bit, SwapLow, SwapHigh, Pow2;
    var x := SwapHigh(m[r - w], m[r], i, w);
    forall c | 0 <= c < 128 ensures Bit(x, c) == Exchanged(m, r, c, w) {
      SwapBits(m[r - w], m[r], i, w, c);
      Parity(c, w);
    }
  }

  // The rows of the stage that are finished: those of the pairs before base, and
  // the first k pairs from base on.
  predicate Finished(r: nat, base: nat, w: nat, k: nat) {
    r < base || (base <= r < base + w && r - base < k) || (base + w <= r < base + 2 * w && r - base - w < k)
  }

  // One stage.
  method EklundhStage(inout: array<Block>, i: nat, w: nat, nswaps: nat)
    requires inout.Length == 128 && i < 7 && w == Pow2(6 - i) && 2 * w * nswaps == 128
    modifies inout
    ensures forall r :: 0 <= r < 128 ==> RowDone(inout[r], old(inout[..]), r, w)
  {
    hide Pow2, RowDone, SwapLow, SwapHigh;
    ghost var m := inout[..];
    var base := 0;
    for j := 0 to nswaps
      invariant base == 2 * w * j
      invariant forall r :: 0 <= r < 128 ==> if r < base then RowDone(inout[r], m, r, w) else inout[r] == m[r]
    {
      PairBlock(w, j, nswaps);
      for k := 0 to w
        invariant forall r :: 0 <= r < 128 ==> if Finished(r, base, w, k) then RowDone(inout[r], m, r, w) else inout[r] == m[r]
      {
        var i1, i2 := base + k, base + k + w;
        PairRow(w, j, k);
        Neighbours(i1, w, i);
        LowDone(m, i1, i, w);
        HighDone(m, i2, i, w);
        assert !Finished(i1, base, w, k) && !Finished(i2, base, w, k);
        var t, tt := inout[i1], inout[i2];
        inout[i1] := SwapLow(t, tt, i, w);
        inout[i2] := SwapHigh(t, tt, i, w);
      }
      base := base + 2 * w;
    }
  }

  lemma PairBlock(w: nat, j: nat, nswaps: nat)
    requires j < nswaps && 2 * w * nswaps == 128
    ensures 2 * w * (j + 1) == 2 * w * j + 2 * w <= 128
  {
    MulMono(j + 1, nswaps, 2 * w);
  }

  lemma PairRow(w: nat, j: nat, k: nat)
    requires k < w
    ensures (2 * w * j + k) / w % 2 == 0
  {
    assert 2 * w * j == (2 * j) * w;
    DivUnique(2 * w * j + k, 2 * j, k, w);
  }

  // The row number r with the bits of weight W and above taken from c.
  function Mix(r: nat, c: nat, W: nat): int
    requires W > 0
  {
    c / W * W + r % W
  }

  lemma MixIs(r: nat, c: nat, W: nat, a: nat, u: nat, b: nat, v: nat)
    requires W > 0 && u < W && v < W && r == a * W + u && c == b * W + v
    ensures Mix(r, c, W) == b * W + u
  {
    DivUnique(r, a, u, W);
    DivUnique(c, b, v, W);
  }

  // Exchanging the bits of weight w lowers the boundary from 2w to w.
  lemma MixStep(r: nat, c: nat, w: nat)
    requires w > 0
    ensures r / w % 2 == c / w % 2 ==> Mix(r, c, 2 * w) == Mix(r, c, w)
    ensures r / w % 2 == 0 && c / w % 2 == 1 ==> c >= w && Mix(r + w, c - w, 2 * w) == Mix(r, c, w)
    ensures r / w % 2 == 1 && c / w % 2 == 0 ==> r >= w && Mix(r - w, c + w, 2 * w) == Mix(r, c, w)
  {
    MixParts(r, c, w, r / w / 2, r / w % 2, r % w, c / w / 2, c / w % 2, c % w) by {
      DivMod(r, w);
      DivMod(c, w);
    }
  }

  lemma MixParts(r: nat, c: nat, w: nat, a: nat, p: nat, s: nat, b: nat, q: nat, t: nat)
    requires w > 0 && p < 2 && q < 2 && s < w && t < w
    requires r == (2 * a + p) * w + s && c == (2 * b + q) * w + t
    ensures p == q ==> Mix(r, c, 2 * w) == Mix(r, c, w)
    ensures p == 0 && q == 1 ==> c >= w && Mix(r + w, c - w, 2 * w) == Mix(r, c, w)
    ensures p == 1 && q == 0 ==> r >= w && Mix(r - w, c + w, 2 * w) == Mix(r, c, w)
  {
    hide Mix;
    MixIs(r, c, w, 2 * a + p, s, 2 * b + q, t);
    Halves(a, p, w);
    Halves(b, q, w);
    if p == q {
      MixIs(r, c, 2 * w, a, if p == 1 then w + s else s, b, if q == 1 then w + t else t);
    } else if p == 0 {
      MixIs(r + w, c - w, 2 * w, a, w + s, b, t);
    } else {
      MixIs(r - w, c + w, 2 * w, a, s, b, w + t);
    }
  }

  lemma Halves(a: nat, p: nat, w: nat)
    requires p < 2
    ensures (2 * a + p) * w == a * (2 * w) + (if p == 1 then w else 0) && a * (2 * w) >= 0
  {
    assert p == 1 ==> p * w == w;
  }

  // The invariant between stages: row and column numbers have exchanged their
  // bits of weight W and above.
  ghost predicate Mixed(m: seq<Block>, orig: seq<Block>, W: nat)
    requires Square(m) && Square(orig) && W > 0
  {
    forall r, c :: 0 <= r < 128 && 0 <= c < 128 ==> MixedAt(m, orig, W, r, c)
  }

  ghost predicate MixedAt(m: seq<Block>, orig: seq<Block>, W: nat, r: nat, c: nat)
    requires Square(m) && Square(orig) && W > 0 && r < 128 && c < 128
  {
    0 <= Mix(r, c, W) < 128 && 0 <= Mix(c, r, W) && Bit(m[r], c) == Bit(orig[Mix(r, c, W)], Mix(c, r, W))
  }

  lemma StageKeeps(m: seq<Block>, now: seq<Block>, orig: seq<Block>, i: nat, w: nat)
    requires Square(m) && Square(now) && Square(orig) && i < 7 && w == Pow2(6 - i)
    requires Mixed(m, orig, 2 * w) && forall r :: 0 <= r < 128 ==> RowDone(now[r], m, r, w)
    ensures Mixed(now, orig, w)
  {
    hide Bit, Mix, Pow2;
    forall r, c | 0 <= r < 128 && 0 <= c < 128 ensures MixedAt(now, orig, w, r, c) {
      assert RowDone(now[r], m, r, w);
      assert Bit(now[r], c) == Exchanged(m, r, c, w);
      MixStep(r, c, w);
      MixStep(c, r, w);
      Neighbours(r, w, i);
      Neighbours(c, w, i);
      Parity(r, w);
      Parity(c, w);
      if r / w % 2 == c / w % 2 {
        assert MixedAt(m, orig, 2 * w, r, c);
      } else if r / w % 2 == 0 {
        assert MixedAt(m, orig, 2 * w, r + w, c - w);
      } else {
        assert MixedAt(m, orig, 2 * w, r - w, c + w);
      }
    }
  }

  lemma Parity(r: nat, w: nat)
    requires w > 0
    ensures r / w % 2 == 0 || r / w % 2 == 1
  {
  }

  lemma MixedStart(m: seq<Block>)
    requires Square(m)
    ensures Mixed(m, m, 128)
  {
    hide Bit;
    forall r, c | 0 <= r < 128 && 0 <= c < 128 ensures MixedAt(m, m, 128, r, c) {
      MixIs(r, c, 128, 0, r, 0, c);
      MixIs(c, r, 128, 0, c, 0, r);
    }
  }

  lemma MixedEnd(m: seq<Block>, orig: seq<Block>)
    requires Square(m) && Square(orig) && Mixed(m, orig, 1)
    ensures m == Transpose(orig)
  {
    hide Bit, Transpose;
    forall r, c | 0 <= r < 128 && 0 <= c < 128 ensures Bit(m[r], c) == Bit(Transpose(orig)[r], c) {
      assert MixedAt(m, orig, 1, r, c);
      MixIs(r, c, 1, r, 0, c, 0);
      MixIs(c, r, 1, c, 0, r, 0);
    }
    RowsEq(m, Transpose(orig));
  }

  // EklundhTranspose128.
  method EklundhTranspose(inout: array<Block>)
    requires inout.Length == 128
    modifies inout
    ensures inout[..] == Transpose(old(inout[..]))
  {
    hide Pow2, Mixed, RowDone, Transpose;
    var width, nswaps := 64, 1;
    MixedStart(inout[..]);
    for i := 0 to 7
      invariant width == [64, 32, 16, 8, 4, 2, 1, 0][i] && nswaps == [1, 2, 4, 8, 16, 32, 64, 128][i]
      invariant Mixed(inout[..], old(inout[..]), if i < 7 then 2 * width else 1)
    {
      Widths(i);
      ghost var m := inout[..];
      EklundhStage(inout, i, width, nswaps);
      StageKeeps(m, inout[..], old(inout[..]), i, width);
      nswaps := nswaps * 2;
      width := width / 2;
    }
    MixedEnd(inout[..], old(inout[..]));
  }

  // ---- SSE ----------------------------------------------------------------

  // Byte l of v becomes byte b of x.
  function SetByte(v: Block, l: nat, x: Block, b: nat): (r: Block)
    ensures forall i :: 0 <= i < 128 ==> Bit(r, i) == if i / 8 == l then Bit(x, 8 * b + i % 8) else Bit(v, i)
  {
    MakeBlock((i: nat) => if i / 8 == l then Bit(x, 8 * b + i % 8) else Bit(v, i))
  }

  // The top bits of the 16 bytes.
  function MoveMask(x: Block): (r: Block)
    ensures forall l :: 0 <= l < 16 ==> Bit(r, l) == Bit(x, 8 * l + 7)
  {
    MakeBlock((l: nat) => l < 16 && Bit(x, 8 * l + 7))
  }

  // Halfword y of v becomes the mask.
  function SetU16(v: Block, y: nat, mask: Block): (r: Block)
    ensures forall i :: 0 <= i < 128 ==> Bit(r, i) == if i / 16 == y then Bit(mask, i % 16) else Bit(v, i)
  {
    MakeBlock((i: nat) => if i / 16 == y then Bit(mask, i % 16) else Bit(v, i))
  }

  // A shift by one in each 64-bit lane.
  function LaneShl(x: Block): (r: Block)
    ensures forall i :: 0 <= i < 128 ==> Bit(r, i) == (i % 64 != 0 && Bit(x, i - 1))
  {
    MakeBlock((i: nat) => i % 64 != 0 && Bit(x, i - 1))
  }

  // sse_loadSubSquare: the bits of columns 16y.. and 16y + 8.. of 16 rows.
  method LoadSubSquare(mtx: array<Block>, x: nat, y: nat) returns (a0: Block, a1: Block)
    requires mtx.Length == 128 && x < 8 && y < 8
    ensures forall i :: 0 <= i < 128 ==>
      Bit(a0, i) == Bit(mtx[16 * x + i / 8], 16 * y + i % 8) && Bit(a1, i) == Bit(mtx[16 * x + i / 8], 16 * y + 8 + i % 8)
  {
    hide Bit, SetByte;
    a0, a1 := 0, 0;
    for l := 0 to 16
      invariant forall i :: 0 <= i < 8 * l ==>
        Bit(a0, i) == Bit(mtx[16 * x + i / 8], 16 * y + i % 8) && Bit(a1, i) == Bit(mtx[16 * x + i / 8], 16 * y + 8 + i % 8)
    {
      a0, a1 := SetByte(a0, l, mtx[16 * x + l], 2 * y), SetByte(a1, l, mtx[16 * x + l], 2 * y + 1);
    }
  }

  // What the transposed sub-square puts at column c of its row e.
  ghost predicate SubBit(a0: Block, a1: Block, e: nat, c: nat) {
    Bit(if e < 8 then a0 else a1, 8 * (c % 16) + e % 8)
  }

  // The bits of a row after its halfword y holds its part of the sub-square.
  ghost predicate RowSet(now: Block, was: Block, a0: Block, a1: Block, e: nat, y: nat) {
    forall c :: 0 <= c < 128 ==> Bit(now, c) == if c / 16 == y then SubBit(a0, a1, e, c) else Bit(was, c)
  }

  // The word shifted left j times within its bytes.
  ghost predicate ShiftedBy(now: Block, a: Block, j: nat) {
    forall i :: 0 <= i < 128 && i % 8 >= j ==> Bit(now, i) == Bit(a, i - j)
  }

  lemma ShiftOnce(now: Block, a: Block, j: nat)
    requires ShiftedBy(now, a, j) && j < 8
    ensures ShiftedBy(LaneShl(now), a, j + 1)
  {
    hide Bit, LaneShl;
  }

  lemma RowWritten(was: Block, in0: Block, a: Block, a0: Block, a1: Block, j: nat, e: nat, y: nat)
    requires ShiftedBy(in0, a, j) && j < 8 && e < 16 && e % 8 == 7 - j && a == if e < 8 then a0 else a1
    ensures RowSet(SetU16(was, y, MoveMask(in0)), was, a0, a1, e, y)
  {
    hide Bit, SetU16, MoveMask;
    var now := SetU16(was, y, MoveMask(in0));
    forall c | 0 <= c < 128 ensures Bit(now, c) == if c / 16 == y then SubBit(a0, a1, e, c) else Bit(was, c) {
      var l := c % 16;
      assert Bit(MoveMask(in0), l) == Bit(in0, 8 * l + 7);
      assert (8 * l + 7) % 8 == 7;
      assert Bit(in0, 8 * l + 7) == Bit(a, 8 * l + 7 - j);
    }
  }

  // sse_transposeSubSquare.
  method TransposeSubSquare(out: array<Block>, a0: Block, a1: Block, x: nat, y: nat)
    requires out.Length == 128 && x < 8 && y < 8
    modifies out
    ensures forall r :: 0 <= r < 128 ==>
      if r / 16 == x then RowSet(out[r], old(out[r]), a0, a1, r % 16, y) else out[r] == old(out[r])
  {
    hide Bit, RowSet, ShiftedBy, LaneShl, SetU16, MoveMask, Written;
    WrittenEnds(x);
    var in0, in1 := a0, a1;
    ghost var m := out[..];
    NotShifted(a0);
    NotShifted(a1);
    for j := 0 to 8
      invariant ShiftedBy(in0, a0, j) && ShiftedBy(in1, a1, j)
      invariant forall r :: 0 <= r < 128 ==>
        if Written(r, x, j) then RowSet(out[r], m[r], a0, a1, r % 16, y) else out[r] == m[r]
    {
      WrittenStep(x, j);
      var r0, r1 := 16 * x + 7 - j, 16 * x + 15 - j;
      RowWritten(m[r0], in0, a0, a0, a1, j, 7 - j, y);
      RowWritten(m[r1], in1, a1, a0, a1, j, 15 - j, y);
      out[r0] := SetU16(out[r0], y, MoveMask(in0));
      out[r1] := SetU16(out[r1], y, MoveMask(in1));
      ShiftOnce(in0, a0, j);
      ShiftOnce(in1, a1, j);
      in0, in1 := LaneShl(in0), LaneShl(in1);
    }
  }

  // The rows of the sub-square row x written in the first j rounds.
  predicate Written(r: nat, x: nat, j: nat) {
    r / 16 == x && r % 8 + j >= 8
  }

  lemma WrittenStep(x: nat, j: nat)
    requires j < 8
    ensures
      var r0, r1 := 16 * x + 7 - j, 16 * x + 15 - j;
      && !Written(r0, x, j) && !Written(r1, x, j) && r0 % 16 == 7 - j && r1 % 16 == 15 - j
      && forall r :: 0 <= r < 128 ==> Written(r, x, j + 1) == (Written(r, x, j) || r == r0 || r == r1)
  {
    var r0, r1 := 16 * x + 7 - j, 16 * x + 15 - j;
    forall r: nat ensures (r / 16 == x && r % 8 == 7 - j) == (r == r0 || r == r1) {
      RoundRows(r, x, 7 - j);
    }
    LowRow(x, 7 - j);
    LowRow(x, 15 - j);
  }

  lemma LowRow(x: nat, e: nat)
    requires e < 16
    ensures (16 * x + e) / 16 == x && (16 * x + e) % 16 == e
  {
  }

  lemma RoundRows(r: nat, x: nat, e: nat)
    requires e < 8
    ensures (r / 16 == x && r % 8 == e) == (r == 16 * x + e || r == 16 * x + 8 + e)
  {
    RowDigits(r);
    RoundRow(r, r / 16, r % 16, r % 8, x, e);
  }

  lemma RowDigits(r: nat)
    ensures r == 16 * (r / 16) + r % 16 && r % 8 == if r % 16 < 8 then r % 16 else r % 16 - 8
  {
  }

  lemma RoundRow(r: nat, q: nat, d: nat, m: nat, x: nat, e: nat)
    requires r == 16 * q + d && d < 16 && m == (if d < 8 then d else d - 8) && e < 8
    ensures (q == x && m == e) == (r == 16 * x + e || r == 16 * x + 8 + e)
  {
  }

  lemma WrittenEnds(x: nat)
    ensures forall r :: 0 <= r < 128 ==> !Written(r, x, 0) && Written(r, x, 8) == (r / 16 == x)
  {
  }

  lemma NotShifted(a: Block)
    ensures ShiftedBy(a, a, 0)
  {
  }

  // The sub-squares that hold their transposes: those with both numbers below j,
  // and those of number j paired with numbers below k.
  predicate Turned(x: nat, y: nat, j: nat, k: nat, diagonal: bool) {
    || (x < j && y < j)
    || (x == j && (y < k || (diagonal && y == j)))
    || (y == j && x < k)
  }

  ghost predicate Turning(m: seq<Block>, orig: seq<Block>, j: nat, k: nat, diagonal: bool)
    requires Square(m) && Square(orig)
  {
    forall r, c :: 0 <= r < 128 && 0 <= c < 128 ==> EntryTurned(m, orig, r, c, Turned(r / 16, c / 16, j, k, diagonal))
  }

  ghost predicate EntryTurned(m: seq<Block>, orig: seq<Block>, r: nat, c: nat, done: bool)
    requires Square(m) && Square(orig) && r < 128 && c < 128
  {
    Bit(m[r], c) == if done then Bit(orig[c], r) else Bit(orig[r], c)
  }

  // a0 and a1 hold the sub-square at rows 16x.. and columns 16y.. .
  ghost predicate Loaded(m: seq<Block>, x: nat, y: nat, a0: Block, a1: Block)
    requires Square(m) && x < 8 && y < 8
  {
    forall i :: 0 <= i < 128 ==>
      Bit(a0, i) == Bit(m[16 * x + i / 8], 16 * y + i % 8) && Bit(a1, i) == Bit(m[16 * x + i / 8], 16 * y + 8 + i % 8)
  }

  // Row r of the transposed sub-square holds column r of the loaded one.
  lemma SubBitLoaded(m: seq<Block>, x: nat, y: nat, a0: Block, a1: Block, r: nat, c: nat)
    requires Square(m) && x < 8 && y < 8 && Loaded(m, x, y, a0, a1)
    requires r < 128 && c < 128 && r / 16 == y && c / 16 == x
    ensures SubBit(a0, a1, r % 16, c) == Bit(m[c], r)
  {
    hide Bit;
    var i := SubIndex(x, y, r, c);
  }

  // The position in a loaded sub-square of row c and column r of the matrix.
  lemma SubIndex(x: nat, y: nat, r: nat, c: nat) returns (i: nat)
    requires r / 16 == y && c / 16 == x
    ensures i == 8 * (c % 16) + r % 8 == 8 * (c % 16) + r % 16 % 8 < 128 && 16 * x + i / 8 == c
    ensures r == if r % 16 < 8 then 16 * y + i % 8 else 16 * y + 8 + i % 8
  {
    i := 8 * (c % 16) + r % 8;
  }

  ghost predicate SubStored(now: seq<Block>, was: seq<Block>, x: nat, y: nat, a0: Block, a1: Block)
    requires Square(now) && Square(was)
  {
    forall r :: 0 <= r < 128 ==>
      if r / 16 == x then RowSet(now[r], was[r], a0, a1, r % 16, y) else now[r] == was[r]
  }

  lemma StoredAt(now: seq<Block>, was: seq<Block>, x: nat, y: nat, a0: Block, a1: Block, r: nat, c: nat)
    requires Square(now) && Square(was) && SubStored(now, was, x, y, a0, a1) && r < 128 && c < 128
    ensures Bit(now[r], c) == if r / 16 == x && c / 16 == y then SubBit(a0, a1, r % 16, c) else Bit(was[r], c)
  {
    hide Bit, SubBit;
  }

  lemma DiagonalTurned(m: seq<Block>, now: seq<Block>, orig: seq<Block>, j: nat, a0: Block, a1: Block)
    requires Square(m) && Square(now) && Square(orig) && j < 8
    requires Turning(m, orig, j, 0, false) && Loaded(m, j, j, a0, a1) && SubStored(now, m, j, j, a0, a1)
    ensures Turning(now, orig, j, 0, true)
  {
    hide Bit, SubBit, SubStored, Loaded;
    forall r, c | 0 <= r < 128 && 0 <= c < 128
      ensures EntryTurned(now, orig, r, c, Turned(r / 16, c / 16, j, 0, true))
    {
      StoredAt(now, m, j, j, a0, a1, r, c);
      assert EntryTurned(m, orig, r, c, Turned(r / 16, c / 16, j, 0, false));
      if r / 16 == j && c / 16 == j {
        SubBitLoaded(m, j, j, a0, a1, r, c);
        assert EntryTurned(m, orig, c, r, Turned(c / 16, r / 16, j, 0, false));
      }
    }
  }

  lemma PairTurned(m: seq<Block>, mid: seq<Block>, now: seq<Block>, orig: seq<Block>, j: nat, k: nat,
                   a0: Block, a1: Block, b0: Block, b1: Block)
    requires Square(m) && Square(mid) && Square(now) && Square(orig) && k < j < 8
    requires Turning(m, orig, j, k, true) && Loaded(m, k, j, a0, a1) && Loaded(m, j, k, b0, b1)
    requires SubStored(mid, m, j, k, a0, a1) && SubStored(now, mid, k, j, b0, b1)
    ensures Turning(now, orig, j, k + 1, true)
  {
    hide Bit, SubBit, SubStored, Loaded;
    forall r, c | 0 <= r < 128 && 0 <= c < 128
      ensures EntryTurned(now, orig, r, c, Turned(r / 16, c / 16, j, k + 1, true))
    {
      StoredAt(mid, m, j, k, a0, a1, r, c);
      StoredAt(now, mid, k, j, b0, b1, r, c);
      assert EntryTurned(m, orig, r, c, Turned(r / 16, c / 16, j, k, true));
      assert EntryTurned(m, orig, c, r, Turned(c / 16, r / 16, j, k, true));
      if r / 16 == j && c / 16 == k { SubBitLoaded(m, k, j, a0, a1, r, c); }
      if r / 16 == k && c / 16 == j { SubBitLoaded(m, j, k, b0, b1, r, c); }
    }
  }

  lemma NextNumber(m: seq<Block>, orig: seq<Block>, j: nat)
    requires Square(m) && Square(orig) && Turning(m, orig, j, j, true)
    ensures Turning(m, orig, j + 1, 0, false)
  {
    hide Bit;
    forall r, c | 0 <= r < 128 && 0 <= c < 128
      ensures EntryTurned(m, orig, r, c, Turned(r / 16, c / 16, j + 1, 0, false))
    {
      assert EntryTurned(m, orig, r, c, Turned(r / 16, c / 16, j, j, true));
    }
  }

  lemma AllTurned(m: seq<Block>, orig: seq<Block>)
    requires Square(m) && Square(orig) && Turning(m, orig, 8, 0, false)
    ensures m == Transpose(orig)
  {
    hide Bit, Transpose;
    forall r, c | 0 <= r < 128 && 0 <= c < 128 ensures Bit(m[r], c) == Bit(Transpose(orig)[r], c) {
      assert EntryTurned(m, orig, r, c, Turned(r / 16, c / 16, 8, 0, false));
    }
    RowsEq(m, Transpose(orig));
  }

  // SseTranspose128.
  method SseTranspose(inout: array<Block>)
    requires inout.Length == 128
    modifies inout
    ensures inout[..] == Transpose(old(inout[..]))
  {
    hide Bit, Transpose, Turning, RowSet;
    ghost var orig := inout[..];
    var mtx := new Block[128](i requires 0 <= i < 128 reads inout => inout[i]);
    assert mtx[..] == orig;
    NoneTurned(orig);
    for j := 0 to 8
      invariant Turning(mtx[..], orig, j, 0, false)
    {
      ghost var m := mtx[..];
      var a0, a1 := LoadSubSquare(mtx, j, j);
      TransposeSubSquare(mtx, a0, a1, j, j);
      DiagonalTurned(m, mtx[..], orig, j, a0, a1);
      for k := 0 to j
        invariant Turning(mtx[..], orig, j, k, true)
      {
        m := mtx[..];
        a0, a1 := LoadSubSquare(mtx, k, j);
        var b0, b1 := LoadSubSquare(mtx, j, k);
        TransposeSubSquare(mtx, a0, a1, j, k);
        ghost var mid := mtx[..];
        TransposeSubSquare(mtx, b0, b1, k, j);
        PairTurned(m, mid, mtx[..], orig, j, k, a0, a1, b0, b1);
      }
      NextNumber(mtx[..], orig, j);
    }
    AllTurned(mtx[..], orig);
    for i := 0 to 128
      invariant inout[..i] == mtx[..i] && mtx[..] == Transpose(orig)
    {
      inout[i] := mtx[i];
    }
  }

  lemma NoneTurned(m: seq<Block>)
    requires Square(m)
    ensures Turning(m, m, 0, 0, false)
  {
    hide Bit;
  }

  // Two matrices whose row k differs by r when bit k of s is set have transposes
  // whose row j differs by s when bit j of r is set.
  lemma TransposeCorrelated(q: seq<Block>, t: seq<Block>, r: Block, s: Block)
    requires Square(q) && Square(t) && forall k :: 0 <= k < 128 ==> t[k] == Xor(q[k], Times(Bit(s, k), r))
    ensures forall j :: 0 <= j < 128 ==> Transpose(t)[j] == Xor(Transpose(q)[j], Times(Bit(r, j), s))
  {
    hide Bit, Transpose, Xor, Zero;
    forall j | 0 <= j < 128 ensures Transpose(t)[j] == Xor(Transpose(q)[j], Times(Bit(r, j), s)) {
      var x, y := Transpose(t)[j], Xor(Transpose(q)[j], Times(Bit(r, j), s));
      forall k | 0 <= k < 128 ensures Bit(x, k) == Bit(y, k) {
        assert Bit(x, k) == Bit(t[k], j);
        assert Bit(Transpose(q)[j], k) == Bit(q[k], j);
      }
      BlockEq(x, y);
    }
  }
}
