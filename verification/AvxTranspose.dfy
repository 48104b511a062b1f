// The AVX transpose of a 128 x 128 bit matrix: masked swaps over vectors of two
// rows, the small blocks first.
module AvxTranspose {
  import opened Bits
  import opened Blocks
  import opened BitMatrix

  // ---- Instructions -------------------------------------------------------

  // A 256-bit vector: two rows.
  datatype Vec = Vec(lo: Block, hi: Block)

  // Whether bit i lies in an odd stripe of width w, and whether i - w or i + w is in
  // the same lane.
  predicate Odd(i: nat, w: nat)
    requires w > 0
  {
    i / w % 2 == 1
  }

  predicate RoomBelow(i: nat, lane: nat, w: nat)
    requires lane > 0
  {
    i % lane >= w
  }

  predicate RoomAbove(i: nat, lane: nat, w: nat)
    requires lane > 0
  {
    i % lane + w < lane
  }

  // Shifts within lanes of the given width.
  function LaneSll(x: Block, lane: nat, w: nat): (r: Block)
    requires lane > 0
    ensures forall i :: 0 <= i < 128 ==> Bit(r, i) == (RoomBelow(i, lane, w) && i >= w && Bit(x, i - w))
  {
    MakeBlock((i: nat) => RoomBelow(i, lane, w) && i >= w && Bit(x, i - w))
  }

  function LaneSrl(x: Block, lane: nat, w: nat): (r: Block)
    requires lane > 0
    ensures forall i :: 0 <= i < 128 ==> Bit(r, i) == (RoomAbove(i, lane, w) && Bit(x, i + w))
  {
    MakeBlock((i: nat) => RoomAbove(i, lane, w) && Bit(x, i + w))
  }

  // The same lane everywhere.
  function Broadcast(x: Block, lane: nat): (r: Block)
    requires lane > 0
    ensures forall i :: 0 <= i < 128 ==> Bit(r, i) == Bit(x, i % lane)
  {
    MakeBlock((i: nat) => Bit(x, i % lane))
  }

  // The low, or the high, 64-bit lanes of two rows.
  function UnpackLow(x: Block, y: Block): (r: Block)
    ensures forall i :: 0 <= i < 128 ==> Bit(r, i) == if i < 64 then Bit(x, i) else Bit(y, i - 64)
  {
    MakeBlock((i: nat) => if i < 64 then Bit(x, i) else Bit(y, i - 64))
  }

  function UnpackHigh(x: Block, y: Block): (r: Block)
    ensures forall i :: 0 <= i < 128 ==> Bit(r, i) == if i < 64 then Bit(x, i + 64) else Bit(y, i)
  {
    MakeBlock((i: nat) => if i < 64 then Bit(x, i + 64) else Bit(y, i))
  }

  function VXor(x: Vec, y: Vec): Vec { Vec(Xor(x.lo, y.lo), Xor(x.hi, y.hi)) }

  function VAnd(x: Vec, y: Vec): Vec { Vec(And(x.lo, y.lo), And(x.hi, y.hi)) }

  function Slli(x: Vec, lane: nat, w: nat): Vec
    requires lane > 0
  {
    Vec(LaneSll(x.lo, lane, w), LaneSll(x.hi, lane, w))
  }

  function Srli(x: Vec, lane: nat, w: nat): Vec
    requires lane > 0
  {
    Vec(LaneSrl(x.lo, lane, w), LaneSrl(x.hi, lane, w))
  }

  function Set1(x: Block, lane: nat): Vec
    requires lane > 0
  {
    Vec(Broadcast(x, lane), Broadcast(x, lane))
  }

  // permute2x128 with 0x20 and with 0x31.
  function LowRows(x: Vec, y: Vec): Vec { Vec(x.lo, y.lo) }

  function HighRows(x: Vec, y: Vec): Vec { Vec(x.hi, y.hi) }

  // ---- The masks ----------------------------------------------------------

  // The 64-bit mask of block size 2^b: the source halves the stripes from 32 down.
  function LaneMask(b: nat): Block
    requires 1 <= b <= 5
    decreases 5 - b
  {
    if b == 5 then 0xffffffff_00000000 else var m := LaneMask(b + 1); Xor(m, Shr(m, Pow2(b)))
  }

  // Bit i of the mask for stripes of width w.
  predicate Striped(i: nat, w: nat)
    requires w > 0
  {
    i < 64 && i / w % 2 == 1
  }

  lemma {:induction false} LaneMaskBit(b: nat, i: nat)
    requires 1 <= b <= 5 && i < 128
    ensures Bit(LaneMask(b), i) == Striped(i, Pow2(b))
    decreases 5 - b
  {
    hide Bit, Xor, Shr, Striped, Pow2, LaneMask;
    MaskOf(b);
    if b == 5 {
      FirstMask(i);
    } else {
      var m, w := LaneMask(b + 1), Pow2(b);
      LaneMaskBit(b + 1, i);
      if i + w < 128 { LaneMaskBit(b + 1, i + w); } else { NoBit(m, i + w); }
      NotStriped(i + w, Pow2(b + 1));
      StripeHalves(i, b, w);
      assert Bit(Shr(m, w), i) == Bit(m, i + w);
    }
  }

  lemma MaskOf(b: nat)
    requires 1 <= b <= 5
    ensures LaneMask(b) == if b == 5 then 0xffffffff_00000000 else Xor(LaneMask(b + 1), Shr(LaneMask(b + 1), Pow2(b)))
  {
    hide Xor, Shr, Pow2;
  }

  lemma NotStriped(i: nat, w: nat)
    requires w > 0
    ensures i >= 128 ==> !Striped(i, w)
  {
  }

  lemma FirstMask(i: nat)
    ensures Bit(0xffffffff_00000000, i) == Striped(i, Pow2(5))
  {
    Pow2Of32();
    BitOfProduct(0xffffffff, 32, i);
    if i >= 32 { LowOnes(32, i - 32); }
    assert Pow2(5) == 32;
  }

  // A stripe of width 2w is one of width w and its neighbour.
  lemma StripeHalves(i: nat, b: nat, w: nat)
    requires 1 <= b <= 4 && w == Pow2(b)
    ensures Striped(i, w) == (Striped(i, Pow2(b + 1)) != Striped(i + w, Pow2(b + 1)))
  {
    hide Pow2;
    DivMod(i, w);
    Pow2Step(b);
    StripeCount(b);
    HalvesOf(i, w, i / w, i % w, Pow2(6 - b));
  }

  lemma HalvesOf(i: nat, w: nat, q: nat, s: nat, n: nat)
    requires i == q * w + s && s < w && w * n == 64 && n % 4 == 0
    ensures Striped(i, w) == (Striped(i, 2 * w) != Striped(i + w, 2 * w))
  {
    Shifted(q, 1, w);
    DivUnique(i, q, s, w);
    Pair(i, w, q, s);
    Pair(i + w, w, q + 1, s);
    StripeInside(i, w, q, s, n);
    StripeInside(i + w, w, q + 1, s, n);
    Parities(q, n);
  }

  lemma Parities(q: nat, n: nat)
    requires n % 4 == 0
    ensures (q < n && q % 2 == 1) == ((q < n && q / 2 % 2 == 1) != (q + 1 < n && (q + 1) / 2 % 2 == 1))
  {
  }

  lemma StripeCount(b: nat)
    requires 1 <= b <= 4
    ensures Pow2(b) * Pow2(6 - b) == 64 && Pow2(6 - b) % 4 == 0
  {
    Pow2Add(b, 6 - b);
    Pow2Of6();
    Pow2Step(5 - b);
    Pow2Step(4 - b);
  }

  // Half the stripe number is the number of the stripe of twice the width.
  lemma Pair(i: nat, w: nat, q: nat, s: nat)
    requires i == q * w + s && s < w
    ensures i / (2 * w) == q / 2
  {
    Halves(q / 2, q % 2, w);
    DivUnique(i, q / 2, if q % 2 == 1 then w + s else s, 2 * w);
  }

  lemma StripeInside(i: nat, w: nat, q: nat, s: nat, n: nat)
    requires i == q * w + s && s < w && w * n == 64
    ensures i < 64 <==> q < n
  {
    if q < n { MulMono(q + 1, n, w); } else { MulMono(n, q, w); }
  }

  // ---- One exchange -------------------------------------------------------

  // The row has exchanged the bits of its number below W with its columns: T is
  // the transpose the algorithm is to reach.
  ghost predicate RowAt(row: Block, T: seq<Block>, r: nat, W: nat)
    requires Square(T) && W > 0
  {
    forall c :: 0 <= c < 128 ==> EntryAt(row, T, r, c, W)
  }

  ghost predicate EntryAt(row: Block, T: seq<Block>, r: nat, c: nat, W: nat)
    requires Square(T) && W > 0
  {
    0 <= Mix(r, c, W) < 128 && 0 <= Mix(c, r, W) && Bit(row, c) == Bit(T[Mix(r, c, W)], Mix(c, r, W))
  }

  ghost predicate VecAt(x: Vec, T: seq<Block>, v: nat, W: nat)
    requires Square(T) && W > 0
  {
    RowAt(x.lo, T, 2 * v, W) && RowAt(x.hi, T, 2 * v + 1, W)
  }

  // Rows x and y have exchanged the bit of weight w of their columns.
  ghost predicate Traded(x: Block, y: Block, x': Block, y': Block, w: nat)
    requires w > 0
  {
    forall c :: 0 <= c < 128 ==> TradedAt(x, y, x', y', w, c)
  }

  ghost predicate TradedAt(x: Block, y: Block, x': Block, y': Block, w: nat, c: nat)
    requires w > 0
  {
    && Bit(x', c) == (if Odd(c, w) then c >= w && Bit(y, c - w) else Bit(x, c))
    && Bit(y', c) == (if Odd(c, w) then Bit(y, c) else Bit(x, c + w))
  }

  // Then both have moved up one bit.
  lemma Raised(x: Block, y: Block, x': Block, y': Block, T: seq<Block>, r: nat, w: nat, i: nat)
    requires Square(T) && i < 7 && w == Pow2(6 - i) && !Odd(r, w) && r + w < 128
    requires RowAt(x, T, r, w) && RowAt(y, T, r + w, w) && Traded(x, y, x', y', w)
    ensures RowAt(x', T, r, 2 * w) && RowAt(y', T, r + w, 2 * w)
  {
    hide Bit, Odd, Pow2, EntryAt, TradedAt;
    var q, W := r + w, 2 * w;
    forall c | 0 <= c < 128 ensures EntryAt(x', T, r, c, W) {
      assert TradedAt(x, y, x', y', w, c);
      RaisedEntry(x, y, x', y', T, r, c, w, i);
    }
    forall c | 0 <= c < 128 ensures EntryAt(y', T, q, c, W) {
      assert TradedAt(x, y, x', y', w, c);
      RaisedEntry(x, y, x', y', T, r, c, w, i);
    }
  }

  lemma RaisedEntry(x: Block, y: Block, x': Block, y': Block, T: seq<Block>, r: nat, c: nat, w: nat, i: nat)
    requires Square(T) && i < 7 && w == Pow2(6 - i) && !Odd(r, w) && r + w < 128 && c < 128
    requires RowAt(x, T, r, w) && RowAt(y, T, r + w, w) && TradedAt(x, y, x', y', w, c)
    ensures EntryAt(x', T, r, c, 2 * w) && EntryAt(y', T, r + w, c, 2 * w)
  {
    hide Bit, Pow2, RowAt, EntryAt, TradedAt;
    Neighbours(r, w, i);
    Neighbours(c, w, i);
    Parity(r, w);
    Parity(c, w);
    RaisedLow(x, y, x', y', T, r, c, w);
    RaisedHigh(x, y, x', y', T, r, c, w);
  }

  lemma RaisedLow(x: Block, y: Block, x': Block, y': Block, T: seq<Block>, r: nat, c: nat, w: nat)
    requires Square(T) && w > 0 && !Odd(r, w) && Odd(r + w, w) && c < 128
    requires RowAt(x, T, r, w) && RowAt(y, T, r + w, w) && TradedAt(x, y, x', y', w, c)
    requires Odd(c, w) ==> c >= w && !Odd(c - w, w)
    ensures EntryAt(x', T, r, c, 2 * w)
  {
    hide Bit, Mix, Odd;
    if Odd(c, w) {
      Moved(r + w, c - w, w);
      Moved(c - w, r + w, w);
      assert EntryAt(y, T, r + w, c - w, w);
    } else {
      Stayed(r, c, w);
      Stayed(c, r, w);
      assert EntryAt(x, T, r, c, w);
    }
  }

  lemma RaisedHigh(x: Block, y: Block, x': Block, y': Block, T: seq<Block>, r: nat, c: nat, w: nat)
    requires Square(T) && w > 0 && !Odd(r, w) && Odd(r + w, w) && c < 128
    requires RowAt(x, T, r, w) && RowAt(y, T, r + w, w) && TradedAt(x, y, x', y', w, c)
    requires !Odd(c, w) ==> c + w < 128 && Odd(c + w, w)
    ensures EntryAt(y', T, r + w, c, 2 * w)
  {
    hide Bit, Mix, Odd;
    if Odd(c, w) {
      Stayed(r + w, c, w);
      Stayed(c, r + w, w);
      assert EntryAt(y, T, r + w, c, w);
    } else {
      Moved(r, c + w, w);
      Moved(c + w, r, w);
      assert EntryAt(x, T, r, c + w, w);
    }
  }

  lemma Stayed(r: nat, c: nat, w: nat)
    requires w > 0 && Odd(r, w) == Odd(c, w)
    ensures Mix(r, c, 2 * w) == Mix(r, c, w)
  {
    hide Mix;
    Parity(r, w);
    Parity(c, w);
    MixStep(r, c, w);
  }

  lemma Moved(r: nat, c: nat, w: nat)
    requires w > 0 && Odd(r, w) != Odd(c, w)
    ensures if Odd(r, w) then r >= w && Mix(r - w, c + w, 2 * w) == Mix(r, c, w)
            else c >= w && Mix(r + w, c - w, 2 * w) == Mix(r, c, w)
  {
    hide Mix;
    Parity(r, w);
    Parity(c, w);
    MixStep(r, c, w);
  }

  // The masked exchange inside lanes.
  lemma MaskedTrade(x: Block, y: Block, diff: Block, mask: Block, lane: nat, w: nat)
    requires lane > 0 && w > 0 && diff == And(Xor(x, LaneSll(y, lane, w)), mask)
    requires forall c :: 0 <= c < 128 ==> Bit(mask, c) == Odd(c, w)
    requires forall c :: 0 <= c < 128 ==> InLane(c, lane, w)
    ensures Traded(x, y, Xor(x, diff), Xor(y, LaneSrl(diff, lane, w)), w)
  {
    hide Bit, And, Xor, LaneSll, LaneSrl, TradedAt, InLane, Odd;
    forall c | 0 <= c < 128 ensures TradedAt(x, y, Xor(x, diff), Xor(y, LaneSrl(diff, lane, w)), w, c) {
      MaskedTradeAt(x, y, diff, mask, lane, w, c);
    }
  }

  lemma MaskedTradeAt(x: Block, y: Block, diff: Block, mask: Block, lane: nat, w: nat, c: nat)
    requires lane > 0 && w > 0 && c < 128 && InLane(c, lane, w) && diff == And(Xor(x, LaneSll(y, lane, w)), mask)
    requires Bit(mask, c) == Odd(c, w) && (c + w < 128 ==> InLane(c + w, lane, w) && Bit(mask, c + w) == Odd(c + w, w))
    ensures TradedAt(x, y, Xor(x, diff), Xor(y, LaneSrl(diff, lane, w)), w, c)
  {
    hide Bit, And, Xor, LaneSll, LaneSrl, Odd, RoomBelow, RoomAbove;
    assert Bit(diff, c) == (Bit(Xor(x, LaneSll(y, lane, w)), c) && Bit(mask, c));
    if c + w < 128 {
      assert Bit(diff, c + w) == (Bit(Xor(x, LaneSll(y, lane, w)), c + w) && Bit(mask, c + w));
      assert Bit(LaneSll(y, lane, w), c + w) == (RoomBelow(c + w, lane, w) && Bit(y, c));
    }
  }

  // Neighbours at distance w lie in stripes of the other kind, and those that an
  // exchange needs lie in the same lane.
  ghost predicate InLane(c: nat, lane: nat, w: nat)
    requires lane > 0 && w > 0
  {
    && (Odd(c, w) ==> RoomBelow(c, lane, w) && c >= w)
    && (!Odd(c, w) ==> RoomAbove(c, lane, w))
    && (RoomAbove(c, lane, w) ==> c + w < 128 && Odd(c + w, w) == !Odd(c, w))
  }

  lemma Lanes(c: nat, lane: nat, w: nat, i: nat, n: nat)
    requires i < 7 && w == Pow2(6 - i) && c < 128 && (lane == 64 || lane == 16) && w * (2 * n) == lane && n > 0
    ensures InLane(c, lane, w)
  {
    hide Pow2;
    Neighbours(c, w, i);
    Parity(c, w);
    var d := c % lane;
    DivMod(c, lane);
    DivMod(d, w);
    LaneEnd(c, lane, c / lane, d, w);
    LaneStripe(c, c / lane, w, d / w, d % w, n);
    LaneFits(d, w, d / w, d % w, n);
  }

  lemma LaneEnd(c: nat, lane: nat, a: nat, d: nat, w: nat)
    requires (lane == 64 || lane == 16) && c == a * lane + d && c < 128
    ensures d + w < lane ==> c + w < 128
  {
  }

  lemma LaneStripe(c: nat, a: nat, w: nat, q: nat, s: nat, n: nat)
    requires c == a * (w * (2 * n)) + (q * w + s) && s < w
    ensures c / w % 2 == q % 2
  {
    var k := a * n;
    assert a * (w * (2 * n)) == (2 * k) * w;
    Shifted(2 * k, q, w);
    DivUnique(c, 2 * k + q, s, w);
  }

  lemma LaneFits(d: nat, w: nat, q: nat, s: nat, n: nat)
    requires d == q * w + s && s < w && d < w * (2 * n)
    ensures q % 2 == 1 ==> d >= w
    ensures q % 2 == 0 ==> d + w < w * (2 * n)
  {
    if q >= 2 * n { MulMono(2 * n, q, w); assert false; }
    if q % 2 == 0 {
      MulMono(q + 2, 2 * n, w);
      Shifted(q, 2, w);
    } else {
      MulMono(1, q, w);
    }
  }

  // ---- Two vectors --------------------------------------------------------

  lemma LaneMaskIs(b: nat, c: nat)
    requires 1 <= b <= 5 && c < 128
    ensures Bit(Broadcast(LaneMask(b), 64), c) == Odd(c, Pow2(b)) && InLane(c, 64, Pow2(b))
  {
    hide Bit, Pow2, Broadcast, LaneMask, InLane;
    var w, n := Pow2(b), Pow2(5 - b);
    LaneSize(b);
    Lanes(c, 64, w, 6 - b, n);
    var d := c % 64;
    DivMod(d, w);
    LaneStripe(c, c / 64, w, d / w, d % w, n);
    LaneMaskBit(b, d);
  }

  lemma LaneSize(b: nat)
    requires 1 <= b <= 5
    ensures Pow2(b) * (2 * Pow2(5 - b)) == 64
  {
    Pow2Add(b, 6 - b);
    Pow2Of6();
  }

  lemma SmallMaskIs(c: nat)
    requires c < 128
    ensures Bit(Broadcast(0xaaaa, 16), c) == Odd(c, 1) && InLane(c, 16, 1)
  {
    hide Bit, Broadcast, InLane;
    assert Pow2(0) == 1 && Pow2(8) == 256;
    Pow2Add(8, 8);
    Lanes(c, 16, 1, 6, 8);
    var d := c % 16;
    MaskBit(6, 1, d);
    assert MASK_INV[6] % Pow2(16) == 0xaaaa;
    BitOfRemainder(MASK_INV[6], 16, d);
  }

  // Row numbers are twice vector numbers.
  lemma RowParity(p: nat, h: nat)
    requires h > 0
    ensures Odd(2 * p, 2 * h) == Odd(p, h) == Odd(2 * p + 1, 2 * h)
  {
    DivMod(p, h);
    var k, e := p / h, p % h;
    assert 2 * (k * h) == k * (2 * h);
    DivUnique(2 * p, k, 2 * e, 2 * h);
    DivUnique(2 * p + 1, k, 2 * e + 1, 2 * h);
  }

  ghost predicate VecTraded(x: Vec, y: Vec, x': Vec, y': Vec, w: nat)
    requires w > 0
  {
    Traded(x.lo, y.lo, x'.lo, y'.lo, w) && Traded(x.hi, y.hi, x'.hi, y'.hi, w)
  }

  lemma VecRaised(x: Vec, y: Vec, x': Vec, y': Vec, T: seq<Block>, p: nat, h: nat, i: nat)
    requires Square(T) && i < 7 && 2 * h == Pow2(6 - i) && h > 0 && p + h < 64 && !Odd(p, h)
    requires VecAt(x, T, p, 2 * h) && VecAt(y, T, p + h, 2 * h) && VecTraded(x, y, x', y', 2 * h)
    ensures VecAt(x', T, p, 4 * h) && VecAt(y', T, p + h, 4 * h)
  {
    hide RowAt, Traded, Odd, Pow2;
    RowParity(p, h);
    Raised(x.lo, y.lo, x'.lo, y'.lo, T, 2 * p, 2 * h, i);
    Raised(x.hi, y.hi, x'.hi, y'.hi, T, 2 * p + 1, 2 * h, i);
  }

  // The 2 x 2 blocks inside each of two vectors.
  method SmallExchange(x: Vec, y: Vec, ghost T: seq<Block>, ghost p: nat, ghost q: nat) returns (x': Vec, y': Vec)
    requires Square(T) && p < 64 && q < 64 && VecAt(x, T, p, 1) && VecAt(y, T, q, 1)
    ensures VecAt(x', T, p, 2) && VecAt(y', T, q, 2)
  {
    hide RowAt, Traded, InLane, And, Xor, LaneSll, LaneSrl, Broadcast, Odd, Bit;
    var u, v := LowRows(x, y), HighRows(x, y);
    var diff := VAnd(VXor(u, Slli(v, 16, 1)), Set1(0xaaaa, 16));
    ghost var u0, v0 := u, v;
    u := VXor(u, diff);
    v := VXor(v, Srli(diff, 16, 1));
    forall c | 0 <= c < 128 ensures Bit(Broadcast(0xaaaa, 16), c) == Odd(c, 1) && InLane(c, 16, 1) { SmallMaskIs(c); }
    MaskedTrade(u0.lo, v0.lo, diff.lo, Broadcast(0xaaaa, 16), 16, 1);
    MaskedTrade(u0.hi, v0.hi, diff.hi, Broadcast(0xaaaa, 16), 16, 1);
    SmallRaised(x.lo, x.hi, u.lo, v.lo, T, p);
    SmallRaised(y.lo, y.hi, u.hi, v.hi, T, q);
    x', y' := LowRows(u, v), HighRows(u, v);
  }

  lemma SmallRaised(a: Block, b: Block, a': Block, b': Block, T: seq<Block>, p: nat)
    requires Square(T) && p < 64 && RowAt(a, T, 2 * p, 1) && RowAt(b, T, 2 * p + 1, 1) && Traded(a, b, a', b', 1)
    ensures RowAt(a', T, 2 * p, 2) && RowAt(b', T, 2 * p + 1, 2)
  {
    hide RowAt, Traded;
    assert Pow2(0) == 1;
    assert !Odd(2 * p, 1);
    Raised(a, b, a', b', T, 2 * p, 1, 6);
  }

  // The bits exchanged before the stage of block size 2^b; the first stage also
  // exchanges the lowest bit.
  function Before(b: nat): (w: nat)
    ensures w > 0
  {
    if b == 1 then 1 else Pow2(b)
  }

  // The body of avx_transpose_block_iter1 for blocks inside a 64-bit lane.
  method Exchange(x: Vec, y: Vec, b: nat, ghost T: seq<Block>, ghost p: nat) returns (x': Vec, y': Vec)
    requires Square(T) && 1 <= b <= 5 && p + Pow2(b - 1) < 64 && !Odd(p, Pow2(b - 1))
    requires VecAt(x, T, p, Before(b)) && VecAt(y, T, p + Pow2(b - 1), Before(b))
    ensures VecAt(x', T, p, Pow2(b + 1)) && VecAt(y', T, p + Pow2(b - 1), Pow2(b + 1))
  {
    hide RowAt, VecAt, Traded, InLane, And, Xor, LaneSll, LaneSrl, Broadcast, Odd, Bit, Pow2, LaneMask;
    var mask := LaneMask(b);
    x', y' := x, y;
    FirstPowers();
    if b == 1 { x', y' := SmallExchange(x', y', T, p, p + Pow2(b - 1)); }
    ghost var x0, y0 := x', y';
    Pow2Step(b - 1);
    Pow2Step(b);
    var w := Pow2(b);
    var diff := VAnd(VXor(x', Slli(y', 64, w)), Set1(mask, 64));
    x' := VXor(x', diff);
    y' := VXor(y', Srli(diff, 64, w));
    forall c | 0 <= c < 128 ensures Bit(Broadcast(mask, 64), c) == Odd(c, w) && InLane(c, 64, w) { LaneMaskIs(b, c); }
    MaskedTrade(x0.lo, y0.lo, diff.lo, Broadcast(mask, 64), 64, w);
    MaskedTrade(x0.hi, y0.hi, diff.hi, Broadcast(mask, 64), 64, w);
    VecRaised(x0, y0, x', y', T, p, Pow2(b - 1), 6 - b);
  }

  lemma FirstPowers()
    ensures Pow2(0) == 1 && Pow2(1) == 2
  {
  }

  // The same for the two lanes of a row.
  method Unpack(x: Vec, y: Vec, ghost T: seq<Block>, ghost p: nat) returns (x': Vec, y': Vec)
    requires Square(T) && p < 32 && VecAt(x, T, p, 64) && VecAt(y, T, p + 32, 64)
    ensures VecAt(x', T, p, 128) && VecAt(y', T, p + 32, 128)
  {
    hide RowAt, VecAt, Traded, UnpackLow, UnpackHigh, Odd, Bit, Pow2;
    x' := Vec(UnpackLow(x.lo, y.lo), UnpackLow(x.hi, y.hi));
    y' := Vec(UnpackHigh(x.lo, y.lo), UnpackHigh(x.hi, y.hi));
    UnpackTrade(x.lo, y.lo);
    UnpackTrade(x.hi, y.hi);
    Pow2Of6();
    assert !Odd(p, 32) by { FirstHalf(p); }
    VecRaised(x, y, x', y', T, p, 32, 0);
  }

  lemma FirstHalf(p: nat)
    requires p < 32
    ensures !Odd(p, 32)
  {
  }

  lemma UnpackTrade(x: Block, y: Block)
    ensures Traded(x, y, UnpackLow(x, y), UnpackHigh(x, y), 64)
  {
    hide Bit, UnpackLow, UnpackHigh;
    forall c | 0 <= c < 128 ensures TradedAt(x, y, UnpackLow(x, y), UnpackHigh(x, y), 64, c) {
      assert Odd(c, 64) == (c >= 64);
    }
  }

  // ---- The traversal ------------------------------------------------------

  // The vectors at multiples of s from base on, in a matrix of two half-blocks of h
  // vectors, whose place in their half is j or later.
  predicate Upper(v: nat, base: nat, h: nat, s: nat, j: nat)
    requires h > 0 && s > 0
  {
    base <= v < base + 2 * h && (v - base) % s == 0 && (v - base) % h >= j
  }

  // One place of both halves more.
  lemma UpperStep(base: nat, h: nat, s: nat, j: nat, n: nat, a: nat)
    requires s > 0 && n > 0 && h == n * s && h > 0 && j == a * s && a < n
    ensures j + s <= h
    ensures forall v :: Upper(v, base, h, s, j) <==> Upper(v, base, h, s, j + s) || v == base + j || v == base + j + h
    ensures !Upper(base + j, base, h, s, j + s) && !Upper(base + j + h, base, h, s, j + s)
  {
    MulMono(a + 1, n, s);
    Shifted(a, 1, s);
    forall v: nat
      ensures Upper(v, base, h, s, j) <==> Upper(v, base, h, s, j + s) || v == base + j || v == base + j + h
    {
      if base <= v < base + 2 * h { UpperAt(v - base, h, s, j, n, a); }
      UpperAt(j, h, s, j, n, a);
      UpperAt(j + h, h, s, j, n, a);
    }
    UpperAt(j, h, s, j, n, a);
    UpperAt(j + h, h, s, j, n, a);
  }

  lemma UpperAt(d: nat, h: nat, s: nat, j: nat, n: nat, a: nat)
    requires s > 0 && n > 0 && h == n * s && h > 0 && j == a * s && a < n && j + s <= h && d < 2 * h
    ensures d == j || d == j + h ==> d % s == 0 && d % h == j
    ensures d % s == 0 && d % h >= j ==> d % h >= j + s || d == j || d == j + h
  {
    var e := if d < h then d else d - h;
    DivUnique(d, if d < h then 0 else 1, e, h);
    if d == j { DivUnique(d, a, 0, s); }
    if d == j + h {
      Shifted(a, n, s);
      DivUnique(d, a + n, 0, s);
    }
    if d % s == 0 {
      DivMod(d, s);
      var m: int := if d < h then d / s else d / s - n;
      Shifted(m, n, s);
      assert e == m * s;
      if m < a { MulMonoInt(m + 1, a, s); } else if m > a { MulMonoInt(a + 1, m, s); }
    }
  }

  lemma MulMonoInt(a: int, b: int, s: nat)
    requires a <= b
    ensures a * s <= b * s && (a - 1) * s == a * s - s
  {
  }

  // avx_transpose_block_iter1: the places from j on, in steps of 2^rs rows, of one
  // matrix of two blocks of size 2^b.
  method Iter1(io: array<Vec>, base: nat, b: nat, rs: nat, j: nat, ghost T: seq<Block>)
    requires io.Length == 64 && Square(T) && 1 <= rs <= b <= 6 && j % Pow2(rs) == 0 && j <= Pow2(b)
    requires base % Pow2(b) < Pow2(rs - 1) && base + Pow2(b) < 64 + Pow2(rs - 1)
    requires forall v :: 0 <= v < 64 && Upper(v, base, Pow2(b - 1), Pow2(rs - 1), j / 2) ==> VecAt(io[v], T, v, Before(b))
    modifies io
    ensures forall v :: 0 <= v < 64 ==>
      if Upper(v, base, Pow2(b - 1), Pow2(rs - 1), j / 2) then VecAt(io[v], T, v, Pow2(b + 1)) else io[v] == old(io[v])
    decreases Pow2(b) - j
  {
    hide Pow2, VecAt, Upper, Before;
    ghost var h, s := Pow2(b - 1), Pow2(rs - 1);
    if j < Pow2(b) {
      ghost var n, a := PlaceFits(base, b, rs, j);
      UpperStep(base, h, s, j / 2, n, a);
      Iter1(io, base, b, rs, j + Pow2(rs), T);
      var p, q := base + j / 2, base + j / 2 + Pow2(b - 1);
      if b < 6 {
        io[p], io[q] := Exchange(io[p], io[q], b, T, p);
      } else {
        LastStage();
        io[p], io[q] := Unpack(io[p], io[q], T, p);
      }
    } else {
      Pow2Step(b - 1);
      NoneUpper(base, h, s, j / 2);
    }
  }

  lemma LastStage()
    ensures Pow2(5) == 32 && Before(6) == 64 && Pow2(7) == 128
  {
  }

  lemma PlaceFits(base: nat, b: nat, rs: nat, j: nat) returns (n: nat, a: nat)
    requires 1 <= rs <= b <= 6 && j % Pow2(rs) == 0 && j < Pow2(b)
    requires base % Pow2(b) < Pow2(rs - 1) && base + Pow2(b) < 64 + Pow2(rs - 1)
    ensures (j + Pow2(rs)) % Pow2(rs) == 0 && j + Pow2(rs) <= Pow2(b) && (j + Pow2(rs)) / 2 == j / 2 + Pow2(rs - 1)
    ensures base + j / 2 + Pow2(b - 1) < 64 && !Odd(base + j / 2, Pow2(b - 1))
    ensures n > 0 && Pow2(b - 1) == n * Pow2(rs - 1) && j / 2 == a * Pow2(rs - 1) && a < n
  {
    hide Pow2, Odd;
    n := Pow2(b - rs);
    Pow2Step(b - 1);
    Pow2Step(rs - 1);
    Pow2Add(rs - 1, b - rs);
    a := PlaceArith(base, Pow2(b - 1), Pow2(rs - 1), n, j, Pow2(rs), Pow2(b));
  }

  lemma PlaceArith(base: nat, h: nat, s: nat, n: nat, j: nat, step: nat, size: nat) returns (a: nat)
    requires h > 0 && s > 0 && n > 0 && h == s * n && step == 2 * s && size == 2 * h
    requires j % step == 0 && j < size && base % size < s && base + size < 64 + s
    ensures (j + step) % step == 0 && j + step <= size && (j + step) / 2 == j / 2 + s
    ensures base + j / 2 + h < 64 && !Odd(base + j / 2, h)
    ensures n > 0 && h == n * s && j / 2 == a * s && a < n
  {
    hide Odd;
    a := j / (2 * s);
    DivMod(j, 2 * s);
    StepRows(j, s, a, n);
    DivMod(base, 2 * h);
    LowerHalf(base, base / (2 * h), base % (2 * h), h, s, a * s);
  }

  lemma StepRows(j: nat, s: nat, a: nat, n: nat)
    requires j == a * (2 * s) && j < 2 * (n * s) && s > 0
    ensures j / 2 == a * s && a < n && j + 2 * s <= 2 * (n * s) && (j + 2 * s) / 2 == a * s + s && (j + 2 * s) % (2 * s) == 0
  {
    assert a * (2 * s) == 2 * (a * s);
    if a >= n { MulMono(n, a, s); assert false; }
    MulMono(a + 1, n, s);
    assert (a + 1) * (2 * s) == a * (2 * s) + 2 * s;
    DivUnique(j + 2 * s, a + 1, 0, 2 * s);
  }

  lemma LowerHalf(base: nat, k: nat, e: nat, h: nat, s: nat, j: nat)
    requires base == k * (2 * h) + e && e < s && j + s <= h && h > 0
    ensures !Odd(base + j, h)
  {
    assert k * (2 * h) == (2 * k) * h;
    DivUnique(base + j, 2 * k, e + j, h);
  }

  lemma NoneUpper(base: nat, h: nat, s: nat, j: nat)
    requires h > 0 && s > 0 && j >= h
    ensures forall v :: !Upper(v, base, h, s, j)
  {
    forall v: nat ensures !Upper(v, base, h, s, j) {
      if v >= base { DivMod(v - base, h); }
    }
  }

  // The vectors at multiples of s among n from base on.
  predicate Every(v: nat, base: nat, s: nat, n: nat)
    requires s > 0
  {
    base <= v < base + n && (v - base) % s == 0
  }

  // One matrix of two half-blocks more.
  lemma EveryStep(base: nat, h: nat, s: nat, k: nat, a: nat)
    requires h > 0 && s > 0 && k == a * s
    ensures forall v :: Every(v, base, s, k + 2 * h) <==> Every(v, base, s, k) || Upper(v, base + k, h, s, 0)
    ensures forall v :: !(Every(v, base, s, k) && Upper(v, base + k, h, s, 0))
  {
    hide Every, Upper;
    forall v: nat
      ensures Every(v, base, s, k + 2 * h) <==> Every(v, base, s, k) || Upper(v, base + k, h, s, 0)
      ensures !(Every(v, base, s, k) && Upper(v, base + k, h, s, 0))
    {
      EveryAt(v, base, h, s, k, a);
    }
  }

  lemma EveryAt(v: nat, base: nat, h: nat, s: nat, k: nat, a: nat)
    requires h > 0 && s > 0 && k == a * s
    ensures Every(v, base, s, k + 2 * h) <==> Every(v, base, s, k) || Upper(v, base + k, h, s, 0)
    ensures !(Every(v, base, s, k) && Upper(v, base + k, h, s, 0))
  {
    if v >= base + k {
      var d := v - (base + k);
      SameRest(d, s, k, a);
      assert v - base == d + k;
      RestIsNat(d, h);
    }
  }

  lemma SameRest(d: nat, s: nat, k: nat, a: nat)
    requires s > 0 && k == a * s
    ensures (d + k) % s == d % s
  {
    DivMod(d, s);
    Shifted(a, d / s, s);
    DivUnique(d + k, a + d / s, d % s, s);
  }

  lemma RestIsNat(d: nat, h: nat)
    requires h > 0
    ensures d % h >= 0
  {
  }

  // avx_transpose_block_iter2: every matrix among nRows rows.
  method Iter2(io: array<Vec>, base: nat, b: nat, rs: nat, nRows: nat, ghost T: seq<Block>)
    requires io.Length == 64 && Square(T) && 1 <= rs <= b <= 6 && nRows % Pow2(b + 1) == 0
    requires base % Pow2(b) < Pow2(rs - 1) && base + nRows / 2 < 64 + Pow2(rs - 1)
    requires forall v :: 0 <= v < 64 && Every(v, base, Pow2(rs - 1), nRows / 2) ==> VecAt(io[v], T, v, Before(b))
    modifies io
    ensures forall v :: 0 <= v < 64 ==>
      if Every(v, base, Pow2(rs - 1), nRows / 2) then VecAt(io[v], T, v, Pow2(b + 1)) else io[v] == old(io[v])
    decreases nRows
  {
    hide Pow2, VecAt, Upper, Every, Before;
    ghost var h, s := Pow2(b - 1), Pow2(rs - 1);
    if nRows > 0 {
      ghost var a := MatrixFits(base, b, rs, nRows);
      var i := nRows - Pow2(b + 1);
      EveryStep(base, h, s, i / 2, a);
      Iter2(io, base, b, rs, i, T);
      Iter1(io, base + i / 2, b, rs, 0, T);
    } else {
      NoneEvery(base, s);
    }
  }

  lemma NoneEvery(base: nat, s: nat)
    requires s > 0
    ensures forall v :: !Every(v, base, s, 0)
  {
  }

  lemma MatrixFits(base: nat, b: nat, rs: nat, nRows: nat) returns (a: nat)
    requires 1 <= rs <= b <= 6 && nRows % Pow2(b + 1) == 0 && nRows > 0
    requires base % Pow2(b) < Pow2(rs - 1) && base + nRows / 2 < 64 + Pow2(rs - 1)
    ensures nRows >= Pow2(b + 1) && 0 % Pow2(rs) == 0
    ensures
      var i := nRows - Pow2(b + 1);
      && i % Pow2(b + 1) == 0 && i / 2 == a * Pow2(rs - 1) && nRows / 2 == i / 2 + 2 * Pow2(b - 1)
      && (base + i / 2) % Pow2(b) < Pow2(rs - 1) && base + i / 2 + Pow2(b) == base + nRows / 2
  {
    hide Pow2;
    Pow2Step(b - 1);
    Pow2Step(b);
    Pow2Add(rs - 1, b - rs);
    DivUnique(0, 0, 0, Pow2(rs));
    a := MatrixArith(base, Pow2(b - 1), Pow2(rs - 1), Pow2(b - rs), nRows);
  }

  lemma MatrixArith(base: nat, h: nat, s: nat, n: nat, nRows: nat) returns (a: nat)
    requires h > 0 && s > 0 && h == s * n && nRows % (4 * h) == 0 && nRows > 0 && base % (2 * h) < s
    ensures nRows >= 4 * h
    ensures
      var i := nRows - 4 * h;
      i % (4 * h) == 0 && i / 2 == a * s && nRows / 2 == i / 2 + 2 * h && (base + i / 2) % (2 * h) < s
  {
    DivMod(nRows, 4 * h);
    var c := nRows / (4 * h);
    a := MatrixNumber(nRows, h, s, n, c);
    DivMod(base, 2 * h);
    Shifted(base / (2 * h), c - 1, 2 * h);
    DivUnique(base + (c - 1) * (2 * h), base / (2 * h) + (c - 1), base % (2 * h), 2 * h);
  }

  lemma MatrixNumber(nRows: nat, h: nat, s: nat, n: nat, c: nat) returns (a: nat)
    requires h > 0 && s > 0 && h == s * n && nRows == c * (4 * h) && nRows > 0
    ensures c > 0 && nRows >= 4 * h && (nRows - 4 * h) % (4 * h) == 0
    ensures (nRows - 4 * h) / 2 == (c - 1) * (2 * h) == a * s && nRows / 2 == (nRows - 4 * h) / 2 + 2 * h
  {
    assert c > 0;
    Shifted(c - 1, 1, 4 * h);
    DivUnique(nRows - 4 * h, c - 1, 0, 4 * h);
    a := (c - 1) * (2 * n);
    Regroup(c - 1, h, s, n);
  }

  lemma Regroup(c: nat, h: nat, s: nat, n: nat)
    requires h == s * n
    ensures c * (4 * h) == 2 * (c * (2 * h)) && c * (2 * h) == c * (2 * n) * s
  {
    calc {
      c * (2 * (s * n));
      c * ((2 * n) * s);
      c * (2 * n) * s;
    }
  }

  // avx_transpose_block: the stages from block size 2^b up to matrices of size
  // 2^mat.
  method Stages(io: array<Vec>, base: nat, b: nat, mat: nat, rs: nat, matRows: nat, ghost T: seq<Block>)
    requires io.Length == 64 && Square(T) && 1 <= rs <= b <= mat && 2 <= mat && mat + matRows <= 7
    requires forall d :: b <= d < mat ==> base % Pow2(d) < Pow2(rs - 1)
    requires base + Pow2(mat + matRows - 1) < 64 + Pow2(rs - 1)
    requires forall v :: 0 <= v < 64 && Every(v, base, Pow2(rs - 1), Pow2(mat + matRows - 1)) ==> VecAt(io[v], T, v, Before(b))
    modifies io
    ensures forall v :: 0 <= v < 64 ==>
      if Every(v, base, Pow2(rs - 1), Pow2(mat + matRows - 1)) then VecAt(io[v], T, v, Before(mat)) else io[v] == old(io[v])
    decreases mat - b
  {
    hide Pow2, VecAt, Every;
    if b < mat {
      RowsFit(b, mat, matRows);
      Iter2(io, base, b, rs, Pow2(matRows + mat), T);
      Stages(io, base, b + 1, mat, rs, matRows, T);
    }
  }

  lemma RowsFit(b: nat, mat: nat, matRows: nat)
    requires b < mat
    ensures Pow2(matRows + mat) % Pow2(b + 1) == 0 && Pow2(matRows + mat) / 2 == Pow2(mat + matRows - 1)
  {
    hide Pow2;
    var d := matRows + mat - (b + 1);
    Pow2Add(b + 1, d);
    DivUnique(Pow2(matRows + mat), Pow2(d), 0, Pow2(b + 1));
    Pow2Step(mat + matRows - 1);
  }

  // ---- The transpose ------------------------------------------------------

  // avx_transpose: blocks of 8 x 8 in groups of 32 rows, then the stages above in
  // steps of 8 rows.
  method Avx(io: array<Vec>, ghost T: seq<Block>)
    requires io.Length == 64 && Square(T) && forall v :: 0 <= v < 64 ==> VecAt(io[v], T, v, 1)
    modifies io
    ensures forall v :: 0 <= v < 64 ==> VecAt(io[v], T, v, 128)
  {
    hide VecAt, Pow2, Every, Before;
    Sizes();
    SmallBlocks(io, T);
    for k := 0 to 4
      invariant forall v :: 0 <= v < 64 ==> VecAt(io[v], T, v, if v % 4 < k then 128 else 8)
    {
      ClassFits(k);
      Stages(io, k, 3, 7, 3, 0, T);
    }
  }

  method SmallBlocks(io: array<Vec>, ghost T: seq<Block>)
    requires io.Length == 64 && Square(T) && forall v :: 0 <= v < 64 ==> VecAt(io[v], T, v, 1)
    modifies io
    ensures forall v :: 0 <= v < 64 ==> VecAt(io[v], T, v, 8)
  {
    hide VecAt, Pow2, Every, Before;
    Sizes();
    var i := 0;
    while i < 64
      invariant 0 <= i <= 64 && i % 16 == 0
      invariant forall v :: 0 <= v < 64 ==> VecAt(io[v], T, v, if v < i then 8 else 1)
    {
      GroupFits(i);
      Stages(io, i, 1, 3, 1, 2, T);
      i := i + 16;
    }
  }

  lemma Sizes()
    ensures Pow2(0) == 1 && Pow2(1) == 2 && Pow2(2) == 4 && Pow2(3) == 8 && Pow2(4) == 16 && Pow2(6) == 64 && Pow2(7) == 128
    ensures Before(1) == 1 && Before(3) == 8 && Before(7) == 128
  {
  }

  lemma GroupFits(i: nat)
    requires i < 64 && i % 16 == 0
    ensures i + 16 <= 64 && forall d :: 1 <= d < 3 ==> i % Pow2(d) < Pow2(0)
    ensures forall v: nat :: Every(v, i, 1, 16) <==> i <= v < i + 16
  {
    assert Pow2(0) == 1 && Pow2(1) == 2 && Pow2(2) == 4;
    forall d | 1 <= d < 3 ensures i % Pow2(d) < Pow2(0) {
      assert d == 1 || d == 2;
    }
  }

  lemma ClassFits(k: nat)
    requires k < 4
    ensures forall d :: 3 <= d < 7 ==> k % Pow2(d) < Pow2(2)
    ensures forall v: nat :: v < 64 ==> (Every(v, k, 4, 64) <==> k <= v && v % 4 == k)
  {
    assert Pow2(2) == 4;
    forall d | 3 <= d < 7 ensures k % Pow2(d) < Pow2(2) {
      Pow2Mono(2, d);
      DivUnique(k, 0, k, Pow2(d));
    }
    forall v: nat | k <= v ensures (v - k) % 4 == 0 <==> v % 4 == k {}
  }

  // The cast to vectors and back.
  method AvxTranspose(inout: array<Block>)
    requires inout.Length == 128
    modifies inout
    ensures inout[..] == Transpose(old(inout[..]))
  {
    hide VecAt, Transpose;
    ghost var orig := inout[..];
    ghost var T := Transpose(orig);
    var io := new Vec[64](v requires 0 <= v < 64 reads inout => Vec(inout[2 * v], inout[2 * v + 1]));
    forall v | 0 <= v < 64 ensures VecAt(io[v], T, v, 1) { NothingYet(io[v], orig, v); }
    Avx(io, T);
    for r := 0 to 128
      invariant inout[..r] == T[..r]
      invariant forall v :: 0 <= v < 64 ==> VecAt(io[v], T, v, 128)
    {
      var v := r / 2;
      AllDone(io[v], T, v);
      inout[r] := if r % 2 == 0 then io[v].lo else io[v].hi;
    }
  }

  lemma NothingYet(x: Vec, m: seq<Block>, v: nat)
    requires Square(m) && v < 64 && x == Vec(m[2 * v], m[2 * v + 1])
    ensures VecAt(x, Transpose(m), v, 1)
  {
    hide RowAt;
    RowStarts(m, 2 * v);
    RowStarts(m, 2 * v + 1);
  }

  lemma RowStarts(m: seq<Block>, r: nat)
    requires Square(m) && r < 128
    ensures RowAt(m[r], Transpose(m), r, 1)
  {
    hide Bit, Transpose;
    forall c | 0 <= c < 128 ensures EntryAt(m[r], Transpose(m), r, c, 1) {
      MixIs(r, c, 1, r, 0, c, 0);
      MixIs(c, r, 1, c, 0, r, 0);
    }
  }

  lemma AllDone(x: Vec, T: seq<Block>, v: nat)
    requires Square(T) && v < 64 && VecAt(x, T, v, 128)
    ensures x == Vec(T[2 * v], T[2 * v + 1])
  {
    hide RowAt;
    RowEnds(x.lo, T, 2 * v);
    RowEnds(x.hi, T, 2 * v + 1);
  }

  lemma RowEnds(row: Block, T: seq<Block>, r: nat)
    requires Square(T) && r < 128 && RowAt(row, T, r, 128)
    ensures row == T[r]
  {
    hide Bit;
    forall c | 0 <= c < 128 ensures Bit(row, c) == Bit(T[r], c) {
      assert EntryAt(row, T, r, c, 128);
      MixIs(r, c, 128, 0, r, 0, c);
      MixIs(c, r, 128, 0, c, 0, r);
    }
    BlockEq(row, T[r]);
  }
}
