// The puncturable PRF: a GGM tree whose punctured key holds the siblings of the
// path to the punctured point.
module Pprf {
  import opened Bits
  import opened Blocks
  import opened Ge2n
  import opened Outcome

  // GgmPrg: the left and the right child of a seed.
  datatype Prg = Prg(left: Block -> Block, right: Block -> Block)

  function Child(seed: Block, right: bool, g: Prg): Block {
    if right then g.right(seed) else g.left(seed)
  }

  // Down from a seed at level from to level to, along the bits of x.
  function Walk(seed: Block, x: nat, from: nat, to: nat, g: Prg): Block
    requires from <= to
  {
    if to == from then seed else Child(Walk(seed, x, from, to - 1, g), Bit(x, to - 1), g)
  }

  // The node beside the path to alpha at level i + 1.
  function Sibling(key: Block, alpha: nat, i: nat, g: Prg): Block {
    Child(Walk(key, alpha, 0, i, g), !Bit(alpha, i), g)
  }

  lemma {:induction false} WalkJoin(seed: Block, x: nat, a: nat, b: nat, c: nat, g: Prg)
    requires a <= b <= c
    ensures Walk(seed, x, a, c, g) == Walk(Walk(seed, x, a, b, g), x, b, c, g)
    decreases c
  {
    if b < c { WalkJoin(seed, x, a, b, c - 1, g); }
  }

  lemma {:induction false} WalkAgrees(seed: Block, x: nat, y: nat, i: nat, g: Prg)
    requires forall j :: 0 <= j < i ==> Bit(x, j) == Bit(y, j)
    ensures Walk(seed, x, 0, i, g) == Walk(seed, y, 0, i, g)
    decreases i
  {
    if i > 0 { WalkAgrees(seed, x, y, i - 1, g); }
  }

  // PprfEval.
  method PprfEval(key: Block, x: Block, m: nat, g: Prg) returns (out: Block)
    requires m <= 64
    ensures out == Walk(key, x, 0, m, g)
  {
    hide Bit;
    out := key;
    for i := 0 to m
      invariant out == Walk(key, x, 0, i, g)
    {
      out := if !Bit(x, i) then g.left(out) else g.right(out);
    }
  }

  class PuncKey {
    var puncPoint: Block
    var seeds: map<nat, Block>

    constructor ()
      ensures puncPoint == 0 && seeds == map[]
    {
      puncPoint, seeds := 0, map[];
    }

    // Inserting leaves an entry that is already there.
    method Insert(i: nat, x: Block)
      modifies this`seeds
      ensures seeds == if i in old(seeds) then old(seeds) else old(seeds)[i := x]
    {
      if i !in seeds { seeds := seeds[i := x]; }
    }
  }

  // What puncturing leaves in the map: at the levels from i on, the siblings,
  // except where an entry was there before.
  ghost predicate Filled(now: map<nat, Block>, was: map<nat, Block>, key: Block, alpha: nat, i: nat, m: nat, g: Prg) {
    && (forall j :: j in was ==> j in now && now[j] == was[j])
    && (forall j :: i <= j < m && j !in was ==> j in now && now[j] == Sibling(key, alpha, j, g))
    && (forall j :: j in now ==> j in was || i <= j < m)
  }

  // GgmExpandAndPunc on the part of the working vector that starts at off.
  method GgmExpandAndPunc(working: array<Block>, off: nat, num: nat, alpha: Block, m: nat, g: Prg, out: PuncKey,
                          ghost key: Block, ghost i: nat)
    requires i <= m && num == Pow2(m - i) && off + num <= working.Length
    requires working[off] == Walk(key, alpha, 0, i, g)
    modifies working, out`seeds
    ensures Filled(out.seeds, old(out.seeds), key, alpha, i, m, g)
    ensures forall k :: 0 <= k < working.Length && !(off <= k < off + num) ==> working[k] == old(working[k])
    decreases num
  {
    hide Bit, Pow2, Log2Ceil, Filled, Walk;
    var level := m - Log2Ceil(num);
    Log2OfPow2(m - i);
    ghost var was := out.seeds;
    if num > 1 {
      Halved(i, m);
      working[off], working[off + num / 2] := g.left(working[off]), g.right(working[off]);
      WalkStep(key, alpha, i, g);
      if !Bit(alpha, level) {
        GgmExpandAndPunc(working, off, num / 2, alpha, m, g, out, key, i + 1);
        ghost var mid := out.seeds;
        out.Insert(level, working[off + num / 2]);
        FilledThen(was, mid, out.seeds, key, alpha, i, m, g);
      } else {
        out.Insert(level, working[off]);
        ghost var mid := out.seeds;
        GgmExpandAndPunc(working, off + num / 2, num / 2, alpha, m, g, out, key, i + 1);
        FilledAfter(was, mid, out.seeds, key, alpha, i, m, g);
      }
    } else {
      NothingToFill(was, key, alpha, i, m, g);
    }
  }

  lemma Halved(i: nat, m: nat)
    requires i <= m && Pow2(m - i) > 1
    ensures i < m && Pow2(m - i) / 2 == Pow2(m - (i + 1)) && 2 * Pow2(m - (i + 1)) == Pow2(m - i)
  {
  }

  lemma NothingToFill(was: map<nat, Block>, key: Block, alpha: nat, i: nat, m: nat, g: Prg)
    requires i <= m && Pow2(m - i) <= 1
    ensures Filled(was, was, key, alpha, i, m, g)
  {
  }

  lemma WalkStep(key: Block, alpha: nat, i: nat, g: Prg)
    ensures Walk(key, alpha, 0, i + 1, g) == Child(Walk(key, alpha, 0, i, g), Bit(alpha, i), g)
  {
  }

  // The deeper levels first, then level i.
  lemma FilledThen(was: map<nat, Block>, mid: map<nat, Block>, now: map<nat, Block>, key: Block, alpha: nat, i: nat, m: nat, g: Prg)
    requires i < m && Filled(mid, was, key, alpha, i + 1, m, g)
    requires now == if i in mid then mid else mid[i := Sibling(key, alpha, i, g)]
    ensures Filled(now, was, key, alpha, i, m, g)
  {
    hide Sibling;
  }

  // Level i first, then the deeper ones.
  lemma FilledAfter(was: map<nat, Block>, mid: map<nat, Block>, now: map<nat, Block>, key: Block, alpha: nat, i: nat, m: nat, g: Prg)
    requires i < m && Filled(now, mid, key, alpha, i + 1, m, g)
    requires mid == if i in was then was else was[i := Sibling(key, alpha, i, g)]
    ensures Filled(now, was, key, alpha, i, m, g)
  {
    hide Sibling;
  }

  // PprfPunc.
  method PprfPunc(key: Block, alpha: Block, m: nat, g: Prg, out: PuncKey)
    requires m <= 64
    modifies out
    ensures out.puncPoint == Val(alpha, m) && Filled(out.seeds, old(out.seeds), key, Val(alpha, m), 0, m, g)
  {
    hide Filled, Sibling;
    var num := Pow2(m);
    var working := new Block[num](_ => 0);
    working[0] := key;
    GgmExpandAndPunc(working, 0, num, alpha, m, g, out, key, 0);
    MaskedPath(out.seeds, old(out.seeds), key, alpha, m, g);
    out.puncPoint := Val(alpha, m);
  }

  // Only the low m bits of the point matter.
  lemma MaskedPath(now: map<nat, Block>, was: map<nat, Block>, key: Block, alpha: Block, m: nat, g: Prg)
    requires m <= 64 && Filled(now, was, key, alpha, 0, m, g)
    ensures Filled(now, was, key, Val(alpha, m), 0, m, g)
  {
    hide Bit, Val;
    forall j | 0 <= j < m && j !in was ensures Sibling(key, alpha, j, g) == Sibling(key, Val(alpha, m), j, g) {
      forall k | 0 <= k <= j ensures Bit(alpha, k) == Bit(Val(alpha, m), k) { ValBit(alpha, m, k); }
      WalkAgrees(key, alpha, Val(alpha, m), j, g);
    }
  }

  lemma ValBit(alpha: Block, m: nat, k: nat)
    requires k < m <= 128
    ensures Bit(alpha, k) == Bit(Val(alpha, m), k)
  {
    BitOfRemainder(alpha, m, k);
  }

  // The first level at which two points part.
  function FirstDifference(x: nat, y: nat, m: nat): (i: nat)
    ensures i <= m
    ensures forall j :: 0 <= j < i ==> Bit(x, j) == Bit(y, j)
    ensures i < m ==> Bit(x, i) != Bit(y, i)
    decreases m
  {
    if m == 0 then 0
    else
      var i := FirstDifference(x, y, m - 1);
      if i < m - 1 || Bit(x, m - 1) != Bit(y, m - 1) then i else m
  }

  lemma Parts(x: Block, y: Block, m: nat)
    requires m <= 128
    ensures Val(x, m) != Val(y, m) <==> FirstDifference(x, y, m) < m
  {
    hide Bit;
    var i := FirstDifference(x, y, m);
    if i == m {
      forall k | 0 <= k < m ensures Bit(Val(x, m), k) == Bit(Val(y, m), k) {
        ValBit(x, m, k);
        ValBit(y, m, k);
      }
      BitsInjective(Val(x, m), Val(y, m), m);
    } else {
      ValBit(x, m, i);
      ValBit(y, m, i);
    }
  }

  // PprfPuncEval refuses the punctured point, and fails when the seed it needs is
  // missing; otherwise it walks down from the seed at the first difference.
  method PprfPuncEval(k: PuncKey, x: Block, m: nat, g: Prg) returns (r: Result<Block>)
    requires m <= 64
    ensures
      var i := FirstDifference(x, k.puncPoint, m);
      && (r.Ok? <==> Val(k.puncPoint, m) != Val(x, m) && i in k.seeds)
      && (r.Ok? ==> i < m && r.value == Walk(k.seeds[i], x, i + 1, m, g))
  {
    hide Bit, Val;
    ghost var d := FirstDifference(x, k.puncPoint, m);
    Parts(x, k.puncPoint, m);
    if Val(k.puncPoint, m) == Val(x, m) { return Err; }
    var isSame, retrieved, seed: Block := true, false, 0;
    for i := 0 to m
      invariant isSame == (i <= d) && retrieved == (i > d)
      invariant retrieved ==> d in k.seeds && seed == Walk(k.seeds[d], x, d + 1, i, g)
    {
      isSame := isSame && Bit(x, i) == Bit(k.puncPoint, i);
      if !isSame {
        if !retrieved {
          if i !in k.seeds { return Err; }
          seed, retrieved := k.seeds[i], true;
        } else {
          seed := if !Bit(x, i) then g.left(seed) else g.right(seed);
        }
      }
    }
    r := Ok(seed);
  }

  // The value below a sibling is the value of the PRF.
  lemma SiblingWalk(key: Block, alpha: Block, x: Block, m: nat, g: Prg)
    requires FirstDifference(x, alpha, m) < m
    ensures
      var i := FirstDifference(x, alpha, m);
      Walk(Sibling(key, alpha, i, g), x, i + 1, m, g) == Walk(key, x, 0, m, g)
  {
    hide Bit;
    var i := FirstDifference(x, alpha, m);
    WalkAgrees(key, x, alpha, i, g);
    WalkStep(key, x, i, g);
    WalkJoin(key, x, 0, i + 1, m, g);
  }

  // What evaluating x under the key object gives is the PRF value.
  ghost predicate Agrees(now: map<nat, Block>, key: Block, alpha: Block, x: Block, m: nat, g: Prg) {
    var i := FirstDifference(x, alpha, m);
    i < m && i in now && Walk(now[i], x, i + 1, m, g) == Walk(key, x, 0, m, g)
  }

  // Without an entry for the level at which x leaves the path, it does.
  lemma PunctureKeeps(now: map<nat, Block>, was: map<nat, Block>, key: Block, alpha: Block, x: Block, m: nat, g: Prg)
    requires m <= 64 && Filled(now, was, key, alpha, 0, m, g) && FirstDifference(x, alpha, m) < m
    requires FirstDifference(x, alpha, m) !in was
    ensures Agrees(now, key, alpha, x, m, g)
  {
    hide Bit;
    SiblingWalk(key, alpha, x, m, g);
  }

  // Puncturing preserves the PRF at x, whatever the generator, exactly when the
  // key object had no entry for the level at which x leaves the path.
  lemma PunctureExactly(was: map<nat, Block>, key: Block, alpha: Block, x: Block, m: nat)
    requires m <= 64 && FirstDifference(x, alpha, m) < m
    ensures (forall g: Prg, now: map<nat, Block> :: Filled(now, was, key, alpha, 0, m, g) ==> Agrees(now, key, alpha, x, m, g))
        <==> FirstDifference(x, alpha, m) !in was
  {
    hide Bit, Filled, Walk, FirstDifference;
    var i := FirstDifference(x, alpha, m);
    if i in was {
      var now, g := Disagreeing(was, key, alpha, x, m);
      assert Filled(now, was, key, alpha, 0, m, g) && !Agrees(now, key, alpha, x, m, g);
    } else {
      forall g: Prg, now: map<nat, Block> | Filled(now, was, key, alpha, 0, m, g) ensures Agrees(now, key, alpha, x, m, g) {
        PunctureKeeps(now, was, key, alpha, x, m, g);
      }
    }
  }

  // An old entry other than the key stays apart from it when every child is its
  // parent, and one equal to the key when every child is its parent plus one.
  lemma Disagreeing(was: map<nat, Block>, key: Block, alpha: Block, x: Block, m: nat) returns (now: map<nat, Block>, g: Prg)
    requires m <= 64 && FirstDifference(x, alpha, m) < m && FirstDifference(x, alpha, m) in was
    ensures Filled(now, was, key, alpha, 0, m, g) && !Agrees(now, key, alpha, x, m, g)
  {
    hide Bit, FirstDifference, Filled, Plus, Walk;
    var i := FirstDifference(x, alpha, m);
    var d := if was[i] != key then 0 else 1;
    g := Prg((b: Block) => Plus(b, d), (b: Block) => Plus(b, d));
    now := SomeFilling(was, key, alpha, m, g);
    PlusWalk(was[i], x, i + 1, m, d, g);
    PlusWalk(key, x, 0, m, d, g);
    PlusDiffers(key, m - (i + 1), m);
  }

  // Puncturing fills every map.
  lemma SomeFilling(was: map<nat, Block>, key: Block, alpha: Block, m: nat, g: Prg) returns (now: map<nat, Block>)
    ensures Filled(now, was, key, alpha, 0, m, g) && forall j :: j in was ==> j in now && now[j] == was[j]
  {
    hide Sibling;
    now := map j | j in was.Keys + Levels(m) :: if j in was then was[j] else Sibling(key, alpha, j, g);
  }

  lemma PlusDiffers(b: Block, j: nat, k: nat)
    requires j < k < SIZE
    ensures Plus(b, j) != Plus(b, k)
  {
  }

  function Levels(m: nat): (s: set<nat>)
    ensures forall k :: k in s <==> 0 <= k < m
  {
    if m == 0 then {} else Levels(m - 1) + {m - 1}
  }

  function Plus(b: Block, d: nat): Block { (b + d) % SIZE }

  lemma PlusMore(b: Block, k: nat)
    ensures Plus(b, 0) == b && Plus(Plus(b, k), 0) == Plus(b, k) && Plus(Plus(b, k), 1) == Plus(b, k + 1)
  {
  }

  lemma {:induction false} PlusWalk(seed: Block, x: nat, a: nat, b: nat, d: nat, g: Prg)
    requires a <= b <= 64 && d <= 1 && forall s: Block :: g.left(s) == g.right(s) == Plus(s, d)
    ensures Walk(seed, x, a, b, g) == if d == 0 then seed else Plus(seed, b - a)
    decreases b
  {
    hide Bit, Plus;
    PlusMore(seed, 0);
    if a < b {
      PlusWalk(seed, x, a, b - 1, d, g);
      PlusMore(seed, b - 1 - a);
    }
  }

  // A leftover entry at level 0 of the one-level tree is returned for the other
  // point, whatever the key.
  method ReusedKey(key: Block, stale: Block, g: Prg) returns (r: Result<Block>, v: Block)
    ensures r == Ok(stale) && v == g.right(key)
  {
    var k := new PuncKey();
    k.Insert(0, stale);
    PprfPunc(key, 0, 1, g, k);
    PowersOne();
    r := PprfPuncEval(k, 1, 1, g);
    v := PprfEval(key, 1, 1, g);
  }

  lemma PowersOne()
    ensures Val(0, 1) == 0 && Val(1, 1) == 1 && !Bit(0, 0) && Bit(1, 0) && FirstDifference(1, 0, 1) == 0
  {
    assert Pow2(1) == 2;
  }

  // Puncturing a fresh key preserves the PRF at every other point.
  method PunctureAndEval(key: Block, alpha: Block, x: Block, m: nat, g: Prg) returns (r: Result<Block>, v: Block)
    requires m <= 64
    ensures v == Walk(key, x, 0, m, g)
    ensures r == if Val(x, m) != Val(alpha, m) then Ok(v) else Err
  {
    hide Bit, Filled, Val, Walk;
    var k := new PuncKey();
    PprfPunc(key, alpha, m, g, k);
    r := PprfPuncEval(k, x, m, g);
    v := PprfEval(key, x, m, g);
    ValTwice(alpha, m);
    Parts(x, k.puncPoint, m);
    if Val(x, m) != Val(alpha, m) {
      PunctureKeeps(k.seeds, map[], key, Val(alpha, m), x, m, g);
    }
  }

  lemma ValTwice(x: Block, m: nat)
    requires m <= 128
    ensures Val(Val(x, m), m) == Val(x, m)
  {
    DivUnique(Val(x, m), 0, Val(x, m), Pow2(m));
  }
}
