// Correlated OT stores: a slice of a block buffer, with the choice bits either
// beside it (normal mode) or in the low bit of each block (compact mode).
module OtStore {
  import opened Blocks

  datatype SendStore = SendStore(buf: seq<Block>, delta: Block, ctr: nat, size: nat) {
    ghost predicate Valid() {
      ctr + size <= |buf|
    }

    function GetBlock(i: nat, msg: bool): Block
      requires Valid() && i < size
    {
      Xor(buf[ctr + i], Times(msg, delta))
    }

    // The bounds count from the start of the underlying buffer.
    function Slice(begin: nat, end: nat): SendStore
      requires begin <= end <= |buf|
    {
      SendStore(buf, delta, begin, end - begin)
    }
  }

  datatype RecvStore = RecvStore(compact: bool, bits: seq<bool>, buf: seq<Block>, ctr: nat, size: nat) {
    ghost predicate Valid() {
      ctr + size <= |buf| && (!compact ==> |bits| == |buf|)
    }

    function GetBlock(i: nat): Block
      requires Valid() && i < size
    {
      buf[ctr + i]
    }

    function GetChoice(i: nat): bool
      requires Valid() && i < size
    {
      if compact then Lsb(buf[ctr + i]) else bits[ctr + i]
    }

    function Slice(begin: nat, end: nat): RecvStore
      requires begin <= end <= |buf|
    {
      RecvStore(compact, bits, buf, begin, end - begin)
    }
  }

  datatype OtPair = OtPair(b0: Block, b1: Block) {
    function GetBlock(msg: bool): Block { if msg then b1 else b0 }
  }

  // Random OTs: both stores in normal mode.
  datatype Rots = Rots(pairs: seq<OtPair>, choices: seq<bool>, blocks: seq<Block>) {
    ghost predicate Valid() {
      && |pairs| == |choices| == |blocks|
      && forall i :: 0 <= i < |pairs| ==> blocks[i] == pairs[i].GetBlock(choices[i])
    }
  }

  // Every receiver block is the sender's message for the receiver's choice.
  ghost predicate Correlated(s: SendStore, r: RecvStore) {
    && s.Valid() && r.Valid() && s.size == r.size
    && forall i :: 0 <= i < s.size ==> r.GetBlock(i) == s.GetBlock(i, r.GetChoice(i))
  }

  // The compact relation: the low bit of the receiver's block is the choice, and
  // the sender's low bit is zero.
  ghost predicate CompactCot(s: Block, r: Block, delta: Block) {
    !Lsb(s) && r == Xor(s, Times(Lsb(r), delta))
  }

  ghost predicate CompactCots(s: seq<Block>, r: seq<Block>, delta: Block) {
    |s| == |r| && forall i :: 0 <= i < |s| ==> CompactCot(s[i], r[i], delta)
  }

  // XOR keeps the compact relation.
  lemma CompactXor(s: Block, r: Block, t: Block, u: Block, delta: Block)
    requires CompactCot(s, r, delta) && CompactCot(t, u, delta)
    ensures CompactCot(Xor(s, t), Xor(r, u), delta)
  {
    var b, c := Lsb(r), Lsb(u);
    Xor4(s, Times(b, delta), t, Times(c, delta));
    TimesXor(b, c, delta);
  }

  // A slice of compact COTs is correlated.
  lemma SliceCorrelated(s: SendStore, r: RecvStore, begin: nat, end: nat)
    requires r.compact && begin <= end <= |s.buf| && CompactCots(s.buf, r.buf, s.delta)
    ensures Correlated(s.Slice(begin, end), r.Slice(begin, end))
  {
    var a, b := s.Slice(begin, end), r.Slice(begin, end);
    forall i | 0 <= i < end - begin ensures b.GetBlock(i) == a.GetBlock(i, b.GetChoice(i)) {
      assert CompactCot(s.buf[begin + i], r.buf[begin + i], s.delta);
    }
  }
}
