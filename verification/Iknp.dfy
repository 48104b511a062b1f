// IKNP OT extension: 128 base OTs in the other direction and a bit-matrix
// transpose for every batch of 128.
module Iknp {
  import opened Bits
  import opened Blocks
  import opened OtStore
  import opened BitMatrix
  import opened Transposes

  // The receiver's part of a batch: what it sends and what it keeps.
  method RecvBatch(rots: Rots, i: nat, r: Block, G: (Block, nat) -> Block) returns (u: array<Block>, t: array<Block>)
    requires rots.Valid() && |rots.pairs| == 128
    ensures fresh(u) && fresh(t) && u != t && u.Length == t.Length == 128
    ensures forall k :: 0 <= k < 128 ==> t[k] == G(rots.pairs[k].b0, i)
    ensures forall k :: 0 <= k < 128 ==> u[k] == Xor(Xor(G(rots.pairs[k].b0, i), G(rots.pairs[k].b1, i)), r)
  {
    hide Xor;
    u, t := new Block[128], new Block[128];
    for k := 0 to 128
      invariant forall j :: 0 <= j < k ==> t[j] == G(rots.pairs[j].b0, i)
      invariant forall j :: 0 <= j < k ==> u[j] == Xor(Xor(G(rots.pairs[j].b0, i), G(rots.pairs[j].b1, i)), r)
    {
      u[k] := Xor(Xor(G(rots.pairs[k].b0, i), G(rots.pairs[k].b1, i)), r);
      t[k] := G(rots.pairs[k].b0, i);
    }
  }

  // The sender's part: its matrix is the receiver's, with r added to the rows
  // its base choices select.
  method SendBatch(rots: Rots, i: nat, u: array<Block>, ghost r: Block, G: (Block, nat) -> Block) returns (q: array<Block>)
    requires rots.Valid() && |rots.pairs| == 128 && u.Length == 128
    requires forall k :: 0 <= k < 128 ==> u[k] == Xor(Xor(G(rots.pairs[k].b0, i), G(rots.pairs[k].b1, i)), r)
    ensures fresh(q) && q.Length == 128
    ensures forall k :: 0 <= k < 128 ==> G(rots.pairs[k].b0, i) == Xor(q[k], Times(rots.choices[k], r))
  {
    hide Xor;
    q := new Block[128];
    for k := 0 to 128
      invariant forall j :: 0 <= j < k ==> G(rots.pairs[j].b0, i) == Xor(q[j], Times(rots.choices[j], r))
    {
      q[k] := u[k];
      if rots.choices[k] {
        q[k] := Xor(q[k], G(rots.blocks[k], i));
      } else {
        q[k] := G(rots.blocks[k], i);
      }
      Unchosen(G(rots.pairs[k].b0, i), G(rots.pairs[k].b1, i), r);
    }
  }

  lemma Unchosen(a: Block, b: Block, r: Block)
    ensures Xor(Xor(Xor(Xor(a, b), r), b), r) == a && Xor(a, Zero()) == a
  {
    BlockEq(Xor(Xor(Xor(Xor(a, b), r), b), r), a);
    XorZero(a);
  }

  // A batch up to the transposes: the rows of the two sides differ by s where
  // the receiver's choice is set.
  method Rows(rots: Rots, i: nat, r: Block, ghost s: Block, G: (Block, nat) -> Block, cpu: Cpu)
    returns (q: array<Block>, t: array<Block>)
    requires rots.Valid() && |rots.pairs| == 128 && forall k :: 0 <= k < 128 ==> Bit(s, k) == rots.choices[k]
    ensures fresh(q) && fresh(t) && q.Length == t.Length == 128
    ensures forall k :: 0 <= k < 128 ==> t[k] == Xor(q[k], Times(Bit(r, k), s))
  {
    hide Bit, Xor, Transpose;
    var u;
    u, t := RecvBatch(rots, i, r, G);
    q := SendBatch(rots, i, u, r, G);
    TransposeCorrelated(q[..], t[..], r, s);
    ghost var q', t' := Transpose(q[..]), Transpose(t[..]);
    MatrixTranspose(t, cpu);
    MatrixTranspose(q, cpu);
    assert forall k :: 0 <= k < 128 ==> t[k] == t'[k] && q[k] == q'[k];
  }

  // What the last step makes of a row: in random-OT mode it is hashed.
  function Final(cot: bool, x: Block, H: Block -> Block): Block {
    if cot then x else H(x)
  }

  // Copies the rows of a batch that are asked for.
  method Deliver(q: array<Block>, t: array<Block>, s: Block, cot: bool, base: nat, send: array<OtPair>, recv: array<Block>,
                 H: Block -> Block)
    requires q.Length == t.Length == 128 && base < send.Length == recv.Length && recv != q && recv != t
    modifies send, recv
    ensures send[..base] == old(send[..base]) && recv[..base] == old(recv[..base])
    ensures forall j :: base <= j < send.Length && j < base + 128 ==>
      && recv[j] == Final(cot, t[j - base], H)
      && send[j] == OtPair(Final(cot, q[j - base], H), Final(cot, Xor(q[j - base], s), H))
  {
    hide Xor;
    var limit := if send.Length - base < 128 then send.Length - base else 128;
    for j := 0 to limit
      invariant send[..base] == old(send[..base]) && recv[..base] == old(recv[..base])
      invariant forall k :: base <= k < base + j ==>
        && recv[k] == Final(cot, t[k - base], H)
        && send[k] == OtPair(Final(cot, q[k - base], H), Final(cot, Xor(q[k - base], s), H))
    {
      send[base + j] := OtPair(Final(cot, q[j], H), Final(cot, Xor(q[j], s), H));
      recv[base + j] := Final(cot, t[j], H);
    }
  }

  // Every receiver block is the sender's block for its choice; in COT mode the
  // sender's blocks differ by s.
  ghost predicate Extended(send: seq<OtPair>, recv: seq<Block>, choices: seq<bool>, n: nat, cot: bool, s: Block)
    requires n <= |send| == |recv| == |choices|
  {
    forall j :: 0 <= j < n ==> recv[j] == send[j].GetBlock(choices[j]) && (cot ==> send[j].b1 == Xor(send[j].b0, s))
  }

  // One batch on both sides.
  method Batch(rots: Rots, choices: seq<bool>, i: nat, s: Block, send: array<OtPair>, recv: array<Block>, cot: bool,
               G: (Block, nat) -> Block, H: Block -> Block, cpu: Cpu)
    requires rots.Valid() && |rots.pairs| == 128 && 128 * i < |choices| == send.Length == recv.Length
    requires forall k :: 0 <= k < 128 ==> Bit(s, k) == rots.choices[k]
    requires Extended(send[..], recv[..], choices, 128 * i, cot, s)
    modifies send, recv
    ensures Extended(send[..], recv[..], choices, if 128 * i + 128 <= |choices| then 128 * i + 128 else |choices|, cot, s)
  {
    hide Bit, Xor, Times, Rots.Valid, Extended, Final;
    var r := ChoiceBlock(choices, i);
    var q, t := Rows(rots, i, r, s, G, cpu);
    ghost var was, had := send[..], recv[..];
    Deliver(q, t, s, cot, 128 * i, send, recv, H);
    BatchDone(was, had, send[..], recv[..], choices, 128 * i, q[..], t[..], r, cot, s, H);
  }

  // The rows of a batch continue what the earlier batches delivered.
  lemma BatchDone(was: seq<OtPair>, had: seq<Block>, send: seq<OtPair>, recv: seq<Block>, choices: seq<bool>, base: nat,
                  q: seq<Block>, t: seq<Block>, r: Block, cot: bool, s: Block, H: Block -> Block)
    requires |was| == |had| == |send| == |recv| == |choices| && base < |choices| && |q| == |t| == 128
    requires Extended(was, had, choices, base, cot, s)
    requires send[..base] == was[..base] && recv[..base] == had[..base]
    requires forall k :: 0 <= k < 128 ==> t[k] == Xor(q[k], Times(Bit(r, k), s))
    requires forall k :: 0 <= k < 128 && base + k < |choices| ==> Bit(r, k) == choices[base + k]
    requires forall j :: base <= j < |choices| && j < base + 128 ==>
      && recv[j] == Final(cot, t[j - base], H)
      && send[j] == OtPair(Final(cot, q[j - base], H), Final(cot, Xor(q[j - base], s), H))
    ensures Extended(send, recv, choices, if base + 128 <= |choices| then base + 128 else |choices|, cot, s)
  {
    hide Bit, Xor;
    forall j | 0 <= j < |choices| && j < base + 128
      ensures recv[j] == send[j].GetBlock(choices[j]) && (cot ==> send[j].b1 == Xor(send[j].b0, s))
    {
      if j < base {
        assert send[..base][j] == was[..base][j] && recv[..base][j] == had[..base][j];
      } else {
        var k := j - base;
        assert Bit(r, k) == choices[base + k];
        XorZero(q[k]);
      }
    }
  }

  // IknpOtExtSend and IknpOtExtRecv, for any number of OTs.
  method IknpOtExt(rots: Rots, choices: seq<bool>, send: array<OtPair>, recv: array<Block>, cot: bool,
                   G: (Block, nat) -> Block, H: Block -> Block, cpu: Cpu) returns (ok: bool, s: Block)
    requires rots.Valid() && send.Length == recv.Length
    modifies send, recv
    ensures ok == (|rots.pairs| == 128 && recv.Length == |choices| && recv.Length > 0)
    ensures ok ==> forall k :: 0 <= k < 128 ==> Bit(s, k) == rots.choices[k]
    ensures ok ==> Extended(send[..], recv[..], choices, |choices|, cot, s)
  {
    hide Bit, Extended;
    s := 0;
    ok := |rots.pairs| == 128 && recv.Length == |choices| && recv.Length > 0;
    if ok {
      s := ChoiceBlock(rots.choices, 0);
      var batchNum := (send.Length + 127) / 128;
      NoneExtended(send[..], recv[..], choices, cot, s);
      for i := 0 to batchNum
        invariant Extended(send[..], recv[..], choices, if 128 * i <= |choices| then 128 * i else |choices|, cot, s)
      {
        Batch(rots, choices, i, s, send, recv, cot, G, H, cpu);
      }
    }
  }

  lemma NoneExtended(send: seq<OtPair>, recv: seq<Block>, choices: seq<bool>, cot: bool, s: Block)
    requires |send| == |recv| == |choices|
    ensures Extended(send, recv, choices, 0, cot, s)
  {
  }
}
