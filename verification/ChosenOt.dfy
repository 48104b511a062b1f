// Chosen 1-out-of-2 transfer of 64-bit messages on top of random OTs, which the
// OT kernel makes from compact correlated OTs by hashing.
module ChosenOt {
  import opened Bits
  import opened Blocks
  import opened Words
  import opened OtStore
  import opened Outcome

  const MIN_OTS: nat := 2560

  datatype OtMessages = OtMessages(m0: Word, m1: Word)

  // One run of the COT protocol: what each party holds afterwards.
  datatype Cots = Cots(s: SendStore, r: RecvStore) {
    ghost predicate Valid(n: nat) {
      && s.Valid() && r.Valid() && s.ctr == r.ctr && s.size == r.size == n && r.compact
      && CompactCots(s.buf, r.buf, s.delta)
    }
  }

  // naive_cot2rot on both sides.
  method EvalRot(c: Cots, n: nat, H: Block -> Block) returns (rots: Rots)
    requires c.Valid(n)
    ensures rots.Valid() && |rots.pairs| == n
  {
    var pairs: seq<OtPair>, choices: seq<bool>, blocks: seq<Block> := [], [], [];
    for i := 0 to n
      invariant |pairs| == |choices| == |blocks| == i
      invariant forall j :: 0 <= j < i ==> blocks[j] == pairs[j].GetBlock(choices[j])
    {
      assert CompactCot(c.s.buf[c.s.ctr + i], c.r.buf[c.s.ctr + i], c.s.delta);
      pairs := pairs + [OtPair(H(c.s.GetBlock(i, false)), H(c.s.GetBlock(i, true)))];
      choices := choices + [c.r.GetChoice(i)];
      blocks := blocks + [H(c.r.GetBlock(i))];
    }
    rots := Rots(pairs, choices, blocks);
  }

  // Bit i of a packed bit vector.
  function PackedBit(words: seq<Word>, i: nat): bool
    requires i / 64 < |words|
  {
    Bit(words[i / 64], i % 64)
  }

  // Setting bit i of a packed vector sets that bit and no other.
  lemma SetPacked(words: seq<Word>, i: nat, x: Word, j: nat)
    requires i / 64 < |words| && j / 64 < |words| && x == WOr(words[i / 64], BitWord(true, i % 64))
    ensures PackedBit(words[i / 64 := x], j) == (PackedBit(words, j) || i == j)
  {
    assert i == i / 64 * 64 + i % 64 && j == j / 64 * 64 + j % 64;
  }

  // The flip bits of the receiver, packed into words; the padding stays zero.
  method PackFlips(rotChoices: seq<bool>, choices: seq<bool>) returns (packed: seq<Word>)
    requires |choices| <= |rotChoices|
    ensures |packed| == (|rotChoices| + 63) / 64
    ensures forall i :: 0 <= i < |rotChoices| ==>
      PackedBit(packed, i) == (i < |choices| && rotChoices[i] != choices[i])
  {
    hide PackedBit;
    packed := seq((|rotChoices| + 63) / 64, _ => 0);
    forall i: nat | i < |rotChoices| ensures !PackedBit(packed, i) { ZeroPacked(packed, i); }
    for i := 0 to |choices|
      invariant |packed| == (|rotChoices| + 63) / 64
      invariant forall j :: 0 <= j < |rotChoices| ==> PackedBit(packed, j) == (j < i && rotChoices[j] != choices[j])
    {
      if rotChoices[i] != choices[i] {
        ghost var was := packed;
        packed := packed[i / 64 := WOr(packed[i / 64], BitWord(true, i % 64))];
        forall j: nat | j < |rotChoices| ensures PackedBit(packed, j) == (PackedBit(was, j) || i == j) {
          SetPacked(was, i, packed[i / 64], j);
        }
      }
    }
  }

  lemma ZeroPacked(packed: seq<Word>, i: nat)
    requires i / 64 < |packed| && forall j :: 0 <= j < |packed| ==> packed[j] == 0
    ensures !PackedBit(packed, i)
  {
    BitZero(i % 64);
  }

  // The sender's corrections.
  method Corrections(pairs: seq<OtPair>, packed: seq<Word>, msgs: seq<OtMessages>) returns (corr: seq<OtMessages>)
    requires |msgs| <= |pairs| && |packed| == (|pairs| + 63) / 64
    ensures |corr| == |msgs|
    ensures forall i :: 0 <= i < |msgs| ==>
      var d := PackedBit(packed, i);
      corr[i] == OtMessages(WXor(msgs[i].m0, Trunc(if d then pairs[i].b1 else pairs[i].b0)),
                            WXor(msgs[i].m1, Trunc(if d then pairs[i].b0 else pairs[i].b1)))
  {
    corr := [];
    for i := 0 to |msgs|
      invariant |corr| == i
      invariant forall j :: 0 <= j < i ==>
        var d := PackedBit(packed, j);
        corr[j] == OtMessages(WXor(msgs[j].m0, Trunc(if d then pairs[j].b1 else pairs[j].b0)),
                              WXor(msgs[j].m1, Trunc(if d then pairs[j].b0 else pairs[j].b1)))
    {
      var d := PackedBit(packed, i);
      var s0, s1 := Trunc(pairs[i].b0), Trunc(pairs[i].b1);
      corr := corr + [OtMessages(WXor(msgs[i].m0, if d then s1 else s0), WXor(msgs[i].m1, if d then s0 else s1))];
    }
  }

  function Padded(n: nat): nat {
    if n >= MIN_OTS then n else MIN_OTS
  }

  // RunChosenOT, both roles: the receiver ends with the messages it chose. It
  // refuses to run no transfers.
  method RunChosenOT(c: Cots, msgs: seq<OtMessages>, choices: seq<bool>, H: Block -> Block) returns (r: Result<seq<Word>>)
    requires |msgs| == |choices| && c.Valid(Padded(|msgs|))
    ensures r.Ok? <==> |msgs| > 0
    ensures r.Ok? ==> |r.value| == |msgs|
    ensures r.Ok? ==> forall i :: 0 <= i < |msgs| ==> r.value[i] == if choices[i] then msgs[i].m1 else msgs[i].m0
  {
    hide PackedBit, WXor;
    if msgs == [] { return Err; }
    var rots := EvalRot(c, Padded(|msgs|), H);
    var packed := PackFlips(rots.choices, choices);
    var corr := Corrections(rots.pairs, packed, msgs);
    var results: seq<Word> := [];
    for i := 0 to |msgs|
      invariant |results| == i
      invariant forall j :: 0 <= j < i ==> results[j] == if choices[j] then msgs[j].m1 else msgs[j].m0
    {
      var block := Trunc(rots.blocks[i]);
      results := results + [WXor(if choices[i] then corr[i].m1 else corr[i].m0, block)];
      WXorCancel(if choices[i] then msgs[i].m1 else msgs[i].m0, block);
    }
    r := Ok(results);
  }
}
