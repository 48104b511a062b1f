// Ferret OT extension with regular noise: bins of single-point COTs, a local
// linear code, and batches that pay for the next batch out of their own tail.
// The two parties run the same loops; they are run here in lockstep.
module Ferret {
  import opened Bits
  import opened Blocks
  import opened OtStore
  import SinglePointCot

  function DivCeil(x: nat, y: nat): nat
    requires y > 0
  {
    if x == 0 then 0 else 1 + (x - 1) / y
  }

  // MpCotRNHelper: the COTs one multi-point COT uses up, one per tree level.
  function MpCotNum(idxNum: nat, idxRange: nat): int
    requires idxNum > 0 && (idxRange + idxNum - 1) / idxNum > 0
    requires idxRange > (idxRange + idxNum - 1) / idxNum * (idxNum - 1)
  {
    var batchSize := (idxRange + idxNum - 1) / idxNum;
    var lastSize := idxRange - batchSize * (idxNum - 1);
    Log2Ceil(batchSize) * (idxNum - 1) + Log2Ceil(lastSize)
  }

  // When the range is t bins of s slots, every bin costs Log2Ceil(s).
  lemma MpCotNumEven(t: nat, s: nat)
    requires t > 0 && s > 0
    ensures (t * s + t - 1) / t == s && s * (t - 1) < t * s
    ensures MpCotNum(t, t * s) == t * Log2Ceil(s)
  {
    hide Log2Ceil;
    EvenSplit(t, s);
    Regroup(Log2Ceil(s), t);
  }

  lemma EvenSplit(t: nat, s: nat)
    requires t > 0 && s > 0
    ensures (t * s + t - 1) / t == s && t * s - s * (t - 1) == s
  {
    assert t * s + t - 1 == s * t + (t - 1);
    DivUnique(t * s + t - 1, s, t - 1, t);
  }

  lemma Regroup(h: nat, t: nat)
    requires t > 0
    ensures h * (t - 1) + h == t * h
  {
  }

  // ---- The multi-point COT ------------------------------------------------

  // One bin: a single-point COT over a slice of the store, written at off.
  method Bin(sender: SendStore, receiver: RecvStore, begin: nat, n: nat, seed: Block, H: Block -> Block,
             outS: array<Block>, outR: array<Block>, off: nat)
    requires n > 1 && begin + Log2Ceil(n) <= |sender.buf|
    requires receiver.compact && Lsb(sender.delta) && CompactCots(sender.buf, receiver.buf, sender.delta)
    requires outS != outR && off + n <= outS.Length == outR.Length
    modifies outS, outR
    ensures CompactCots(outS[off..off + n], outR[off..off + n], sender.delta)
    ensures outS[..off] == old(outS[..off]) && outR[..off] == old(outR[..off])
  {
    hide Log2Ceil, Correlated, CompactCot, Lsb;
    var s, r := new Block[n](_ => Zero()), new Block[n](_ => Zero());
    SliceCorrelated(sender, receiver, begin, begin + Log2Ceil(n));
    SinglePointCot.FerretCot(sender.Slice(begin, begin + Log2Ceil(n)), receiver.Slice(begin, begin + Log2Ceil(n)),
                             n, seed, s, r, H);
    Store(s, outS, off);
    Store(r, outR, off);
    assert s[..] == s[..n] && r[..] == r[..n];
  }

  method Store(s: array<Block>, out: array<Block>, off: nat)
    requires s != out && off + s.Length <= out.Length
    modifies out
    ensures out[off..off + s.Length] == s[..]
    ensures out[..off] == old(out[..off])
  {
    for i := 0 to s.Length
      invariant out[off..off + i] == s[..i]
      invariant out[..off] == old(out[..off])
    {
      out[off + i] := s[i];
    }
    assert s[..s.Length] == s[..];
  }

  lemma CompactAppend(s: seq<Block>, r: seq<Block>, t: seq<Block>, u: seq<Block>, delta: Block)
    requires CompactCots(s, r, delta) && CompactCots(t, u, delta)
    ensures CompactCots(s + t, r + u, delta)
  {
  }

  lemma CompactEmpty(s: seq<Block>, r: seq<Block>, delta: Block)
    requires s == [] && r == []
    ensures CompactCots(s, r, delta)
  {
  }

  // A single slot takes the store's own COT.
  lemma CompactOne(sender: SendStore, receiver: RecvStore, i: nat, s: seq<Block>, r: seq<Block>)
    requires sender.Valid() && receiver.Valid() && sender.ctr == receiver.ctr && i < sender.size == receiver.size
    requires CompactCots(sender.buf, receiver.buf, sender.delta)
    requires s == [sender.GetBlock(i, false)] && r == [receiver.GetBlock(i)]
    ensures CompactCots(s, r, sender.delta)
  {
    XorZero(sender.buf[sender.ctr + i]);
  }

  // The slots from base to off are compact COTs; those before base are ps and pr.
  ghost predicate Made(outS: array<Block>, outR: array<Block>, base: nat, off: nat, ps: seq<Block>, pr: seq<Block>,
                       delta: Block)
    reads outS, outR
  {
    && base <= off <= outS.Length == outR.Length
    && CompactCots(outS[base..off], outR[base..off], delta)
    && outS[..base] == ps && outR[..base] == pr
  }

  lemma NoneMade(outS: array<Block>, outR: array<Block>, base: nat, delta: Block)
    requires base <= outS.Length == outR.Length
    ensures Made(outS, outR, base, base, outS[..base], outR[..base], delta)
  {
  }

  lemma MadeParts(outS: array<Block>, outR: array<Block>, base: nat, off: nat, ps: seq<Block>, pr: seq<Block>,
                  delta: Block)
    requires Made(outS, outR, base, off, ps, pr, delta)
    ensures base <= off <= outS.Length == outR.Length
    ensures CompactCots(outS[base..off], outR[base..off], delta)
    ensures outS[..base] == ps && outR[..base] == pr
    ensures outS[..off][base..] == outS[base..off] && outR[..off][base..] == outR[base..off]
    ensures outS[..off][..base] == ps && outR[..off][..base] == pr
  {
    hide CompactCots;
  }

  // One bin more: the slots from base on are compact COTs up to its end.
  method NextBin(sender: SendStore, receiver: RecvStore, begin: nat, n: nat, seed: Block, H: Block -> Block,
                 outS: array<Block>, outR: array<Block>, ghost base: nat, off: nat,
                 ghost ps: seq<Block>, ghost pr: seq<Block>)
    requires n > 1 && begin + Log2Ceil(n) <= sender.size
    requires sender.Valid() && receiver.Valid() && sender.ctr == receiver.ctr && sender.size == receiver.size
    requires receiver.compact && Lsb(sender.delta) && CompactCots(sender.buf, receiver.buf, sender.delta)
    requires outS != outR && base <= off && off + n <= outS.Length == outR.Length
    requires Made(outS, outR, base, off, ps, pr, sender.delta)
    modifies outS, outR
    ensures Made(outS, outR, base, off + n, ps, pr, sender.delta)
  {
    hide Log2Ceil, CompactCots, Made;
    ghost var ws, wr := outS[..off], outR[..off];
    MadeParts(outS, outR, base, off, ps, pr, sender.delta);
    Bin(sender, receiver, begin, n, seed, H, outS, outR, off);
    ExtendPart(outS, outR, base, off, off + n, ws, wr, ps, pr, sender.delta);
  }

  // The last bin may be short, and with one slot takes a base COT as it is.
  method LastBin(sender: SendStore, receiver: RecvStore, begin: nat, spSize: nat, n: nat, seed: Block, H: Block -> Block,
                 outS: array<Block>, outR: array<Block>, ghost base: nat, off: nat,
                 ghost ps: seq<Block>, ghost pr: seq<Block>)
    requires 1 <= n <= spSize && spSize >= 2 && begin + Log2Ceil(spSize) <= sender.size
    requires sender.Valid() && receiver.Valid() && sender.ctr == receiver.ctr && sender.size == receiver.size
    requires receiver.compact && Lsb(sender.delta) && CompactCots(sender.buf, receiver.buf, sender.delta)
    requires outS != outR && base <= off && off + n <= outS.Length == outR.Length
    requires Made(outS, outR, base, off, ps, pr, sender.delta)
    modifies outS, outR
    ensures Made(outS, outR, base, off + n, ps, pr, sender.delta)
  {
    hide Log2Ceil, CompactCots, Made;
    if n == 1 {
      ghost var ws, wr := outS[..off], outR[..off];
      MadeParts(outS, outR, base, off, ps, pr, sender.delta);
      outS[off] := sender.GetBlock(begin, false);
      outR[off] := receiver.GetBlock(begin);
      CompactOne(sender, receiver, begin, outS[off..off + 1], outR[off..off + 1]);
      ExtendPart(outS, outR, base, off, off + 1, ws, wr, ps, pr, sender.delta);
    } else {
      Log2CeilMono(n, spSize);
      NextBin(sender, receiver, begin, n, seed, H, outS, outR, base, off, ps, pr);
    }
  }

  // MpCotRNSend and MpCotRNRecv: out[base..base + range] becomes compact COTs.
  method MpCot(sender: SendStore, receiver: RecvStore, range: nat, idxNum: nat, spSize: nat, seeds: nat -> Block,
               H: Block -> Block, outS: array<Block>, outR: array<Block>, base: nat)
    requires spSize >= 2 && range >= 1 && DivCeil(range, spSize) <= idxNum
    requires sender.Valid() && receiver.Valid() && sender.ctr == receiver.ctr && sender.size == receiver.size
    requires BinCots(idxNum, spSize) <= sender.size
    requires receiver.compact && Lsb(sender.delta) && CompactCots(sender.buf, receiver.buf, sender.delta)
    requires outS != outR && base + range <= outS.Length == outR.Length
    modifies outS, outR
    ensures CompactCots(outS[base..base + range], outR[base..base + range], sender.delta)
    ensures outS[..base] == old(outS[..base]) && outR[..base] == old(outR[..base])
  {
    hide Log2Ceil, DivCeil, CompactCots, BinAt, Bins, BinCots, Made;
    var binNum := DivCeil(range, spSize);
    var length := Log2Ceil(spSize);
    BinBounds(range, spSize, binNum, idxNum);
    ghost var ps, pr := outS[..base], outR[..base];
    NoneMade(outS, outR, base, sender.delta);
    var off, begin := base, 0;
    for i := 0 to binNum - 1
      invariant base <= off <= base + range && BinAt(off - base, begin, i, spSize)
      invariant Made(outS, outR, base, off, ps, pr, sender.delta)
    {
      BinStep(off - base, begin, i, spSize, range, binNum, idxNum);
      NextBin(sender, receiver, begin, spSize, seeds(i), H, outS, outR, base, off, ps, pr);
      off, begin := off + spSize, begin + length;
    }
    BinRest(off - base, begin, binNum, spSize, range, idxNum);
    var lastSize := range - (off - base);
    LastBin(sender, receiver, begin, spSize, lastSize, seeds(binNum - 1), H, outS, outR, base, off, ps, pr);
    MadeParts(outS, outR, base, base + range, ps, pr, sender.delta);
  }

  // What was written before off stays, the part from off on is new.
  lemma ExtendPart(outS: array<Block>, outR: array<Block>, base: nat, off: nat, end: nat,
                   ws: seq<Block>, wr: seq<Block>, ps: seq<Block>, pr: seq<Block>, delta: Block)
    requires base <= off <= end <= outS.Length == outR.Length
    requires ws == outS[..off] && wr == outR[..off] && CompactCots(ws[base..], wr[base..], delta)
    requires ws[..base] == ps && wr[..base] == pr
    requires CompactCots(outS[off..end], outR[off..end], delta)
    ensures Made(outS, outR, base, end, ps, pr, delta)
  {
    hide CompactCots;
    assert outS[base..off] == ws[base..] && outR[base..off] == wr[base..];
    Extend(outS, outR, base, off, end, ws[base..], wr[base..], delta);
  }

  // The part before off is unchanged, the part from off on is new.
  lemma Extend(outS: array<Block>, outR: array<Block>, base: nat, off: nat, end: nat,
               ps: seq<Block>, pr: seq<Block>, delta: Block)
    requires base <= off <= end <= outS.Length == outR.Length
    requires outS[base..off] == ps && outR[base..off] == pr && CompactCots(ps, pr, delta)
    requires CompactCots(outS[off..end], outR[off..end], delta)
    ensures CompactCots(outS[base..end], outR[base..end], delta)
  {
    CompactAppend(ps, pr, outS[off..end], outR[off..end], delta);
    assert outS[base..end] == ps + outS[off..end];
    assert outR[base..end] == pr + outR[off..end];
  }

  // The noise is split into t bins of one size.
  predicate EvenBins(n: nat, t: nat, spSize: nat) {
    t >= 1 && spSize >= 2 && n == t * spSize
  }

  lemma EvenCots(n: nat, t: nat, spSize: nat)
    requires EvenBins(n, t, spSize)
    ensures t >= 1 && spSize >= 2 && (n + t - 1) / t == spSize && spSize * (t - 1) < n
    ensures MpCotNum(t, n) == BinCots(t, spSize)
  {
    MpCotNumEven(t, spSize);
  }

  // The base COTs a number of bins takes.
  function BinCots(bins: nat, spSize: nat): nat
    requires spSize >= 1
  {
    bins * Log2Ceil(spSize)
  }

  // All bins but the last are full.
  ghost predicate Bins(range: nat, spSize: nat, binNum: nat) {
    (binNum - 1) * spSize < range <= binNum * spSize
  }

  // Bin i starts at output off and at base COT begin.
  ghost predicate BinAt(off: int, begin: int, i: nat, spSize: nat)
    requires spSize >= 1
  {
    off == i * spSize && begin == BinCots(i, spSize)
  }

  lemma BinBounds(range: nat, spSize: nat, binNum: nat, idxNum: nat)
    requires spSize >= 2 && range >= 1 && binNum == DivCeil(range, spSize) <= idxNum
    ensures binNum >= 1 && Bins(range, spSize, binNum) && BinAt(0, 0, 0, spSize)
  {
    var q := (range - 1) / spSize;
    assert range - 1 == q * spSize + (range - 1) % spSize;
    assert (q + 1) * spSize == q * spSize + spSize;
  }

  // A full bin fits, both in the outputs and in the base COTs.
  lemma BinStep(off: nat, begin: nat, i: nat, spSize: nat, range: nat, binNum: nat, idxNum: nat)
    requires spSize >= 1 && BinAt(off, begin, i, spSize) && i + 1 < binNum <= idxNum && Bins(range, spSize, binNum)
    ensures BinAt(off + spSize, begin + Log2Ceil(spSize), i + 1, spSize)
    ensures off + spSize <= range && begin + Log2Ceil(spSize) <= BinCots(idxNum, spSize)
  {
    hide Log2Ceil;
    MulMono(i + 1, binNum - 1, spSize);
    MulMono(i + 1, idxNum, Log2Ceil(spSize));
  }

  // The last bin takes what is left, at most a full bin.
  lemma BinRest(off: nat, begin: nat, binNum: nat, spSize: nat, range: nat, idxNum: nat)
    requires spSize >= 1 && 1 <= binNum <= idxNum && BinAt(off, begin, binNum - 1, spSize) && Bins(range, spSize, binNum)
    ensures off < range <= off + spSize && begin + Log2Ceil(spSize) <= BinCots(idxNum, spSize)
  {
    hide Log2Ceil;
    var length := Log2Ceil(spSize);
    assert (binNum - 1) * spSize + spSize == binNum * spSize;
    assert (binNum - 1) * length + length == binNum * length;
    MulMono(binNum, idxNum, length);
  }

  // ---- The linear code ----------------------------------------------------

  function Pick(v: seq<Block>, idx: seq<nat>): (p: seq<Block>)
    requires forall i :: 0 <= i < |idx| ==> idx[i] < |v|
    ensures |p| == |idx| && forall i :: 0 <= i < |idx| ==> p[i] == v[idx[i]]
  {
    seq(|idx|, i requires 0 <= i < |idx| => v[idx[i]])
  }

  // Column j of the code adds the inputs listed in cols(j) to output j.
  ghost predicate CodeFor(cols: nat -> seq<nat>, k: nat) {
    forall j: nat, i :: 0 <= i < |cols(j)| ==> cols(j)[i] < k
  }

  // LocalLinearCode.Encode: out = out + in * A.
  method Encode(v: seq<Block>, out: array<Block>, base: nat, len: nat, cols: nat -> seq<nat>)
    requires CodeFor(cols, |v|) && base + len <= out.Length
    modifies out
    ensures forall j :: base <= j < base + len ==> out[j] == Xor(old(out[j]), XorSum(Pick(v, cols(j - base))))
    ensures out[..base] == old(out[..base])
  {
    hide Xor, XorSum;
    for j := 0 to len
      invariant forall i :: base <= i < base + j ==> out[i] == Xor(old(out[i]), XorSum(Pick(v, cols(i - base))))
      invariant forall i :: base + j <= i < out.Length ==> out[i] == old(out[i])
      invariant out[..base] == old(out[..base])
    {
      out[base + j] := EncodeOne(out[base + j], v, cols(j));
    }
  }

  method EncodeOne(val: Block, v: seq<Block>, idx: seq<nat>) returns (r: Block)
    requires forall i :: 0 <= i < |idx| ==> idx[i] < |v|
    ensures r == Xor(val, XorSum(Pick(v, idx)))
  {
    ghost var p := Pick(v, idx);
    r := val;
    XorZero(val);
    assert p[..0] == [];
    for i := 0 to |idx|
      invariant r == Xor(val, XorSum(p[..i]))
    {
      XorSumSnoc(p[..i], p[i]);
      XorAssoc(val, XorSum(p[..i]), p[i]);
      assert p[..i + 1] == p[..i] + [p[i]];
      r := Xor(r, v[idx[i]]);
    }
    assert p[..|idx|] == p;
  }

  // A sum of compact COTs is a compact COT.
  lemma {:induction false} SumCompact(s: seq<Block>, r: seq<Block>, delta: Block)
    requires CompactCots(s, r, delta)
    ensures CompactCot(XorSum(s), XorSum(r), delta)
    decreases |s|
  {
    if s == [] {
      XorZero(Zero());
    } else {
      var l := |s| - 1;
      SumCompact(s[..l], r[..l], delta);
      CompactXor(XorSum(s[..l]), XorSum(r[..l]), s[l], r[l], delta);
    }
  }

  // Both parties encode: the outputs stay compact COTs.
  method EncodeBoth(v: seq<Block>, w: seq<Block>, outS: array<Block>, outR: array<Block>, base: nat, len: nat,
                    cols: nat -> seq<nat>, ghost delta: Block)
    requires CodeFor(cols, |v|) && CompactCots(v, w, delta)
    requires outS != outR && base + len <= outS.Length == outR.Length
    requires CompactCots(outS[base..base + len], outR[base..base + len], delta)
    modifies outS, outR
    ensures CompactCots(outS[base..base + len], outR[base..base + len], delta)
    ensures outS[..base] == old(outS[..base]) && outR[..base] == old(outR[..base])
  {
    hide Xor, XorSum, CompactCot;
    ghost var s, r := outS[base..base + len], outR[base..base + len];
    Encode(v, outS, base, len, cols);
    Encode(w, outR, base, len, cols);
    forall j | base <= j < base + len ensures CompactCot(outS[j], outR[j], delta) {
      var c := cols(j - base);
      assert CompactCots(Pick(v, c), Pick(w, c), delta);
      SumCompact(Pick(v, c), Pick(w, c), delta);
      assert CompactCot(s[j - base], r[j - base], delta);
      CompactXor(s[j - base], r[j - base], XorSum(Pick(v, c)), XorSum(Pick(w, c)), delta);
    }
  }

  // ---- The batches --------------------------------------------------------

  lemma CompactPart(s: seq<Block>, r: seq<Block>, lo: nat, hi: nat, delta: Block)
    requires CompactCots(s, r, delta) && lo <= hi <= |s|
    ensures CompactCots(s[lo..hi], r[lo..hi], delta)
  {
  }

  // The batch loop: ot_num compact COTs out of k + mpcot base COTs. The tail of a batch, from batch_size on, is the k seeds and the
  // mpcot COTs of the next; the outputs are complete when the loop breaks.
  method Batches(baseS: SendStore, baseR: RecvStore, n: nat, k: nat, t: nat, spSize: nat, otNum: nat,
                     outS: array<Block>, outR: array<Block>, cols: nat -> seq<nat>,
                     seeds: (nat, nat) -> Block, H: Block -> Block)
    requires EvenBins(n, t, spSize) && CodeFor(cols, k)
    requires k + BinCots(t, spSize) < n && otNum >= 2 * t
    requires baseS.Valid() && baseR.Valid() && baseS.ctr == baseR.ctr && baseS.size == baseR.size
    requires baseS.size >= k + BinCots(t, spSize)
    requires baseR.compact && Lsb(baseS.delta) && CompactCots(baseS.buf, baseR.buf, baseS.delta)
    requires outS != outR && outS.Length == outR.Length == otNum
    modifies outS, outR
    ensures CompactCots(outS[..], outR[..], baseS.delta)
  {
    hide Log2Ceil, MpCotNum, CompactCots, CodeFor, BatchNum, StartsAt, Ready, EvenBins, BinCots;
    FirstBatch();
    var delta := baseS.delta;
    EvenCots(n, t, spSize);
    var mpcotNum := MpCotNum(t, n);
    var cacheSize := k + mpcotNum;
    var batchSize := n - cacheSize;
    var batchNum := BatchNum(otNum, batchSize);
    var cotS, cotR := baseS.Slice(0, mpcotNum), baseR.Slice(0, mpcotNum);
    var workingV, workingW := baseS.buf[mpcotNum..mpcotNum + k], baseR.buf[mpcotNum..mpcotNum + k];
    CompactPart(baseS.buf, baseR.buf, mpcotNum, mpcotNum + k, delta);
    FirstReady(baseS, baseR, mpcotNum);
    CompactEmpty(outS[..0], outR[..0], delta);
    var i, base := 0, 0;
    while i < batchNum
      invariant 0 <= i && 0 <= base < otNum && StartsAt(base, i, batchSize)
      invariant Ready(cotS, cotR, delta, mpcotNum)
      invariant |workingV| == k && CompactCots(workingV, workingW, delta)
      invariant CompactCots(outS[..base], outR[..base], delta)
    {
      var batchOtNum := if n <= otNum - base then n else otNum - base;
      Batch(cotS, cotR, n, t, spSize, batchOtNum, outS, outR, base, workingV, workingW, cols, j => seeds(i, j), H, delta);
      if otNum - base > batchOtNum {
        workingV, workingW, cotS, cotR := NextBatch(outS, outR, base + batchSize, k, mpcotNum, delta);
        MulNext(base, i, batchSize);
        base := base + batchSize;
      } else {
        assert outS[..base + batchOtNum] == outS[..] && outR[..base + batchOtNum] == outR[..];
        return;
      }
      i := i + 1;
    }
    BatchRemains(base, i, otNum, batchSize);
    assert false;
  }

  // FerretOtExtSend and FerretOtExtRecv: the checks, then the batches.
  method FerretOtExt(baseS: SendStore, baseR: RecvStore, n: nat, k: nat, t: nat, spSize: nat, otNum: nat,
                     outS: array<Block>, outR: array<Block>, cols: nat -> seq<nat>,
                     seeds: (nat, nat) -> Block, H: Block -> Block) returns (ok: bool)
    requires t >= 1 && spSize >= 2 && n == t * spSize && CodeFor(cols, k) && k + t * Log2Ceil(spSize) < n
    requires baseS.Valid() && baseR.Valid() && baseS.ctr == baseR.ctr && baseS.size == baseR.size
    requires Lsb(baseS.delta) && (baseR.compact ==> CompactCots(baseS.buf, baseR.buf, baseS.delta))
    requires outS != outR && outS.Length == outR.Length
    modifies outS, outR
    ensures ok == (baseR.compact && baseS.size >= k + t * Log2Ceil(spSize) && otNum >= 2 * t && outS.Length == otNum)
    ensures ok ==> CompactCots(outS[..], outR[..], baseS.delta)
  {
    hide Log2Ceil, MpCotNum, CompactCots, CodeFor;
    MpCotNumEven(t, spSize);
    ok := baseR.compact && baseS.size >= k + MpCotNum(t, n) && otNum >= 2 * t && outS.Length == otNum;
    if ok { Batches(baseS, baseR, n, k, t, spSize, otNum, outS, outR, cols, seeds, H); }
  }

  // Batch i starts at output i * batch_size.
  predicate StartsAt(base: nat, i: nat, batchSize: nat) {
    base == i * batchSize
  }

  lemma FirstBatch()
    ensures forall b: nat :: StartsAt(0, 0, b)
  {
  }

  lemma MulNext(base: nat, i: nat, batchSize: nat)
    requires StartsAt(base, i, batchSize)
    ensures StartsAt(base + batchSize, i + 1, batchSize)
  {
  }

  // Base COTs a batch can be made from.
  ghost predicate Ready(s: SendStore, r: RecvStore, delta: Block, size: nat) {
    && s.Valid() && r.Valid() && s.ctr == r.ctr && s.size == r.size == size
    && r.compact && s.delta == delta && CompactCots(s.buf, r.buf, delta)
  }

  lemma FirstReady(s: SendStore, r: RecvStore, size: nat)
    requires s.Valid() && r.Valid() && size <= s.size == r.size && s.ctr == r.ctr
    requires r.compact && CompactCots(s.buf, r.buf, s.delta)
    ensures Ready(s.Slice(0, size), r.Slice(0, size), s.delta, size)
  {
  }

  // The tail of a finished batch: k seeds, then the COTs of the next batch.
  method NextBatch(outS: array<Block>, outR: array<Block>, next: nat, k: nat, mpcotNum: nat, delta: Block)
    returns (v: seq<Block>, w: seq<Block>, cotS: SendStore, cotR: RecvStore)
    requires next + k + mpcotNum <= outS.Length == outR.Length
    requires CompactCots(outS[..next + k + mpcotNum], outR[..next + k + mpcotNum], delta)
    ensures |v| == k && CompactCots(v, w, delta) && Ready(cotS, cotR, delta, mpcotNum)
    ensures cotS == SendStore(outS[..next + k + mpcotNum][next + k..], delta, 0, mpcotNum)
    ensures cotR == RecvStore(true, [], outR[..next + k + mpcotNum][next + k..], 0, mpcotNum)
    ensures CompactCots(outS[..next], outR[..next], delta)
  {
    hide CompactCots;
    var mid, end := next + k, next + k + mpcotNum;
    var s, r := outS[..end], outR[..end];
    v, w := s[next..mid], r[next..mid];
    cotS := SendStore(s[mid..], delta, 0, mpcotNum);
    cotR := RecvStore(true, [], r[mid..], 0, mpcotNum);
    CompactParts(s, r, next, mid, delta);
    assert s[..next] == outS[..next] && r[..next] == outR[..next];
  }

  lemma CompactParts(s: seq<Block>, r: seq<Block>, next: nat, mid: nat, delta: Block)
    requires CompactCots(s, r, delta) && next <= mid <= |s| == |r|
    ensures CompactCots(s[..next], r[..next], delta) && CompactCots(s[mid..], r[mid..], delta)
    ensures CompactCots(s[next..mid], r[next..mid], delta)
  {
    hide CompactCot;
  }

  function BatchNum(otNum: nat, batchSize: nat): nat
    requires batchSize > 0
  {
    (otNum + batchSize - 1) / batchSize
  }

  lemma BatchCover(otNum: nat, batchSize: nat)
    requires batchSize > 0
    ensures BatchNum(otNum, batchSize) * batchSize >= otNum
  {
    var x := otNum + batchSize - 1;
    CeilCover(otNum, batchSize, x / batchSize, x % batchSize);
  }

  lemma CeilCover(x: nat, y: nat, q: nat, r: nat)
    requires r < y && x + y - 1 == q * y + r
    ensures q * y >= x
  {
  }

  // The loop cannot run out of batches: it ends by its break.
  lemma BatchRemains(base: nat, i: nat, otNum: nat, batchSize: nat)
    requires batchSize > 0 && StartsAt(base, i, batchSize) && base < otNum
    ensures i < BatchNum(otNum, batchSize)
  {
    var batchNum := BatchNum(otNum, batchSize);
    BatchCover(otNum, batchSize);
    if i >= batchNum { MulMono(batchNum, i, batchSize); }
  }

  // One batch: the multi-point COT, then the code.
  method Batch(cotS: SendStore, cotR: RecvStore, n: nat, t: nat, spSize: nat, batchOtNum: nat,
               outS: array<Block>, outR: array<Block>, base: nat, workingV: seq<Block>, workingW: seq<Block>,
               cols: nat -> seq<nat>, seeds: nat -> Block, H: Block -> Block, ghost delta: Block)
    requires EvenBins(n, t, spSize) && 1 <= batchOtNum <= n
    requires Ready(cotS, cotR, delta, BinCots(t, spSize)) && Lsb(delta)
    requires outS != outR && base + batchOtNum <= outS.Length == outR.Length
    requires CodeFor(cols, |workingV|) && CompactCots(workingV, workingW, delta)
    requires CompactCots(outS[..base], outR[..base], delta)
    modifies outS, outR
    ensures CompactCots(outS[..base + batchOtNum], outR[..base + batchOtNum], delta)
  {
    hide CompactCots, Log2Ceil;
    ghost var ps, pr := outS[..base], outR[..base];
    BinCount(batchOtNum, t, spSize);
    MpCot(cotS, cotR, batchOtNum, t, spSize, seeds, H, outS, outR, base);
    EncodeBoth(workingV, workingW, outS, outR, base, batchOtNum, cols, delta);
    assert outS[0..base] == ps && outR[0..base] == pr;
    Extend(outS, outR, 0, base, base + batchOtNum, ps, pr, delta);
    assert outS[0..base + batchOtNum] == outS[..base + batchOtNum];
    assert outR[0..base + batchOtNum] == outR[..base + batchOtNum];
  }

  lemma BinCount(range: nat, t: nat, spSize: nat)
    requires spSize > 0 && 1 <= range <= t * spSize
    ensures DivCeil(range, spSize) <= t
  {
    var q := (range - 1) / spSize;
    assert range - 1 == q * spSize + (range - 1) % spSize;
    if q >= t { MulMono(t, q, spSize); }
  }
}
