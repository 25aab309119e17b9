/**
  Nothing invented, nothing altered: when every arrival is a fragment the
  transmitter sent, every fragment handed over is the one the transmitter put there,
  also when it had to be rebuilt from fragments of different lengths.
*/
module Fidelity {
  import opened Matrices
  import opened ReedSolomon
  import opened Packets
  import opened Window
  import opened WindowRuns

  /** The data fragments of the blocks of a session, the last of which may be open. */
  type Blocks = seq<Shards>

  predicate BlocksOk(blocks: Blocks, k: nat)
  {
    forall b :: 0 <= b < |blocks| ==> |blocks[b]| <= k && AllWellFormed(blocks[b])
  }

  predicate AllWellFormed(frags: Shards)
  {
    forall i :: 0 <= i < |frags| ==> WellFormed(frags[i])
  }

  /** The size of the parity shards: the largest fragment of the block. */
  function BlockSize(frags: Shards): nat
  {
    MaxSize(frags, 0, |frags|)
  }

  lemma {:induction false} FitAllSizes(frags: Shards, sz: nat)
    requires AllWellFormed(frags)
    ensures AllOfSize(FitAll(frags, sz), sz)
  {
    assert forall i :: 0 <= i < |frags| ==> WellFormed(frags[i]);
  }

  /** What the transmitter sends as fragment f of a block. */
  ghost function BodyOf(k: nat, frags: Shards, f: nat): Vec
    requires k <= 255 && AllWellFormed(frags) && (if f < k then f < |frags| else |frags| == k)
  {
    if f < k then frags[f]
    else
      FitAllSizes(frags, BlockSize(frags));
      CodeShard(k, FitAll(frags, BlockSize(frags)), BlockSize(frags), f)
  }

  /** Fragment f of the block has been, or could have been, sent. */
  predicate Sendable(k: nat, n: nat, frags: Shards, f: nat)
  {
    f < n && if f < k then f < |frags| else |frags| == k
  }

  ghost predicate Authentic(k: nat, n: nat, blocks: Blocks, a: Arrival)
    requires Params(k, n) && BlocksOk(blocks, k)
  {
    && a.block < |blocks| && Sendable(k, n, blocks[a.block], a.frag)
    && a.body == BodyOf(k, blocks[a.block], a.frag)
  }

  ghost predicate AllAuthentic(k: nat, n: nat, blocks: Blocks, arrivals: seq<Arrival>)
    requires Params(k, n) && BlocksOk(blocks, k)
  {
    forall i :: 0 <= i < |arrivals| ==> Authentic(k, n, blocks, arrivals[i])
  }

  lemma {:induction false} BodyNotEmpty(k: nat, frags: Shards, f: nat)
    requires 1 <= k <= 255 && AllWellFormed(frags) && (if f < k then f < |frags| else |frags| == k)
    ensures PACKET_HDR_SIZE <= |BodyOf(k, frags, f)| <= MAX_FEC_PAYLOAD
  {
    SizesBound(frags, 0, |frags|);
    assert WellFormed(frags[if f < k then f else 0]);
  }

  lemma {:induction false} AuthenticIsAdmissible(k: nat, n: nat, blocks: Blocks, a: Arrival)
    requires Params(k, n) && BlocksOk(blocks, k) && Authentic(k, n, blocks, a)
    ensures Admissible(a)
  {
    BodyNotEmpty(k, blocks[a.block], a.frag);
  }

  // ------------------------------------------------------------------- recovery

  /** Everything received of a block is what was sent. */
  ghost predicate Faithful(k: nat, n: nat, d: Shards, frags: Shards)
    requires Params(k, n) && AllWellFormed(d)
  {
    |frags| == n && forall j :: 0 <= j < n && frags[j] != [] ==> Sendable(k, n, d, j) && frags[j] == BodyOf(k, d, j)
  }

  /** k fragments of a block can only be there if the block is closed. */
  lemma {:induction false} EnoughMeansClosed(k: nat, n: nat, d: Shards, frags: Shards)
    requires Params(k, n) && AllWellFormed(d) && Faithful(k, n, d, frags) && |d| <= k
    requires CountPresent(frags, 0, n) >= k
    ensures |d| == k
  {
    CountSplit(frags, 0, k, n);
    if CountPresent(frags, k, n) > 0 {
      SomePresent(frags, k, n);
    } else {
      AllPresent(frags, k);
      assert frags[k - 1] != [];
    }
  }

  lemma {:induction false} AllPresent(frags: Shards, k: nat)
    requires k <= |frags| && CountPresent(frags, 0, k) >= k
    ensures forall i :: 0 <= i < k ==> frags[i] != []
  {
    if k > 0 {
      CountSplit(frags, 0, k - 1, k);
      AllPresent(frags, k - 1);
    }
  }

  /** With a parity fragment at hand, decoding works at the size the encoder used. */
  lemma {:induction false} SizesAgree(k: nat, n: nat, d: Shards, frags: Shards)
    requires Params(k, n) && AllWellFormed(d) && Faithful(k, n, d, frags) && |d| == k
    requires CountPresent(frags, k, n) > 0
    ensures DecodeSize(frags, k) == BlockSize(d) >= PACKET_HDR_SIZE
  {
    hide BodyOf, CodeShard;
    SomePresent(frags, k, n);
    SizesBound(frags, k, n);
    SizesBound(d, 0, k);
    assert WellFormed(d[0]);
    forall j | k <= j < n && frags[j] != [] ensures |frags[j]| == BlockSize(d) {
      ParitySize(k, d, j);
    }
  }

  lemma {:induction false} ParitySize(k: nat, d: Shards, j: nat)
    requires k <= 255 && AllWellFormed(d) && |d| == k <= j
    ensures |BodyOf(k, d, j)| == BlockSize(d)
  {
    FitAllSizes(d, BlockSize(d));
  }

  /** What was received, padded, is an erasure of the codeword the encoder built. */
  lemma {:induction false} ReceivedIsErasure(k: nat, n: nat, d: Shards, frags: Shards)
    requires Params(k, n) && AllWellFormed(d) && Faithful(k, n, d, frags) && |d| == k
    ensures var sz := BlockSize(d); Erasure(FitAll(frags, sz), k, FitAll(d, sz), sz)
  {
    hide CodeShard;
    var sz := BlockSize(d);
    var data := FitAll(d, sz);
    FitAllSizes(d, sz);
    forall j | 0 <= j < n && frags[j] != [] ensures FitAll(frags, sz)[j] == CodeShard(k, data, sz, j) {
      if j < k {
        DataShardsAreThemselves(k, data, sz, j);
        assert WellFormed(d[j]);
      } else {
        assert |frags[j]| == sz;
      }
    }
  }

  /** A padded fragment cut to the size in its own header is the fragment. */
  lemma {:induction false} HeaderGivesSize(f: Vec, sz: nat)
    requires WellFormed(f) && |f| <= sz
    ensures Fit(f, sz)[..RebuiltSize(Fit(f, sz))] == f
  {
    var g := Fit(f, sz);
    assert g[1] == f[1] && g[2] == f[2];
  }

  /** Recovery gives back the data fragments exactly. */
  lemma {:induction false} RecoveryIsExact(k: nat, n: nat, d: Shards, frags: Shards)
    requires Params(k, n) && AllWellFormed(d) && Faithful(k, n, d, frags) && |d| <= k
    requires CountPresent(frags, 0, n) >= k
    ensures |d| == k && forall i :: 0 <= i < k ==> Recovered(frags, k)[i] == d[i]
  {
    hide BodyOf, CodeShard, Rebuilt, Erasure;
    EnoughMeansClosed(k, n, d, frags);
    FitIsDecodable(frags, k);
    forall i | 0 <= i < k ensures Recovered(frags, k)[i] == d[i] {
      if frags[i] != [] {
        DataBody(k, d, i);
      } else {
        MissingMeansParity(frags, k, n, i);
        SizesAgree(k, n, d, frags);
        var sz := BlockSize(d);
        ReceivedIsErasure(k, n, d, frags);
        AnyKShardsGiveTheData(FitAll(frags, sz), k, FitAll(d, sz), sz);
        assert Reconstructed(FitAll(frags, sz), k, sz)[i] == FitAll(d, sz)[i];
        SizesBound(d, 0, k);
        assert WellFormed(d[i]);
        HeaderGivesSize(d[i], sz);
      }
    }
  }

  lemma {:induction false} MissingMeansParity(frags: Shards, k: nat, n: nat, i: nat)
    requires i < k <= n == |frags| && frags[i] == [] && CountPresent(frags, 0, n) >= k
    ensures CountPresent(frags, k, n) > 0
  {
    CountSplit(frags, 0, k, n);
    if CountPresent(frags, 0, k) >= k {
      AllPresent(frags, k);
    }
  }

  lemma {:induction false} DataBody(k: nat, d: Shards, i: nat)
    requires k <= 255 && AllWellFormed(d) && i < k && i < |d|
    ensures BodyOf(k, d, i) == d[i]
  {}

  // ----------------------------------------------------------------------- runs

  /** Every data fragment present is the transmitter's. */
  predicate DataTrue(frags: Shards, k: nat, d: Shards)
  {
    k <= |frags| && forall j :: 0 <= j < k && frags[j] != [] ==> j < |d| && frags[j] == d[j]
  }

  predicate IsTrue(h: Handed, k: nat, blocks: Blocks)
  {
    h.block < |blocks| && h.frag < k && h.frag < |blocks[h.block]| && h.body == blocks[h.block][h.frag]
  }

  predicate AllTrue(out: seq<Handed>, k: nat, blocks: Blocks)
  {
    forall i :: 0 <= i < |out| ==> IsTrue(out[i], k, blocks)
  }

  ghost predicate SlotFaithful(slot: Slot, k: nat, n: nat, blocks: Blocks)
    requires Params(k, n) && BlocksOk(blocks, k)
  {
    slot.idx < |blocks| && Faithful(k, n, blocks[slot.idx], slot.frags)
  }

  ghost predicate WindowFaithful(live: seq<Slot>, k: nat, n: nat, blocks: Blocks)
    requires Params(k, n) && BlocksOk(blocks, k)
  {
    forall i :: 0 <= i < |live| ==> SlotFaithful(live[i], k, n, blocks)
  }

  lemma {:induction false} FaithfulIsDataTrue(k: nat, n: nat, d: Shards, frags: Shards)
    requires Params(k, n) && AllWellFormed(d) && Faithful(k, n, d, frags)
    ensures DataTrue(frags, k, d)
  {
    forall j | 0 <= j < k && frags[j] != [] ensures j < |d| && frags[j] == d[j] {
      DataBody(k, d, j);
    }
  }

  lemma {:induction false} HandOverTrue(slot: Slot, from: nat, to: nat, k: nat, blocks: Blocks)
    requires to <= k && slot.idx < |blocks| && DataTrue(slot.frags, k, blocks[slot.idx])
    ensures AllTrue(HandOver(slot, from, to), k, blocks)
    decreases if from < to then to - from else 0
  {
    if from < to {
      HandOverTrue(slot, from + 1, to, k, blocks);
    }
  }

  lemma {:induction false} FlushTrue(live: seq<Slot>, k: nat, n: nat, blocks: Blocks)
    requires Params(k, n) && BlocksOk(blocks, k) && WindowFaithful(live, k, n, blocks)
    ensures SlotsFit(live, n) && AllTrue(Flush(live, k, n), k, blocks)
  {
    hide HandOver, Faithful;
    assert forall i :: 0 <= i < |live| ==> SlotFaithful(live[i], k, n, blocks);
    FaithfulFits(live, k, n, blocks);
    if live != [] {
      assert BlocksAt(blocks, k, live[0].idx);
      FaithfulIsDataTrue(k, n, blocks[live[0].idx], live[0].frags);
      HandOverTrue(live[0], live[0].sent, k, k, blocks);
      assert WindowFaithful(live[1..], k, n, blocks);
      FlushTrue(live[1..], k, n, blocks);
    }
  }

  predicate BlocksAt(blocks: Blocks, k: nat, b: nat)
    requires b < |blocks|
  {
    |blocks[b]| <= k && AllWellFormed(blocks[b])
  }

  lemma {:induction false} FaithfulFits(live: seq<Slot>, k: nat, n: nat, blocks: Blocks)
    requires Params(k, n) && BlocksOk(blocks, k) && WindowFaithful(live, k, n, blocks)
    ensures SlotsFit(live, n)
  {
    forall i | 0 <= i < |live| ensures |live[i].frags| == n {
      assert SlotFaithful(live[i], k, n, blocks);
    }
  }

  /** Storing an authentic fragment keeps the window faithful and hands over the truth. */
  lemma {:induction false} StoreIsTrue(w: Window, k: nat, n: nat, i: nat, a: Arrival, blocks: Blocks)
    requires Params(k, n) && Valid(w, k, n) && i < |w.live| && a.body != [] && w.live[i].idx == a.block
    requires BlocksOk(blocks, k) && WindowFaithful(w.live, k, n, blocks) && Authentic(k, n, blocks, a)
    ensures var (w', out) := StoreAt(w, k, n, i, a.frag, a.body);
      WindowFaithful(w'.live, k, n, blocks) && AllTrue(out, k, blocks)
  {
    hide HandOver, Flush, Faithful, CountPresent, Recovered, Sendable, BodyOf;
    if a.frag < n && w.live[i].frags[a.frag] == [] {
      var d := blocks[a.block];
      assert SlotFaithful(w.live[i], k, n, blocks);
      var stored := w.live[i].(frags := w.live[i].frags[a.frag := a.body]);
      StoreFaithful(k, n, d, w.live[i].frags, a.frag, a.body);
      FaithfulIsDataTrue(k, n, d, stored.frags);
      var end := if i == 0 then RunEnd(stored.frags, stored.sent, k) else stored.sent;
      HandOverTrue(stored, stored.sent, end, k, blocks);
      var slot := stored.(sent := end);
      assert SlotFaithful(slot, k, n, blocks);
      if end < k && CountPresent(slot.frags, 0, n) >= k {
        RecoveryIsExact(k, n, d, slot.frags);
        var t := Completed(slot, k);
        HandOverTrue(t, end, k, k, blocks);
        assert WindowFaithful(w.live[..i], k, n, blocks);
        FlushTrue(w.live[..i], k, n, blocks);
      }
    }
  }

  lemma {:induction false} StoreFaithful(k: nat, n: nat, d: Shards, frags: Shards, f: nat, body: Vec)
    requires Params(k, n) && AllWellFormed(d) && Faithful(k, n, d, frags)
    requires Sendable(k, n, d, f) && body == BodyOf(k, d, f)
    ensures Faithful(k, n, d, frags[f := body])
  {}

  lemma {:induction false} EmptyFaithful(k: nat, n: nat, b: nat, blocks: Blocks)
    requires Params(k, n) && BlocksOk(blocks, k) && b < |blocks|
    ensures SlotFaithful(EmptySlot(n, b), k, n, blocks)
  {}

  lemma {:induction false} AdmitFaithful(w: Window, k: nat, n: nat, b: nat, blocks: Blocks)
    requires Params(k, n) && Valid(w, k, n) && (w.last.Some? ==> w.last.value < b)
    requires BlocksOk(blocks, k) && WindowFaithful(w.live, k, n, blocks) && b < |blocks|
    ensures WindowFaithful(Admit(w, n, b).live, k, n, blocks)
  {
    hide SlotFaithful;
    var count := NewCount(w, b);
    var added := EmptySlots(n, b + 1 - count, count);
    forall i | 0 <= i < |added| ensures SlotFaithful(added[i], k, n, blocks) {
      EmptyFaithful(k, n, b + 1 - count + i, blocks);
    }
  }

  lemma {:induction false} StepIsTrue(w: Window, k: nat, n: nat, a: Arrival, blocks: Blocks)
    requires Params(k, n) && Valid(w, k, n) && a.body != []
    requires BlocksOk(blocks, k) && WindowFaithful(w.live, k, n, blocks) && Authentic(k, n, blocks, a)
    ensures var (w', out) := Step(w, k, n, a.block, a.frag, a.body);
      WindowFaithful(w'.live, k, n, blocks) && AllTrue(out, k, blocks)
  {
    hide StoreAt, Valid, Admit, WindowFaithful;
    if !Rejects(w, a.block) {
      if Find(w.live, a.block) < |w.live| {
        StoreIsTrue(w, k, n, Find(w.live, a.block), a, blocks);
      } else {
        AdmitIsValid(w, k, n, a.block);
        AdmitFaithful(w, k, n, a.block, blocks);
        var w1 := Admit(w, n, a.block);
        StoreIsTrue(w1, k, n, |w1.live| - 1, a, blocks);
      }
    }
  }

  lemma {:induction false} AuthenticRunsAdmissible(k: nat, n: nat, blocks: Blocks, arrivals: seq<Arrival>)
    requires Params(k, n) && BlocksOk(blocks, k) && AllAuthentic(k, n, blocks, arrivals)
    ensures AllAdmissible(arrivals)
  {
    forall i | 0 <= i < |arrivals| ensures Admissible(arrivals[i]) {
      AuthenticIsAdmissible(k, n, blocks, arrivals[i]);
    }
  }

  /**
    Over any run of fragments the transmitter sent, lost, repeated and reordered at
    will, everything handed over for (block, fragment) is what the transmitter put there.
  */
  lemma {:induction false} NothingInventedOrAltered(k: nat, n: nat, blocks: Blocks, arrivals: seq<Arrival>)
    requires Params(k, n) && BlocksOk(blocks, k) && AllAuthentic(k, n, blocks, arrivals)
    ensures AllAdmissible(arrivals)
    ensures AllTrue(Run(k, n, arrivals).out, k, blocks)
    ensures WindowFaithful(Run(k, n, arrivals).w.live, k, n, blocks)
  {
    hide Step, Authentic, AllTrue, WindowFaithful;
    AuthenticRunsAdmissible(k, n, blocks, arrivals);
    if arrivals == [] {
      NothingIsTrue(k, n, blocks);
    } else {
      var m := |arrivals| - 1;
      NothingInventedOrAltered(k, n, blocks, arrivals[..m]);
      var s := Run(k, n, arrivals[..m]);
      StepIsTrue(s.w, k, n, arrivals[m], blocks);
      var (w, out) := Step(s.w, k, n, arrivals[m].block, arrivals[m].frag, arrivals[m].body);
      TrueJoin(s.out, out, k, blocks);
    }
  }

  lemma {:induction false} NothingIsTrue(k: nat, n: nat, blocks: Blocks)
    requires Params(k, n) && BlocksOk(blocks, k)
    ensures AllTrue([], k, blocks) && WindowFaithful([], k, n, blocks)
  {}

  lemma {:induction false} TrueJoin(a: seq<Handed>, b: seq<Handed>, k: nat, blocks: Blocks)
    requires AllTrue(a, k, blocks) && AllTrue(b, k, blocks)
    ensures AllTrue(a + b, k, blocks)
  {}
}
