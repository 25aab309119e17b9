/**
  Two runs of a transmitter whose injections fail: a packet sent under a parity index,
  which a receiver takes for another one, and a nonce sealed under twice
  (pkg/tx/transmitter.go).
*/
module Failures {
  import opened Gf256
  import opened Polynomials
  import opened Matrices
  import opened Vandermonde
  import opened ReedSolomon
  import opened Packets
  import opened Window
  import opened WindowRuns
  import opened Fidelity
  import opened Delivery
  import opened Sender
  import opened TxLog
  import opened TxPlan
  import opened TxTransmitter

  // ------------------------------------------------------------- taken for another packet

  /** With one data shard every row of the generator is the same. */
  lemma {:induction false} OneShardRow(r: nat, d: byte)
    ensures Dot(GeneratorRow(1, r), [d]) == d
  {
    hide Interpolate, Mul, Add;
    GeneratorInterpolates(1, r, [d]);
    GeneratorInterpolates(1, 0, [d]);
    InterpolateHits(Points(1), [d], 0);
    ConstantValue(Interpolate(Points(1), [d]), Point(r), Point(0));
  }

  lemma {:induction false} ConstantValue(p: seq<byte>, x: byte, y: byte)
    requires |p| == 1
    ensures Eval(p, x) == Eval(p, y)
  {
    hide Mul, Add;
    assert p[1..] == [];
    ZeroProducts(x);
    ZeroProducts(y);
  }

  lemma {:induction false} SizeOfOne(d: Shards)
    requires |d| == 1
    ensures BlockSize(d) == |d[0]|
  {
    SizesBound(d, 0, 1);
  }

  /** So the parity is the data again. */
  lemma {:induction false} ParityOfOne(c: Vec)
    requires WellFormed(c)
    ensures AllWellFormed([c]) && BodyOf(1, [c], 1) == c
  {
    hide GeneratorRow, Dot;
    SizeOfOne([c]);
    FitAllSizes([c], |c|);
    var d := [c];
    assert FitAll(d, |c|)[0] == Fit(d[0], |c|) == c;
    assert FitAll(d, |c|) == d;
    forall b | 0 <= b < |c| ensures CodeShard(1, [c], |c|, 1)[b] == c[b] {
      assert ByteColumn([c], b) == [c[b]];
      OneShardRow(1, c[b]);
    }
  }

  /** One arrival makes a block of one data shard complete. */
  lemma {:induction false} OneArrival(a: Arrival)
    requires a.block == 0 && a.frag < 2 && a.body != []
    ensures Complete([a], 0, 1, 2) && Orderly([a], 1, 2)
  {
    hide CountPresent;
    assert [a][..0] == [];
    ReceivedLast([], a, 0, 2);
    assert [] + [a] == [a];
    var r := Received([a], 0, 2);
    assert r == [[], []][a.frag := a.body];
    CountSplit(r, 0, 1, 2);
    OneOfTwo(r, a.frag);
    forall b: nat | b > 0 ensures !Complete([a], b, 1, 2) {
      OthersUnchanged([], a, b, 2);
      NothingPresent(EmptySlot(2, b).frags, 2);
    }
  }

  lemma {:induction false} OneOfTwo(r: Shards, f: nat)
    requires |r| == 2 && f < 2 && r[f] != []
    ensures CountPresent(r, 0, 2) >= 1
  {
    assert CountPresent(r, 0, 2) == CountPresent(r, 0, 1) + if Present(r, 1) then 1 else 0;
    assert CountPresent(r, 0, 1) == CountPresent(r, 0, 0) + if Present(r, 0) then 1 else 0;
  }

  /** A fragment that arrives under the parity index, the data fragment being lost, is handed over as the data. */
  lemma {:induction false} StrayIsTakenForData(c: Vec)
    requires WellFormed(c)
    ensures AllAdmissible([Arrival(0, 1, c)]) && Run(1, 2, [Arrival(0, 1, c)]).out == [Handed(0, 0, c)]
  {
    hide BodyOf, Complete, Orderly, Run;
    ParityOfOne(c);
    var a, blocks := Arrival(0, 1, c), [[c]];
    assert Authentic(1, 2, blocks, a);
    OneArrival(a);
    var s := EverythingDelivered([a], blocks, 1, 1, 2);
    assert Whole(blocks, 1) == Whole(blocks, 0) + Prefix(blocks, 0, 1);
    assert Prefix(blocks, 0, 1) == [Handed(0, 0, c)];
  }

  // ------------------------------------------------------------------ the transmitter runs

  /** The first call: the data fragment gets on air, the parity does not. */
  lemma {:induction false} FirstCall(f: Vec)
    requires WellFormed(f)
    ensures var t := TxState(1, [], [], 0, 0);
      && StateOk(t, 1, 2) && |Plan(t, 1, 2, f)| == 2 && Plan(t, 1, 2, f)[..1] == [Fragment(1, 0, f)]
      && After(t, 1, 2, f, 1) == TxState(1, [], [f], 1, |f|)
  {
    hide CodeShard, WellFormed;
  }

  /** The second call: its fragment goes out under the parity index and closes the block. */
  lemma {:induction false} SecondCall(f: Vec, g: Vec)
    requires WellFormed(f) && WellFormed(g)
    ensures var t := TxState(1, [], [f], 1, |f|);
      && StateOk(t, 1, 2) && Plan(t, 1, 2, g) == [Fragment(1, 1, g)]
      && After(t, 1, 2, g, 1) == TxState(1, [[f]], [], 0, 0)
  {
    hide CodeShard;
    SizeOfOne([f]);
  }

  lemma {:induction false} LeadOfFailure()
    ensures Lead([true, false, true], 2) == 1 && Rest([true, false, true], 2) == [true]
    ensures Lead([true], 1) == 1 && Lead([false], 1) == 0 && Rest([false], 1) == [] && Lead([], 1) == 1
  {
    assert [true, false, true][1..] == [false, true] && [false, true][1..] == [true];
  }

  /**
    One data and one parity fragment per block, and the parity injection of the first
    packet fails: the second packet goes on air under the parity index of the first
    one's block. A receiver that misses the first fragment hands over the second packet
    as the first one.
  */
  method StrayPacket(a: Vec, c: Vec) returns (t: Transmitter)
    ensures var f, g := MakeFragment(0, Cut(a)), MakeFragment(0, Cut(c));
      && t.Valid() && t.strayed && t.closed == [[f]] && t.air == [Fragment(1, 0, f), Fragment(1, 1, g)]
      && AllAdmissible([Arrival(0, 1, g)])
      && Run(1, 2, [Arrival(0, 1, g)]).out == [Handed(0, 0, g)]
      && (IsTrue(Handed(0, 0, g), 1, t.closed) <==> f == g)
  {
    hide Transmitter.Core, Run, MakeFragment, Cut, Plan, Fragments, Send, After, Lead, Rest, OnAirOf, SealedUpTo;
    ghost var f, g := MakeFragment(0, Cut(a)), MakeFragment(0, Cut(c));
    MadeFragment(0, Cut(a));
    MadeFragment(0, Cut(c));
    FirstCall(f);
    SecondCall(f, g);
    LeadOfFailure();
    StrayIsTakenForData(g);
    t := new Transmitter(1, 2, 0, 0, [true, false, true]);
    t.HasBuffers();
    var more, ok := t.SendPacketWithFlags(a, 0);
    t.HasBuffers();
    more, ok := t.SendPacketWithFlags(c, 0);
  }

  /** A call whose injection fails changes nothing, but for the sealing; the next one seals again. */
  lemma {:induction false} FailedCall(f: Vec, g: Vec)
    requires WellFormed(f) && WellFormed(g)
    ensures var t := TxState(1, [], [], 0, 0);
      && StateOk(t, 2, 2) && |Plan(t, 2, 2, f)| == 1 == |Plan(t, 2, 2, g)| && After(t, 2, 2, f, 0) == t
      && SealedUpTo(OnAirOf(Fragments(t, 2, 2, f), 1), 0) == [Sealing(1, 0, f, false)]
      && SealedUpTo(OnAirOf(Fragments(t, 2, 2, g), 1), 1) == [Sealing(1, 0, g, true)]
  {
    hide WellFormed;
  }

  /** A packet whose injection fails, and another one: both are sealed under nonce 0. */
  method RetriedNonce(a: Vec, c: Vec) returns (t: Transmitter)
    ensures var f, g := MakeFragment(0, Cut(a)), MakeFragment(0, Cut(c));
      t.Valid() && t.sealed == [Sealing(1, 0, f, false), Sealing(1, 0, g, true)] && !NoncesRising(t.sealed)
  {
    hide Transmitter.Valid, MakeFragment, Cut, Plan, Fragments, Send, After, Lead, Rest, OnAirOf, SealedUpTo;
    ghost var f, g := MakeFragment(0, Cut(a)), MakeFragment(0, Cut(c));
    MadeFragment(0, Cut(a));
    MadeFragment(0, Cut(c));
    FailedCall(f, g);
    LeadOfFailure();
    t := new Transmitter(2, 2, 0, 0, [false]);
    t.HasBuffers();
    var more, ok := t.SendPacketWithFlags(a, 0);
    t.HasBuffers();
    more, ok := t.SendPacketWithFlags(c, 0);
    assert !Before(t.sealed[0].session, t.sealed[0].nonce, t.sealed[1].session, t.sealed[1].nonce);
  }
}
