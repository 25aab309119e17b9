/**
  The whole link: frames as the transmitter injects them, a channel that loses,
  repeats and reorders them, and the packets the receiver puts out.
*/
module Link {
  import opened Gf256
  import opened Matrices
  import opened Codec
  import opened Packets
  import opened Frames
  import opened Window
  import opened WindowRuns
  import opened Fidelity
  import opened Delivery
  import opened Sender
  import opened RxRing
  import opened RxAggregator
  import opened LossAccounting
  import opened TxLog
  import opened TxPlan
  import opened TxTransmitter

  /** What `processDataPacket` makes of an authentic frame: block indices beyond its limit are refused. */
  function ArrivalOf(nonce: nat, body: Vec): Option<Arrival>
  {
    if NonceBlock(nonce) > MAX_BLOCK_IDX then None
    else Some(Arrival(NonceBlock(nonce), NonceFragment(nonce), body))
  }

  /** The fragments of one session among the frames received. */
  function ArrivalsOf(received: seq<OnAir>, session: nat): seq<Arrival>
  {
    if received == [] then []
    else
      var m := |received| - 1;
      ArrivalsOf(received[..m], session) +
        match received[m]
        case Fragment(s, nonce, body) =>
          if s != session then [] else (match ArrivalOf(nonce, body) case Some(a) => [a] case None => [])
        case Announcement(_, _, _) => []
  }

  /** Every fragment of the session that is received is one that was injected. */
  predicate FromAir(received: seq<OnAir>, air: seq<OnAir>, session: nat)
  {
    forall i :: 0 <= i < |received| && received[i].Fragment? && received[i].session == session ==> received[i] in air
  }

  /** Up to the receiver's limit a fragment is taken for what it was sent as. */
  lemma {:induction false} TakenAsSent(a: Arrival)
    requires a.block <= MAX_BLOCK_IDX && a.frag < 256
    ensures ArrivalOf(256 * a.block + a.frag, a.body) == Some(a)
  {
    assert (256 * a.block + a.frag) / 256 == a.block;
  }

  /** The transmitter uses twice as many block indices as the receiver accepts. */
  lemma {:induction false} LaterBlocksRefused(b: nat, f: byte, body: Vec)
    requires MAX_BLOCK_IDX < b < BLOCK_IDX_LIMIT
    ensures ArrivalOf(DataNonce(b, f), body) == None && BLOCK_IDX_LIMIT == 2 * (MAX_BLOCK_IDX + 1)
  {
    NonceRoundTrip(b, f);
  }

  lemma {:induction false} SentWithin(k: nat, n: nat, ops: seq<Op>, i: nat)
    requires Params(k, n) && i < |SendAll(k, n, ops).1|
    ensures var (tx, sent) := SendAll(k, n, ops);
      sent[i].block <= |tx.closed| && sent[i].frag < n && PACKET_HDR_SIZE <= |sent[i].body| <= MAX_FEC_PAYLOAD
  {
    hide SendAll, BodyOf;
    var (tx, sent) := SendAll(k, n, ops);
    AllSentIsAuthentic(k, n, ops);
    assert Authentic(k, n, BlocksOf(tx), sent[i]);
    BodyNotEmpty(k, BlocksOf(tx)[sent[i].block], sent[i].frag);
  }

  /** All that arrives was sent. */
  lemma {:induction false} ArrivalsWereSent(k: nat, n: nat, ops: seq<Op>, received: seq<OnAir>, session: nat)
    requires Params(k, n) && |SendAll(k, n, ops).0.closed| <= MAX_BLOCK_IDX
    requires FromAir(received, OnAirOf(SendAll(k, n, ops).1, session), session)
    ensures FromChannel(ArrivalsOf(received, session), SendAll(k, n, ops).1)
  {
    hide SendAll;
    if received != [] {
      var m := |received| - 1;
      var sent := SendAll(k, n, ops).1;
      ArrivalsWereSent(k, n, ops, received[..m], session);
      if received[m].Fragment? && received[m].session == session {
        var j :| 0 <= j < |sent| && OnAirOf(sent, session)[j] == received[m];
        SentWithin(k, n, ops, j);
        TakenAsSent(sent[j]);
      }
    }
  }

  /**
    End to end over the air: frames of one session, each lost, repeated or reordered
    at will as long as the arrivals are orderly and k fragments of every closed block
    get through. With no block left open, the receiver queues exactly the packets that
    were sent, cut at the largest size, without the empty ones, each once and in order.
  */
  lemma {:induction false} LinkEndToEnd(k: nat, n: nat, ops: seq<Op>, received: seq<OnAir>, session: nat) returns (s: nat)
    requires Params(k, n) && |SendAll(k, n, ops).0.closed| <= MAX_BLOCK_IDX
    requires FromAir(received, OnAirOf(SendAll(k, n, ops).1, session), session)
    requires Orderly(ArrivalsOf(received, session), k, n)
    requires forall b :: 0 <= b < |SendAll(k, n, ops).0.closed| ==> Complete(ArrivalsOf(received, session), b, k, n)
    ensures var arrivals := ArrivalsOf(received, session); var tx := SendAll(k, n, ops).0;
      && AllAdmissible(arrivals) && s <= |tx.open|
      && var queue := OutputsOf(Run(k, n, arrivals).out, k);
         && PayloadsIn(queue) == PayloadsOf(Flatten(tx.closed)) + PayloadsOf(tx.open[..s])
         && PacketsOf(ops) == PayloadsOf(Flatten(tx.closed)) + PayloadsOf(tx.open)
         && (tx.open == [] ==> PayloadsIn(queue) == PacketsOf(ops))
  {
    hide SendAll, Orderly, Complete, Run, OutputsOf;
    ArrivalsWereSent(k, n, ops, received, session);
    s := EndToEnd(k, n, ops, ArrivalsOf(received, session));
    QueueHoldsPayloads(Run(k, n, ArrivalsOf(received, session)).out, k);
  }

  lemma {:induction false} QueueHoldsPayloads(out: seq<Handed>, k: nat)
    ensures PayloadsIn(OutputsOf(out, k)) == PayloadsHanded(out)
  {
    hide PayloadOf, SeqOf;
    if out != [] {
      var m := |out| - 1;
      QueueHoldsPayloads(out[..m], k);
      assert Bodies(out)[..m] == Bodies(out[..m]);
      var queue := OutputsOf(out[..m], k);
      match PayloadOf(out[m].body) {
        case Some(p) =>
          var last := OutputPacket(p, SeqOf(out[m].block, out[m].frag, k));
          assert (queue + [last])[..|queue|] == queue;
        case None =>
          assert queue + [] == queue;
      }
    }
  }

  // ------------------------------------------------------- transmitter and receiver objects

  /** What a transmitter has put on air in its session, and what it stands for. */
  lemma {:induction false} OnAirWasSent(t: Transmitter, received: seq<OnAir>)
    requires t.Valid() && !t.strayed && FromAir(received, t.air, t.session)
    ensures Params(t.fecK, t.fecN)
    ensures SendAll(t.fecK, t.fecN, t.ops).0 == TxOf(t.State(), t.fecK)
    ensures FromAir(received, OnAirOf(SendAll(t.fecK, t.fecN, t.ops).1, t.session), t.session)
  {
    hide SendAll, OfSession, Fec.Valid, StateOk, Logs;
    var sent, left := SendAll(t.fecK, t.fecN, t.ops).1, Left(t.State(), t.fecK, t.fecN);
    forall i | 0 <= i < |received| && received[i].Fragment? && received[i].session == t.session
      ensures received[i] in OnAirOf(sent, t.session)
    {
      var j :| 0 <= j < |t.air| && t.air[j] == received[i];
      OfSessionHas(t.air, j);
      assert received[i] in OnAirOf(sent[..|sent| - left], t.session);
      var l :| 0 <= l < |sent| - left && OnAirOf(sent[..|sent| - left], t.session)[l] == received[i];
      assert OnAirOf(sent, t.session)[l] == received[i];
    }
  }

  /**
    Whatever injections failed, as long as no packet went out under a parity index:
    every fragment the receiver hands over is the one the transmitter put there.
  */
  lemma {:induction false} NothingAlteredOnTheLink(t: Transmitter, received: seq<OnAir>)
    requires t.Valid() && !t.strayed && FromAir(received, t.air, t.session) && |TxOf(t.State(), t.fecK).closed| <= MAX_BLOCK_IDX
    ensures Params(t.fecK, t.fecN)
    ensures var arrivals, blocks := ArrivalsOf(received, t.session), BlocksOf(TxOf(t.State(), t.fecK));
      && BlocksOk(blocks, t.fecK) && AllAuthentic(t.fecK, t.fecN, blocks, arrivals)
      && AllAdmissible(arrivals) && AllTrue(Run(t.fecK, t.fecN, arrivals).out, t.fecK, blocks)
  {
    hide SendAll, Run, Authentic;
    var k, n, sent, arrivals := t.fecK, t.fecN, SendAll(t.fecK, t.fecN, t.ops).1, ArrivalsOf(received, t.session);
    OnAirWasSent(t, received);
    ArrivalsWereSent(k, n, t.ops, received, t.session);
    AllSentIsAuthentic(k, n, t.ops);
    var blocks := BlocksOf(TxOf(t.State(), k));
    forall i | 0 <= i < |arrivals| ensures Authentic(k, n, blocks, arrivals[i]) {
      assert arrivals[i] in sent;
      var j :| 0 <= j < |sent| && sent[j] == arrivals[i];
    }
    NothingInventedOrAltered(k, n, blocks, arrivals);
  }

  /**
    End to end for a transmitter and a receiver in the same session: what the receiver
    has queued in it is what was sent, under the conditions of `LinkEndToEnd`. Packets
    whose own injection failed were not sent.
  */
  lemma {:induction false} ObjectsEndToEnd(t: Transmitter, r: Aggregator, received: seq<OnAir>) returns (s: nat)
    requires t.Valid() && !t.strayed && FromAir(received, t.air, t.session) && |TxOf(t.State(), t.fecK).closed| <= MAX_BLOCK_IDX
    requires r.Inv() && r.ring != null && r.fecK == t.fecK && r.fecN == t.fecN && r.arrivals == ArrivalsOf(received, t.session)
    requires Orderly(r.arrivals, t.fecK, t.fecN)
    requires forall b :: 0 <= b < |TxOf(t.State(), t.fecK).closed| ==> Complete(r.arrivals, b, t.fecK, t.fecN)
    ensures |r.earlier| <= |r.outputChan| && r.outputChan[..|r.earlier|] == r.earlier
    ensures var tx, queue := TxOf(t.State(), t.fecK), r.outputChan[|r.earlier|..];
      && s <= |tx.open|
      && PayloadsIn(queue) == PayloadsOf(Flatten(tx.closed)) + PayloadsOf(tx.open[..s])
      && PacketsOf(t.ops) == PayloadsOf(Flatten(tx.closed)) + PayloadsOf(tx.open)
      && (tx.open == [] ==> PayloadsIn(queue) == PacketsOf(t.ops))
  {
    hide SendAll, Run, Orderly, Complete, OutputsOf, PayloadsIn, PayloadsOf, Transmitter.Valid, Ring.Inv;
    OnAirWasSent(t, received);
    s := LinkEndToEnd(t.fecK, t.fecN, t.ops, received, t.session);
    assert r.outputChan[|r.earlier|..] == OutputsOf(Run(r.fecK, r.fecN, r.arrivals).out, r.fecK);
  }
}
