/**
  The transmitter as a value, and the theorem about the whole link: packets in,
  fragments over a lossy channel, the same packets out.
*/
module Sender {
  import opened Matrices
  import opened ReedSolomon
  import opened Packets
  import opened Window
  import opened WindowRuns
  import opened Fidelity
  import opened Delivery

  /** What the user of a transmitter does. */
  datatype Op = Packet(payload: Vec) | FecOnly

  /** The data fragments of the closed blocks and of the open one. */
  datatype Tx = Tx(closed: Blocks, open: Shards)

  predicate TxOk(tx: Tx, k: nat)
  {
    && |tx.open| < k && AllWellFormed(tx.open)
    && forall b :: 0 <= b < |tx.closed| ==> |tx.closed[b]| == k && AllWellFormed(tx.closed[b])
  }

  function BlocksOf(tx: Tx): Blocks
  {
    tx.closed + [tx.open]
  }

  ghost function ParityFragments(k: nat, n: nat, b: nat, frags: Shards): (out: seq<Arrival>)
    requires Params(k, n) && |frags| == k && AllWellFormed(frags)
    ensures |out| == n - k
  {
    seq(n - k, i requires 0 <= i < n - k => Arrival(b, k + i, BodyOf(k, frags, k + i)))
  }

  /** One fragment goes out; the k-th closes the block and takes the parity along. */
  ghost function SendFragment(tx: Tx, k: nat, n: nat, f: Vec): (r: (Tx, seq<Arrival>))
    requires Params(k, n) && TxOk(tx, k) && WellFormed(f)
    ensures TxOk(r.0, k)
  {
    var b := |tx.closed|;
    var first := [Arrival(b, |tx.open|, f)];
    var open := tx.open + [f];
    assert AllWellFormed(open);
    if |open| < k then (Tx(tx.closed, open), first)
    else (Tx(tx.closed + [open], []), first + ParityFragments(k, n, b, open))
  }

  function FragmentOf(op: Op): (f: Vec)
    ensures WellFormed(f)
  {
    match op
    case Packet(payload) => MadeFragment(0, Cut(payload)); MakeFragment(0, Cut(payload))
    case FecOnly => MadeFragment(FEC_ONLY, []); MakeFragment(FEC_ONLY, [])
  }

  /** `SendPacket` and `SendFECOnly`; the latter does nothing when no block is open. */
  ghost function Send(tx: Tx, k: nat, n: nat, op: Op): (r: (Tx, seq<Arrival>))
    requires Params(k, n) && TxOk(tx, k)
    ensures TxOk(r.0, k)
  {
    if op == FecOnly && tx.open == [] then (tx, []) else SendFragment(tx, k, n, FragmentOf(op))
  }

  ghost function SendAll(k: nat, n: nat, ops: seq<Op>): (r: (Tx, seq<Arrival>))
    requires Params(k, n)
    ensures TxOk(r.0, k)
  {
    if ops == [] then (Tx([], []), [])
    else
      var m := |ops| - 1;
      var (tx, sent) := SendAll(k, n, ops[..m]);
      var (tx', more) := Send(tx, k, n, ops[m]);
      (tx', sent + more)
  }

  // --------------------------------------------------------- everything sent is authentic

  lemma {:induction false} BlocksOfOk(tx: Tx, k: nat)
    requires TxOk(tx, k)
    ensures BlocksOk(BlocksOf(tx), k)
  {}

  /** Blocks only grow: the open one by fragments, and by being closed. */
  predicate Extends(a: Blocks, b: Blocks)
  {
    |a| <= |b| && forall i :: 0 <= i < |a| ==> |a[i]| <= |b[i]| && b[i][..|a[i]|] == a[i]
  }

  lemma {:induction false} AuthenticExtends(k: nat, n: nat, a: Blocks, b: Blocks, x: Arrival)
    requires Params(k, n) && BlocksOk(a, k) && BlocksOk(b, k) && Extends(a, b) && Authentic(k, n, a, x)
    ensures Authentic(k, n, b, x)
  {
    hide CodeShard;
    var f, g := a[x.block], b[x.block];
    if x.frag < k {
      assert g[..|f|][x.frag] == g[x.frag];
    } else {
      assert |f| == k == |g| && g[..k] == g;
    }
  }

  lemma {:induction false} SendIsAuthentic(tx: Tx, k: nat, n: nat, op: Op)
    requires Params(k, n) && TxOk(tx, k)
    ensures var (tx', sent) := Send(tx, k, n, op);
      && BlocksOk(BlocksOf(tx), k) && BlocksOk(BlocksOf(tx'), k)
      && Extends(BlocksOf(tx), BlocksOf(tx')) && AllAuthentic(k, n, BlocksOf(tx'), sent)
  {
    hide BodyOf, FragmentOf;
    BlocksOfOk(tx, k);
    BlocksOfOk(Send(tx, k, n, op).0, k);
    if !(op == FecOnly && tx.open == []) {
      FragmentIsData(tx, k, n, FragmentOf(op));
    }
  }

  lemma {:induction false} FragmentIsData(tx: Tx, k: nat, n: nat, f: Vec)
    requires Params(k, n) && TxOk(tx, k) && WellFormed(f)
    ensures var (tx', sent) := SendFragment(tx, k, n, f);
      && BlocksOk(BlocksOf(tx'), k) && Extends(BlocksOf(tx), BlocksOf(tx'))
      && AllAuthentic(k, n, BlocksOf(tx'), sent)
  {
    hide BodyOf;
    var (tx', sent) := SendFragment(tx, k, n, f);
    BlocksOfOk(tx', k);
    var b := |tx.closed|;
    var open := tx.open + [f];
    assert BlocksOf(tx')[b] == open;
    DataBody(k, open, |tx.open|);
    assert open[..|tx.open|] == tx.open;
  }

  /** Every fragment a transmitter sends is authentic. */
  lemma {:induction false} AllSentIsAuthentic(k: nat, n: nat, ops: seq<Op>)
    requires Params(k, n)
    ensures var (tx, sent) := SendAll(k, n, ops);
      BlocksOk(BlocksOf(tx), k) && AllAuthentic(k, n, BlocksOf(tx), sent)
  {
    hide Authentic, Extends, Send;
    var (tx, sent) := SendAll(k, n, ops);
    BlocksOfOk(tx, k);
    if ops != [] {
      var m := |ops| - 1;
      AllSentIsAuthentic(k, n, ops[..m]);
      var (tx0, sent0) := SendAll(k, n, ops[..m]);
      SendIsAuthentic(tx0, k, n, ops[m]);
      forall i | 0 <= i < |sent0| ensures Authentic(k, n, BlocksOf(tx), sent0[i]) {
        AuthenticExtends(k, n, BlocksOf(tx0), BlocksOf(tx), sent0[i]);
      }
    }
  }

  // ------------------------------------------------------------------- the payloads

  function PayloadsOf(frags: Shards): seq<Vec>
  {
    if frags == [] then []
    else
      var m := |frags| - 1;
      PayloadsOf(frags[..m]) + (match PayloadOf(frags[m]) case Some(p) => [p] case None => [])
  }

  /** What comes out of the receiver. */
  function PayloadsHanded(out: seq<Handed>): seq<Vec>
  {
    PayloadsOf(Bodies(out))
  }

  function Bodies(out: seq<Handed>): (b: Shards)
    ensures |b| == |out|
  {
    seq(|out|, i requires 0 <= i < |out| => out[i].body)
  }

  /** What went in: the packets that are not empty, cut at the largest size. */
  function PacketsOf(ops: seq<Op>): seq<Vec>
  {
    if ops == [] then []
    else
      var m := |ops| - 1;
      PacketsOf(ops[..m]) + PacketOf(ops[m])
  }

  function Flatten(blocks: Blocks): Shards
  {
    if blocks == [] then [] else Flatten(blocks[..|blocks| - 1]) + blocks[|blocks| - 1]
  }

  lemma {:induction false} PayloadsJoin(a: Shards, b: Shards)
    ensures PayloadsOf(a + b) == PayloadsOf(a) + PayloadsOf(b)
  {
    if b == [] {
      assert a + b == a;
    } else {
      var m := |b| - 1;
      assert (a + b)[..|a + b| - 1] == a + b[..m];
      PayloadsJoin(a, b[..m]);
    }
  }

  lemma {:induction false} PayloadOfOp(op: Op)
    ensures PayloadOf(FragmentOf(op)) ==
      if op.Packet? && op.payload != [] then Some(Cut(op.payload)) else None
  {
    match op
    case Packet(payload) => MadeFragment(0, Cut(payload));
    case FecOnly => MadeFragment(FEC_ONLY, []);
  }

  /** The payloads of all data fragments so far. */
  function Held(tx: Tx): seq<Vec>
  {
    PayloadsOf(Flatten(tx.closed)) + PayloadsOf(tx.open)
  }

  function PacketOf(op: Op): seq<Vec>
  {
    if op.Packet? && op.payload != [] then [Cut(op.payload)] else []
  }

  lemma {:induction false} FragmentHeld(tx: Tx, k: nat, n: nat, f: Vec)
    requires Params(k, n) && TxOk(tx, k) && WellFormed(f)
    ensures Held(SendFragment(tx, k, n, f).0) == Held(tx) + (match PayloadOf(f) case Some(p) => [p] case None => [])
  {
    hide PayloadOf, ParityFragments;
    var open := tx.open + [f];
    assert open[..|tx.open|] == tx.open;
    if |open| == k {
      assert (tx.closed + [open])[..|tx.closed|] == tx.closed;
      PayloadsJoin(Flatten(tx.closed), open);
    }
  }

  lemma {:induction false} SendHeld(tx: Tx, k: nat, n: nat, op: Op)
    requires Params(k, n) && TxOk(tx, k)
    ensures Held(Send(tx, k, n, op).0) == Held(tx) + PacketOf(op)
  {
    hide Held, SendFragment, FragmentOf;
    PayloadOfOp(op);
    if !(op == FecOnly && tx.open == []) {
      FragmentHeld(tx, k, n, FragmentOf(op));
    }
  }

  /** The payloads of all data fragments are the packets put in. */
  lemma {:induction false} FragmentsHoldPackets(k: nat, n: nat, ops: seq<Op>)
    requires Params(k, n)
    ensures Held(SendAll(k, n, ops).0) == PacketsOf(ops)
  {
    hide Send;
    if ops != [] {
      var m := |ops| - 1;
      FragmentsHoldPackets(k, n, ops[..m]);
      SendHeld(SendAll(k, n, ops[..m]).0, k, n, ops[m]);
    }
  }

  lemma {:induction false} BodiesJoin(a: seq<Handed>, b: seq<Handed>)
    ensures Bodies(a + b) == Bodies(a) + Bodies(b)
  {}

  lemma {:induction false} WholeIsFlatten(blocks: Blocks, c: nat)
    requires c <= |blocks|
    ensures Bodies(Whole(blocks, c)) == Flatten(blocks[..c])
  {
    if c > 0 {
      WholeIsFlatten(blocks, c - 1);
      BodiesJoin(Whole(blocks, c - 1), Prefix(blocks, c - 1, |blocks[c - 1]|));
      assert blocks[..c][..c - 1] == blocks[..c - 1];
      assert Bodies(Prefix(blocks, c - 1, |blocks[c - 1]|)) == blocks[c - 1];
    }
  }

  // -------------------------------------------------------------------- end to end

  /** The channel loses, repeats and reorders, but invents nothing. */
  predicate FromChannel(arrivals: seq<Arrival>, sent: seq<Arrival>)
  {
    forall i :: 0 <= i < |arrivals| ==> arrivals[i] in sent
  }

  /**
    End to end: if the arrivals are orderly and k fragments of every closed block get
    through, the receiver outputs the packets of the closed blocks, each once and in
    order, and then the first packets of the open block. When no block is open, that is
    exactly what was sent.
  */
  lemma {:induction false} EndToEnd(k: nat, n: nat, ops: seq<Op>, arrivals: seq<Arrival>) returns (s: nat)
    requires Params(k, n) && FromChannel(arrivals, SendAll(k, n, ops).1) && Orderly(arrivals, k, n)
    requires forall b :: 0 <= b < |SendAll(k, n, ops).0.closed| ==> Complete(arrivals, b, k, n)
    ensures AllAdmissible(arrivals)
    ensures var tx := SendAll(k, n, ops).0; var out := Run(k, n, arrivals).out;
      && s <= |tx.open|
      && PayloadsHanded(out) == PayloadsOf(Flatten(tx.closed)) + PayloadsOf(tx.open[..s])
      && PacketsOf(ops) == PayloadsOf(Flatten(tx.closed)) + PayloadsOf(tx.open)
      && (tx.open == [] ==> PayloadsHanded(out) == PacketsOf(ops))
  {
    hide Orderly, Complete, PayloadOf;
    var (tx, sent) := SendAll(k, n, ops);
    AllSentIsAuthentic(k, n, ops);
    var blocks := BlocksOf(tx);
    forall i | 0 <= i < |arrivals| ensures Authentic(k, n, blocks, arrivals[i]) {
      var j :| 0 <= j < |sent| && sent[j] == arrivals[i];
    }
    var closed := |tx.closed|;
    s := EverythingDelivered(arrivals, blocks, closed, k, n);
    FragmentsHoldPackets(k, n, ops);
    WholeIsFlatten(blocks, closed);
    assert blocks[..closed] == tx.closed;
    OutputPayloads(blocks, closed, s);
  }

  lemma {:induction false} OutputPayloads(blocks: Blocks, c: nat, s: nat)
    requires c < |blocks| && s <= |blocks[c]|
    ensures var out := Whole(blocks, c) + (if s == 0 then [] else Prefix(blocks, c, s));
      PayloadsHanded(out) == PayloadsOf(Flatten(blocks[..c])) + PayloadsOf(blocks[c][..s])
  {
    WholeIsFlatten(blocks, c);
    var rest := if s == 0 then [] else Prefix(blocks, c, s);
    BodiesJoin(Whole(blocks, c), rest);
    assert Bodies(rest) == blocks[c][..s];
    PayloadsJoin(Flatten(blocks[..c]), blocks[c][..s]);
  }
}
