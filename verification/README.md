# wfb-go: proofs about the link

wfb-go carries packets over a lossy one-way radio link. The transmitter puts packets
into blocks of k fragments, adds n - k parity fragments to each block, seals every
fragment and injects it. The receiver opens what arrives, in whatever order and with
whatever losses, rebuilds blocks from any k of their fragments and puts the packets out.
Beside the link, small stateful parsers take byte streams apart: MAVLink telemetry,
H.265 video, and length-framed packets.

This project models those parts in Dafny and proves what they are for. Objects that the
program updates in place are classes here; loops over buffers are loops over arrays; what
they compute is tied to functions on values, about which the laws are proved.

The main results:

- **Any k of n shards give back the data.** The field tables are those of GF(2^8) modulo
  0x11D, the generator built from them is systematic and any k of its rows are
  independent, the in-place Gauss-Jordan inversion is a two-sided inverse for every
  invertible matrix, and `Reconstruct` therefore returns the original shards, in buffers,
  for every pattern of losses that leaves k of them (`Codec.Fec.Reconstruct`,
  `ReedSolomon.AnyKShardsGiveTheData`). k - 1 shards are never enough. Which generator it
  is follows from the rows of 1, g, g^2, ... alone (`Vandermonde.GeneratorTimesVandermonde`).
- **The circular ring is a sliding window.** Lookup, push, eviction, advance and recovery
  on 40 circular slots with fixed buffers refine a window of consecutive blocks, and after
  any number of packets the ring and the output queue are exactly those of the abstract
  receiver on the same fragments (`RxAggregator.Aggregator.ProcessDataPacket`).
- **In order, at most once**, for any arrivals at all
  (`WindowRuns.OutputInOrderAtMostOnce`), and exactly when a fragment that could go out
  waits (`PromptOutput.HeldBackExactly`).
- **The transmitter**, whatever injections fail: what every call puts on air, seals and
  leaves behind is a function of the state before and of the results of the injections
  (`TxTransmitter.Transmitter.SendPacketWithFlags`). As long as no packet goes out under a
  parity index, the fragments on air are those the abstract sender sends for the same
  operations (`TxPlan.CallIsTraced`, kept by every call); no two frames on air share a key
  and a nonce (`TxLog.NoncesRise`).
- **Nothing invented or altered, everything delivered.** For a transmitter that has sent
  no packet under a parity index, the receiver hands over only fragments the transmitter
  put there (`Link.NothingAlteredOnTheLink`, `Fidelity.NothingInventedOrAltered`), and
  exactly the packets sent when the arrivals are orderly and k fragments of every closed
  block get through (`Link.ObjectsEndToEnd`, from one object's calls to the other's queue).
  Block by block, one that is complete before any later block and before anything from 40
  blocks ahead is put out whole, whatever becomes of the others
  (`BlockDelivery.CompleteBlockIsDelivered`).
- **Poly1305** in 64-bit limbs with lazy reduction computes the polynomial of section 2.5
  of RFC 8439 however the message is cut into pieces; opening gives a plaintext exactly for
  what was sealed from it (`Poly1305.TagIsPolynomial`, `Aead.OpensExactlyWhatWasSealed`).
  Key clamping, quarter round, blocks and sealed text are also fixed byte by byte.
- **The stream parsers** do not depend on how the stream is cut into chunks and give back
  what was put together, from packets and messages built field by field; every byte of a
  MAVLink or byte stream is accounted for (`Mavlink.BytesConserved`, `AnnexB.StreamConserved`).

## Where the code and its comments part

- An evicted block is flushed only after its slot has been overwritten, so an eviction
  puts nothing out: `RxRing.Ring.GetBlockRingIdx` returns slots that hold nothing,
  `RxAggregator.Aggregator.FlushEvictedBlock` leaves the queue alone
  (pkg/rx/ring.go:117-119, pkg/rx/aggregator.go:707-708). A block is evicted exactly by a
  fragment from 40 blocks ahead or more (`Eviction.EvictedExactlyWhenFarBehind`), and what
  had been received of it and not put out is lost exactly if such a fragment comes first
  (`Eviction.LostExactlyWhenOvertaken`; `Eviction.ReceivedAndLost` is such a run).
- `Reconstruct` allows a missing shard to be "nil (or zero length)"
  (pkg/fec/zfex.go:225); an empty data shard that is not nil makes it panic, and so does a
  chosen shard whose buffer is shorter than the first shard present. The exact condition
  is `Codec.Fec.Outcome` (`Codec.Fec.EmptySlicePanics` and `ShortBufferPanics` are such inputs).
- `invertVandermonde` inverts a Vandermonde matrix only if there are at most two points or
  one of the first two is 0: the first round of its coefficient loop skips a term.
  `EncMatrix.InverseExactlyWhenLoopIsRight` is an if-and-only-if; the only caller meets it,
  the points 1, 2, 4 do not (`EncMatrix.NotTheInverseAt124`).
- A parity injection that fails leaves the block open among its parity fragments, and the
  next packet is sent under a parity index; a receiver may take it for another packet
  (`Failures.StrayPacket`). What gets on air of a call is authentic exactly if that is
  nothing, or the call comes at a fragment index below k, as `BlockInfo` shows, or the
  packet is by chance the parity of that index and any parity sent after it has the size
  of the block (`TxPlan.CallIsAuthenticExactly`). The timeout does not close such a block
  (`TxTransmitter.Transmitter.CheckFECTimeout`).
- A fragment is sealed before it is injected, and keeps its index when the injection
  fails: the next packet is then sealed under the same nonce (`Failures.RetriedNonce`).
  The nonces sealed under rise strictly exactly if nothing is sealed after a failure in
  the same session (`TxLog.NoncesRiseExactlyWithoutRetry`).
- The transmitter uses block indices up to 2^56 - 1, the receiver refuses those above
  2^55 - 1 (`Link.LaterBlocksRefused`); `Link.LinkEndToEnd` states the smaller bound.
- The loss count takes a last sequence number of 0 for "nothing seen yet", so a gap right
  after packet 0 is not counted (`LossAccounting.LossesConserve` gives the exact condition).
- Fragments of the front block go out as soon as there is no gap before them
  (pkg/rx/aggregator.go:643-644), but only when a new fragment of that block arrives: a
  block that becomes the front one with its first fragment already there holds it back
  until then (`PromptOutput.HeldBackExactly` is an if-and-only-if over all runs,
  `PromptOutput.ReadyButHeldBack` such a run).
- The flush timer of the packet aggregator is cleared only by a flush that sends
  something: a timer that runs out with nothing pending, after an empty packet without
  framing, is never started again until the next flush (`Framing.PendingHasTimer` gives
  the exact condition, `Framing.PacketWithoutTimer` such a sequence of calls).
- The header of an RTP extension is skipped only if something follows it, so alone it is
  taken for the payload (`RtpPackets.PayloadFound`, `RtpPackets.ExtensionMissing`).
- A fragmentation unit with both the start and the end bit is kept back, not put out
  (`Rtp.SingleFragmentIsKept`).

## Model

| member | source | states |
|---|---|---|
| `Gf256.MulComm` | pkg/fec/gf256.go:106-108 | multiplication of bytes commutes |
| `Gf256.MulAssoc` | pkg/fec/gf256.go:106-108 | multiplication is associative |
| `Gf256.MulDistrib` | pkg/fec/gf256.go:106-113 | multiplication distributes over XOR |
| `Gf256.MulIsClmulModulo` | pkg/fec/gf256.go:5-6 | the product is the carry-less product reduced by a multiple of 0x11D |
| `Gf256Powers.ExpAdd` | pkg/fec/gf256.go:8-10 | powers of the generator multiply by adding exponents |
| `Gf256Powers.ExpPeriod` | pkg/fec/gf256.go:70-73 | the powers repeat after 255 |
| `Gf256Powers.NoShorterPeriod` | pkg/fec/gf256.go:5-6 | and not earlier: the polynomial is primitive |
| `Gf256Powers.ExpInjective` | pkg/fec/gf256.go:12-13 | the first 255 powers are distinct, so logarithms are well defined |
| `Gf256Powers.EveryByteIsAPower` | pkg/fec/gf256.go:12-13 | every byte but 0 is one of them |
| `Gf256Powers.InvIsInverse` | pkg/fec/gf256.go:115-118 | every byte but 0 has a two-sided inverse |
| `Gf256Powers.NoZeroDivisors` | pkg/fec/gf256.go:106-108 | a product is 0 only if a factor is |
| `Gf256Tables.Modnn` | pkg/fec/gf256.go:96-103 | the folding loop computes x % 255 for every x and ends |
| `Gf256Tables.InitSmallPowers` | pkg/fec/gf256.go:36-54 | the first nine powers and their logarithms are right |
| `Gf256Tables.InitExpLog` | pkg/fec/gf256.go:30-73 | all 510 powers and 255 logarithms are right |
| `Gf256Tables.InitInverse` | pkg/fec/gf256.go:75-80 | the inverse table inverts in the field |
| `Gf256Tables.InitProductRow` | pkg/fec/gf256.go:82-91 | a row of the product table holds the products in the field |
| `Gf256Tables.InitGF` | pkg/fec/gf256.go:25-94 | all tables together describe the field |
| `Gf256Tables.Tables.GfMul` | pkg/fec/gf256.go:106-108 | the table lookup is multiplication in the field |
| `Gf256Tables.Tables.GfInv` | pkg/fec/gf256.go:116-118 | the table lookup is the inverse, and 0 for 0 |
| `FlatMatrix.GfAddMul` | pkg/fec/gf256.go:121-129 | adds a multiple of one stretch of bytes to another, byte by byte, and touches nothing else |
| `Matrices.AddMulLinear` | pkg/fec/gf256.go:121-129 | that operation is linear in the source and in the factor, for slices of any length |
| `Polynomials.QuotientDivides` | pkg/fec/zfex.go:407-416 | synthetic division by x + r leaves the value at r |
| `Polynomials.TooManyRoots` | pkg/fec/zfex.go:381-422 | a polynomial with more roots than its degree is zero |
| `Polynomials.EqualAtPoints` | pkg/fec/zfex.go:381-422 | polynomials that agree at as many points as they have coefficients are equal |
| `Vandermonde.PointsApart` | pkg/fec/zfex.go:51-63 | the points 0, 1, a, a^2, ... of the rows are distinct |
| `Vandermonde.InterpolateHits` | pkg/fec/zfex.go:381-422 | the Lagrange polynomial takes the given values |
| `Vandermonde.GeneratorInterpolates` | pkg/fec/zfex.go:65-70 | a row of the generator evaluates the polynomial through the data at the row's point |
| `Vandermonde.GeneratorIsSystematic` | pkg/fec/zfex.go:72-78 | the top k rows are the identity |
| `Vandermonde.AnyRowsNonsingular` | pkg/fec/zfex.go:42-79 | any k distinct rows of the generator are linearly independent |
| `Vandermonde.GeneratorTimesVandermonde` | pkg/fec/zfex.go:51-70 | row r of the generator takes the Vandermonde matrix of 0, 1, g, g^2, ... (each element twice the one before) to that row of its r-th element: this fixes the generator |
| `Vandermonde.GeneratorOfTwo` | pkg/fec/zfex.go:61 | the first parity row for two data shards is 3, 2 |
| `ReedSolomon.ParityOfTwo` | pkg/fec/zfex.go:93-145 | the parity byte of the data a, b is 3a + 2b |
| `EncMatrix.FillVandermonde` | pkg/fec/zfex.go:48-63 | the temporary matrix holds the powers of the row points |
| `EncMatrix.CoefficientRound` | pkg/fec/zfex.go:399-405 | one round updates every coefficient it visits by p times the next and adds p to the last |
| `EncMatrix.MasterCoefficients` | pkg/fec/zfex.go:397-405 | the loop computes the master polynomial with 0 and p0 + p1 for the first two points |
| `EncMatrix.DivideOut` | pkg/fec/zfex.go:408-416 | the inner loop divides by x + p and evaluates the quotient at p |
| `EncMatrix.WriteColumn` | pkg/fec/zfex.go:418-420 | the quotient, divided by that value, becomes one column; rows below are untouched |
| `EncMatrix.InvertVandermonde` | pkg/fec/zfex.go:383-422 | what the in-place inversion computes, for any points |
| `EncMatrix.InverseExactlyWhenLoopIsRight` | pkg/fec/zfex.go:381-405 | that is the inverse if and only if there are at most two points or one of the first two is 0 |
| `EncMatrix.NotTheInverseAt124` | pkg/fec/zfex.go:399-405 | for the points 1, 2, 4 the result is not the inverse |
| `EncMatrix.VandermondeInverse` | pkg/fec/zfex.go:381-422 | the matrix of Lagrange basis coefficients is the two-sided inverse |
| `EncMatrix.MatMul` | pkg/fec/zfex.go:369-379 | the triple loop is the matrix product |
| `EncMatrix.BuildEncMatrix` | pkg/fec/zfex.go:44-79 | the matrix built is the systematic generator, for all 1 <= k <= n <= 255 |
| `GaussJordan.PivotKeepsTableau` | pkg/fec/zfex.go:467-497 | a pivot step keeps the relation to the original matrix |
| `GaussJordan.SwapKeepsTableau` | pkg/fec/zfex.go:457-465 | so does a recorded row swap |
| `GaussJordan.PivotExists` | pkg/fec/zfex.go:435-453 | while columns are left, an invertible matrix always has a pivot |
| `GaussJordan.UndoSwap` | pkg/fec/zfex.go:501-508 | undoing the last recorded swap on columns keeps the inverse |
| `FlatMatrix.FindPivot` | pkg/fec/zfex.go:435-453 | the search finds an unused row and column with a non-zero entry |
| `FlatMatrix.NormalizeRow` | pkg/fec/zfex.go:467-476 | the pivot row is divided by the pivot, whose place takes the inverse |
| `FlatMatrix.EliminateOthers` | pkg/fec/zfex.go:478-498 | elimination in all other rows, also when the row is a unit row and nothing is done |
| `FlatMatrix.SwapRows` | pkg/fec/zfex.go:457-462 | two rows of the flat matrix trade places |
| `FlatMatrix.SwapCols` | pkg/fec/zfex.go:502-508 | two columns trade places |
| `FlatMatrix.Eliminate` | pkg/fec/zfex.go:434-499 | after all columns the buffer is the inverse up to the recorded swaps |
| `FlatMatrix.InvertMatrix` | pkg/fec/zfex.go:426-509 | for every invertible matrix the buffer ends as its left and right inverse |
| `ReedSolomon.DataShardsAreThemselves` | pkg/fec/zfex.go:72-78 | data shards are part of the codeword unchanged |
| `ReedSolomon.ChosenFacts` | pkg/fec/zfex.go:264-293 | with k shards there, k distinct ones are chosen, data shards at their own places |
| `ReedSolomon.SolveOfCodeword` | pkg/fec/zfex.go:227-330 | decoding from any k rows gives back the data vector |
| `ReedSolomon.AnyKShardsGiveTheData` | pkg/fec/zfex.go:223-330 | whichever k or more shards of a codeword are there, the data shards are reconstructed |
| `ReedSolomon.FewerShardsAreNotEnough` | pkg/fec/zfex.go:247-249 | k - 1 shards do not determine the data: any other shard shows a difference they do not |
| `Codec.CombineShards` | pkg/fec/zfex.go:129-142 | clearing and adding multiples computes one matrix row over all bytes |
| `Codec.Fec.New` | pkg/fec/zfex.go:23-40 | an error unless 1 <= k <= n <= 255; otherwise encoder and decoder hold the generator matrix |
| `Codec.Fec.Encode` | pkg/fec/zfex.go:93-145 | accepts exactly fitting shards, nil ones too, and fills the parity with the codeword, leaving the rest of each buffer |
| `Codec.Fec.CountShards` | pkg/fec/zfex.go:235-245 | counts the shards present and takes the size of the first one |
| `Codec.Fec.ChooseShards` | pkg/fec/zfex.go:264-293 | both passes choose the shards of `ReedSolomon.ChosenFacts` |
| `Codec.Fec.ShuffleShards` | pkg/fec/zfex.go:355-366 | the loop ends with every data shard at its place, a permutation that keeps shards and indices together |
| `Codec.Fec.BuildDecodeMatrix` | pkg/fec/zfex.go:333-352 | the decode matrix is the inverse of the chosen generator rows |
| `Codec.Fec.AllocateMissing` | pkg/fec/zfex.go:302-309 | only nil slots get a buffer; an empty slice is used as it is |
| `Codec.Fec.DecodeRows` | pkg/fec/zfex.go:311-327 | every missing data shard is computed into its buffer |
| `Codec.Fec.Reconstruct` | pkg/fec/zfex.go:227-330 | the result for all shards: an error exactly below k shards; with data missing a panic exactly when a missing slot is empty but not nil or a chosen buffer is shorter than the first shard present; otherwise every missing data shard as decoded from that many bytes of the chosen buffers, the others untouched |
| `Codec.Fec.OutcomeOfOneSize` | pkg/fec/zfex.go:223-226 | shards of one size panic exactly when a missing data slot is empty but not nil |
| `Codec.Fec.CutInputs` | pkg/fec/zfex.go:320-324 | slicing the chosen shards to that size, which their buffers must reach |
| `Codec.Fec.EmptySlicePanics` | pkg/fec/zfex.go:302-309 | the same shards give a panic with an empty slice and the data with nil |
| `Codec.Fec.ShortBufferPanics` | pkg/fec/zfex.go:320-324 | three slots of different sizes that make it panic |
| `Packets.MadeFragment` | pkg/protocol/packets.go:135-151 | a fragment with its header gives its payload back, and nothing for padding or an empty payload |
| `Packets.PayloadExactly` | pkg/rx/aggregator.go:749-773 | a payload comes out exactly of a fragment that is no padding and holds a payload of the size it says |
| `Packets.SentFragmentAt` | pkg/protocol/packets.go:135-140 | flags, big-endian size and payload by position; cut at 3993 bytes, 3996 in all |
| `Frames.BigEndianOfBytes` | pkg/protocol/packets.go:105-121 | a number survives its big-endian bytes |
| `Frames.NonceRoundTrip` | pkg/protocol/packets.go:123-132 | the nonce gives block and fragment index back, so no two fragments share one |
| `Frames.FrameRoundTrip` | pkg/protocol/packets.go:104-132 | so does a whole frame |
| `Frames.SessionRoundTrip` | pkg/protocol/packets.go:76-102 | session data survives, with any attributes behind it |
| `Frames.FrameAt` | pkg/protocol/packets.go:104-127 | a frame by position: 1, seven bytes of block index, one of fragment index, ciphertext |
| `Frames.SessionAt` | pkg/protocol/packets.go:76-86 | session data by position: epoch, channel, code, k, n, key |
| `Frames.UnmarshalledIsMarshalled` | pkg/protocol/packets.go:88-102 | all that unmarshals is marshalled data with something behind it |
| `Window.Find` | pkg/rx/ring.go:122-127 | the first live slot of a block, or none |
| `Window.NewCount` | pkg/rx/ring.go:134-143 | how many slots a new block takes: at most 40, never past block 0 |
| `Window.DecodeSizeFrom` | pkg/rx/ring.go:245-260 | the size for decoding is that of the largest parity fragment there, or without any of the largest fragment |
| `Window.RebuiltAt` | pkg/rx/ring.go:285-296 | a rebuilt fragment is cut at the size its header gives, if it has that much |
| `Window.FitIsDecodable` | pkg/rx/ring.go:245-270 | with k fragments the shards built for the decoder can be decoded |
| `Window.AdmitIsValid` | pkg/rx/ring.go:129-165 | making room, also by a jump beyond the ring, leaves consecutive blocks ending with the new one |
| `WindowRuns.StoreKeepsValid` | pkg/rx/aggregator.go:565-623 | storing a fragment keeps the window: consecutive, at most 40 blocks, none decodable |
| `WindowRuns.StepKeepsValid` | pkg/rx/aggregator.go:556-623 | so does every packet: recovery never sticks |
| `WindowRuns.AdmitRaisesFloor` | pkg/rx/ring.go:145-163 | making room never lets output go back |
| `WindowRuns.StepRises` | pkg/rx/aggregator.go:588-619 | one packet hands over strictly increasing (block, fragment) pairs above all before |
| `WindowRuns.OutputInOrderAtMostOnce` | pkg/rx/aggregator.go:588-745 | over whole runs with any arrivals output is strictly increasing |
| `Fidelity.SizesAgree` | pkg/rx/ring.go:245-260 | the size used for decoding is the one the encoder used |
| `Fidelity.ReceivedIsErasure` | pkg/rx/ring.go:262-270 | received fragments, cut or padded, are shards of the padded block's codeword |
| `Fidelity.HeaderGivesSize` | pkg/rx/ring.go:285-296 | the header of a rebuilt fragment gives its true size |
| `Fidelity.EnoughMeansClosed` | pkg/rx/ring.go:217-224 | k authentic fragments are there only of closed blocks |
| `Fidelity.RecoveryIsExact` | pkg/rx/ring.go:238-302 | recovery gives exactly the fragments sent, also of unequal lengths |
| `Fidelity.NothingInventedOrAltered` | pkg/rx/aggregator.go:517-745 | every fragment handed over in any run of authentic arrivals is the one the transmitter put there |
| `Delivery.StepKeepsInv` | pkg/rx/aggregator.go:517-623 | under orderly arrivals each packet keeps "all before the front delivered whole" |
| `Delivery.EverythingDelivered` | pkg/rx/aggregator.go:517-623 | if k fragments of every closed block arrive, output is all of them, each once and in order |
| `BlockDelivery.RunHolds` | pkg/rx/aggregator.go:517-623 | after any arrivals at all each block in flight holds everything that arrived of it, and what it passed on has been put out |
| `BlockDelivery.StepKeepsBlock` | pkg/rx/aggregator.go:517-623 | an arrival less than 40 ahead that completes no later block leaves a block put out whole, in flight, or still to come |
| `BlockDelivery.CompleteBlockIsDelivered` | pkg/rx/aggregator.go:599-620 | a block complete before any later one, and before anything from 40 blocks ahead, is put out whole, whatever becomes of the other blocks |
| `PromptOutput.FirstBlockAlone` | pkg/rx/ring.go:134-163 | the first block of a session is alone in the window, whatever its index |
| `PromptOutput.FirstArrival` | pkg/rx/aggregator.go:587-597 | fragment 0 as the first arrival is put out at once; any other one waits |
| `PromptOutput.FrontStays` | pkg/rx/aggregator.go:587-597 | while a block stays in front, nothing of it is held back after a new fragment of it |
| `PromptOutput.FrontMoves` | pkg/rx/aggregator.go:599-620 | when a block becomes the front one it is held back exactly if its first fragment was there before |
| `PromptOutput.HeldBackExactly` | pkg/rx/aggregator.go:587-620 | after any arrivals the next fragment of the front block is ready but not put out if and only if its first fragment was there before it became the front one and nothing new of it has come since |
| `PromptOutput.ReadyButHeldBack` | pkg/rx/aggregator.go:587-597 | a run that ends so |
| `Eviction.LaterOutputsAboveFloor` | pkg/rx/ring.go:145-163 | what is handed over later never goes below the floor reached |
| `Eviction.BlockBehindIsLost` | pkg/rx/aggregator.go:565-568 | a block that fell out of the window is never put out again |
| `Eviction.EvictedExactlyWhenFarBehind` | pkg/rx/ring.go:134-163 | making room pushes out exactly the blocks 40 or more behind the new one; the others stay as they are |
| `Eviction.LostExactlyWhenOvertaken` | pkg/rx/ring.go:117-119 | over any run, a data fragment received and not put out is lost if and only if an arrival from 40 blocks ahead or more comes before it is put out |
| `Eviction.ReceivedAndLost` | pkg/rx/aggregator.go:565-568 | a run that loses a fragment it had received, and puts nothing out |
| `Sender.AllSentIsAuthentic` | pkg/tx/transmitter.go:254-401 | every fragment of every run of the abstract sender is data or parity of a block of that run |
| `Sender.FragmentsHoldPackets` | pkg/tx/transmitter.go:254-315 | the fragments hold exactly the non-empty packets, cut at 3993 bytes, in order |
| `Sender.EndToEnd` | pkg/tx/transmitter.go:254-401 | orderly arrivals from a lossy, repeating, reordering channel give the packets back |
| `RingItems.ModN` | pkg/rx/ring.go:113-115 | the positive modulo for positions up to twice the ring |
| `RingItems.LiveWrite` | pkg/rx/ring.go:353-366 | writing one circular slot changes one block of the window |
| `RingItems.LivePush` | pkg/rx/ring.go:171-175 | taking the next free slot appends a block |
| `RingItems.LiveEvict` | pkg/rx/ring.go:177-180 | reusing the front slot of a full ring drops the oldest block and appends |
| `RingItems.LiveAdvance` | pkg/rx/ring.go:467-473 | clearing the front slot and moving on drops the oldest block |
| `RingItems.StoreFragment` | pkg/rx/aggregator.go:570-585 | clearing, copying and setting the size stores the fragment with zero padding |
| `RingItems.BufferFits` | pkg/rx/ring.go:262-270 | the first bytes of a buffer are the fragment, cut or padded with zeros |
| `RxRing.Ring.New` | pkg/rx/ring.go:42-66 | an error unless the parameters fit; otherwise a new ring is an empty window |
| `RxRing.Ring.ClearItem` | pkg/rx/ring.go:103-110 | one slot is emptied, its buffers stay |
| `RxRing.Ring.Reset` | pkg/rx/ring.go:69-100 | after a reset the window is empty, also with other parameters; ones that do not fit change nothing |
| `RxRing.Ring.RingPush` | pkg/rx/ring.go:170-181 | the next free slot, or the front one of a full ring |
| `RxRing.Ring.PushBlock` | pkg/rx/ring.go:151-162 | one block more, and the slot taken holds nothing, evicted or not |
| `RxRing.Ring.GetBlockRingIdx` | pkg/rx/ring.go:121-166 | found, rejected or admitted exactly as in the window; evicted slots hold nothing |
| `RxRing.Ring.GetFragmentBuffer` | pkg/rx/ring.go:328-349 | only a free place gives its buffer, cleared |
| `RxRing.Ring.SetFragmentSize` | pkg/rx/ring.go:353-366 | size and count set; tells whether k fragments are there |
| `RxRing.Ring.NeedsRecovery` | pkg/rx/ring.go:217-234 | exactly when k fragments are there and one of the data is missing |
| `RxRing.Ring.GetFragment` | pkg/rx/ring.go:305-320 | the filled part of the buffer, or nothing |
| `RxRing.Ring.GetNextToSend` | pkg/rx/ring.go:369-382 | the send pointer, moved on, up to k |
| `RxRing.Ring.BuildShards` | pkg/rx/ring.go:262-270 | the shards are the fitted fragments, nil where nothing was received |
| `RxRing.Ring.PutShardsBack` | pkg/rx/ring.go:277-299 | rebuilt shards go into the buffers with the sizes their headers give |
| `RxRing.Ring.Recover` | pkg/rx/ring.go:238-302 | an error exactly below k fragments, otherwise the slot is the recovered one, and how many were rebuilt |
| `RxRing.Ring.Advance` | pkg/rx/ring.go:467-473 | the window without its oldest block |
| `RxAggregator.Aggregator.constructor` | pkg/rx/aggregator.go:203-231 | starts without a session |
| `RxAggregator.SeqCounts` | pkg/rx/aggregator.go:780-781 | sequence numbers count the data fragments of all blocks from 0, modulo 2^32 |
| `RxAggregator.AcceptedExactly` | pkg/rx/aggregator.go:391-465 | announced session data is taken if and only if it is long enough, not of an older epoch, for this channel, of the known code, and 1 <= k <= n |
| `RxAggregator.OnlySessionsAccepted` | pkg/rx/aggregator.go:391-465 | nothing but session data is taken |
| `RxAggregator.Aggregator.StartSession` | pkg/rx/aggregator.go:467-508 | a new key empties the window, with the new parameters, and keeps the queue |
| `RxAggregator.Aggregator.ProcessSessionPacket` | pkg/rx/aggregator.go:391-514 | the verdict on every announcement; repeated or same-key ones leave the blocks in flight alone; the epoch never goes back |
| `RxAggregator.Aggregator.OutputFragment` | pkg/rx/aggregator.go:749-794 | queues the payload with its sequence number, or nothing for padding and malformed fragments |
| `RxAggregator.Aggregator.SendContiguousFragments` | pkg/rx/aggregator.go:645-669 | passes on the gapless run and moves the send pointer to its end |
| `RxAggregator.Aggregator.SendAllFragments` | pkg/rx/aggregator.go:672-688 | passes on all that was not passed on yet |
| `RxAggregator.Aggregator.FlushSingleBlock` | pkg/rx/aggregator.go:727-745 | passes on what there is of the front block, then drops it |
| `RxAggregator.Aggregator.FlushOlderBlocks` | pkg/rx/aggregator.go:692-705 | every block before the target, oldest first; ends by the circular distance |
| `RxAggregator.Aggregator.FlushEvictedBlock` | pkg/rx/aggregator.go:709-723 | puts nothing out: the slot has been taken over |
| `RxAggregator.Aggregator.ProcessCompleteBlock` | pkg/rx/aggregator.go:626-641 | with k fragments recovery never fails, and the block is complete |
| `RxAggregator.Aggregator.StoreInSlot` | pkg/rx/aggregator.go:570-585 | stores a fragment unless it is there already or out of range |
| `RxAggregator.Aggregator.DeliverFront` | pkg/rx/aggregator.go:587-597 | the front block passes on its gapless run, and is dropped when that is all |
| `RxAggregator.Aggregator.FinishBlock` | pkg/rx/aggregator.go:599-620 | older blocks flushed, this one completed, put out and dropped |
| `RxAggregator.Aggregator.StoreAndDeliver` | pkg/rx/aggregator.go:570-623 | window and queue change as in one abstract step |
| `RxAggregator.Aggregator.ProcessDataPacket` | pkg/rx/aggregator.go:517-623 | the verdict on every frame; after any calls ring and queue are those of the abstract run over the session's fragments |
| `LossAccounting.OutputProcessor.Run` | pkg/rx/aggregator.go:235-263 | counts, bytes and deliveries of the output loop over any queue |
| `LossAccounting.DeliveredInOrder` | pkg/rx/aggregator.go:248-256 | every packet is delivered in its place and every byte counted once |
| `LossAccounting.LossesConserve` | pkg/rx/aggregator.go:242-246 | packets out plus losses counted equal the numbers spanned, if and only if no gap follows packet 0 |
| `LossAccounting.LossAfterZeroIsMissed` | pkg/rx/aggregator.go:242-246 | a queue on which the count misses four losses |
| `LossAccounting.GapLossWraps` | pkg/rx/aggregator.go:242-246 | numbers that go back add no loss; a wrap is seen only directly after the highest number |
| `LossAccounting.OutputsIncrease` | pkg/rx/aggregator.go:780-781 | increasing pairs give increasing sequence numbers while they fit 32 bits |
| `LossAccounting.RunLossesConserve` | pkg/rx/aggregator.go:235-263 | the same for whole runs of the receiver whose numbers fit 32 bits |
| `TxLog.NoncesRise` | pkg/tx/transmitter.go:323-328 | of two fragments on air the later has a later session or a larger nonce |
| `TxLog.AirIsOrdered` | pkg/tx/transmitter.go:318-352 | because the fragments on air are the sealings that got through, in order |
| `TxLog.NoncesRiseExactlyWithoutRetry` | pkg/tx/transmitter.go:335-347 | the nonces sealed under rise strictly if and only if no injection failed before another sealing of its session |
| `TxLog.RetryReusesNonce` | pkg/tx/transmitter.go:289-291 | the sealing after a failure in the same session uses the same nonce |
| `TxPlan.PlannedIsSent` | pkg/tx/transmitter.go:299-315 | below fragment index k a call plans just the fragments the abstract sender sends |
| `TxPlan.PlannedFits` | pkg/tx/transmitter.go:261-297 | every fragment a call sends, in any state, fits the 3996-byte buffers of the receiver |
| `TxPlan.CallIsTraced` | pkg/tx/transmitter.go:254-401 | whatever fails in such a call, the fragments on air stay those of the abstract sender, but for the parity still to come |
| `TxPlan.OnAirIsAuthentic` | pkg/tx/transmitter.go:254-401 | so all fragments on air are data or parity of the session's blocks |
| `TxPlan.CallIsAuthenticExactly` | pkg/tx/transmitter.go:370-380 | of a call whose first c fragments get on air, these are authentic if and only if c is 0, the call comes below index k, or its fragment is the parity of its index and, beyond the first, the size is that of the block |
| `TxTransmitter.Transmitter.New` | pkg/tx/transmitter.go:98-138 | an error unless the parameters fit after the defaults; otherwise an open block of nothing |
| `TxTransmitter.Transmitter.InitSession` | pkg/tx/transmitter.go:141-181 | fresh encoder and buffers, counters at 0, another key; an error changes nothing |
| `TxTransmitter.Transmitter.SendSessionKey` | pkg/tx/transmitter.go:221-234 | one announcement at any time, which disturbs nothing |
| `TxTransmitter.Transmitter.SendBlockFragment` | pkg/tx/transmitter.go:318-352 | the fragment is sealed under the current nonce, and on air exactly if the injection succeeds |
| `TxTransmitter.Transmitter.FillBuffer` | pkg/tx/transmitter.go:261-286 | header, payload cut at the limit, and zeros to the end of the buffer |
| `TxTransmitter.Transmitter.CountFragment` | pkg/tx/transmitter.go:293-297 | index, open block and maxPktSize after one more fragment; below index k maxPktSize stays the largest fragment |
| `TxTransmitter.Transmitter.SendOne` | pkg/tx/transmitter.go:254-297 | one fragment sealed, and sent and counted if its injection succeeds |
| `TxTransmitter.Transmitter.EncodeBlock` | pkg/tx/transmitter.go:356-368 | the parity buffers hold the codeword of the data buffers, which stay |
| `TxTransmitter.Transmitter.SendParity` | pkg/tx/transmitter.go:370-380 | the parity fragments, sealed and on air in order up to the first failure |
| `TxTransmitter.Transmitter.Announce` | pkg/tx/transmitter.go:392-397 | announcements up to the first failure |
| `TxTransmitter.Transmitter.NextBlock` | pkg/tx/transmitter.go:382-398 | the next block, and after index 2^56 - 1 another session, announced |
| `TxTransmitter.Transmitter.EncodeFECAndSend` | pkg/tx/transmitter.go:355-401 | the plan for closing up to the first failure, on air and sealed, and where the block then stands |
| `TxTransmitter.Transmitter.SendPacketWithFlags` | pkg/tx/transmitter.go:254-315 | the frames, sealings, results used and state of every call, whatever fails; keeps the trace of the session; without failures one step of the abstract sender |
| `TxTransmitter.Transmitter.CloseBlock` | pkg/tx/transmitter.go:419-424 | the closing loops end, with the block fully closed if nothing fails |
| `TxTransmitter.Transmitter.CheckFECTimeout` | pkg/tx/transmitter.go:489-510 | nothing before the timeout, nor for a block among its parity fragments; otherwise the open block is closed |
| `TxTransmitter.Transmitter.SetFEC` | pkg/tx/transmitter.go:411-442 | invalid parameters change nothing; otherwise the block is closed and a new session announced |
| `TxTransmitter.CloseOpenCloses` | pkg/tx/transmitter.go:503-509 | closing completes the open block with padding and changes no payload |
| `Failures.StrayIsTakenForData` | pkg/rx/ring.go:238-302 | a fragment under the parity index of a block of one is handed over as its data |
| `Failures.StrayPacket` | pkg/tx/transmitter.go:276-380 | a transmitter whose parity injection fails puts the next packet under that index, and the receiver takes it for the first |
| `Failures.RetriedNonce` | pkg/tx/transmitter.go:289-291 | a transmitter whose injection fails seals two packets under one nonce |
| `Link.TakenAsSent` | pkg/rx/aggregator.go:546-555 | up to the receiver's limit a fragment is taken for what it was sent as |
| `Link.LaterBlocksRefused` | pkg/tx/transmitter.go:16-17 | the transmitter's larger indices are refused |
| `Link.LinkEndToEnd` | pkg/rx/aggregator.go:517-794 | frames on air to packets queued: exactly the packets sent, each once and in order |
| `Link.NothingAlteredOnTheLink` | pkg/rx/aggregator.go:517-745 | from a transmitter that has not strayed, whatever failed, everything handed over is what it put there |
| `Link.ObjectsEndToEnd` | pkg/rx/aggregator.go:517-794 | the same end to end for the two objects: the receiver's queue is what the transmitter's calls sent |
| `Words.Add64` | pkg/crypto/poly1305.go:97-99 | sum and carry make up the exact sum |
| `Words.Sub64` | pkg/crypto/poly1305.go:157-159 | difference and borrow make up the exact difference |
| `Words.Mul64` | pkg/crypto/poly1305.go:180-183 | both halves make up the exact product |
| `Words.Add128` | pkg/crypto/poly1305.go:185-189 | exact unless the high word wraps |
| `Words.ShiftRightBy2` | pkg/crypto/poly1305.go:191-196 | a division by four across both words |
| `Words.Select64` | pkg/crypto/poly1305.go:198-200 | the mask arithmetic selects |
| `Words.MaskTwo` | pkg/crypto/poly1305.go:22-25 | both masks split a word at bit 2 |
| `Words.LowBytesAt` | pkg/crypto/poly1305.go:168-170 | byte i of a number has weight 256^i |
| `Words.LowBytesOfNumber` | pkg/crypto/poly1305.go:54-57 | the bytes of the number read from bytes are those bytes |
| `Poly1305.ClampByHalves` | pkg/crypto/poly1305.go:54-55 | masking the halves is masking the number, and the halves stay below 2^60 |
| `Poly1305.ClampedBytes` | pkg/crypto/poly1305.go:54-55 | r byte by byte: section 2.5 of RFC 8439 without the masks |
| `Poly1305.BytesOfValues` | pkg/crypto/poly1305.go:56-57 | s is the second half of the key; the value of a block is its bytes and a 1 |
| `Poly1305.BlocksAt` | pkg/crypto/poly1305.go:62-85 | which bytes of the message are in which block |
| `Poly1305.Multiply` | pkg/crypto/poly1305.go:111-127 | the four words are the exact product: no carry is lost |
| `Poly1305.Reduce` | pkg/crypto/poly1305.go:129-143 | the partial reduction keeps the value modulo 2^130 - 5 and below 5 * 2^128 |
| `Poly1305.PaddedValue` | pkg/crypto/poly1305.go:101-108 | a short block with a 1 behind it has the value of the definition |
| `Poly1305.Mac.constructor` | pkg/crypto/poly1305.go:49-59 | starts with the key halves of the definition |
| `Poly1305.Mac.ProcessBlock` | pkg/crypto/poly1305.go:89-144 | adds a block and multiplies by r, modulo 2^130 - 5, keeping h below 5 * 2^128 |
| `Poly1305.Mac.Update` | pkg/crypto/poly1305.go:62-85 | the state depends on everything fed, not on how it was cut |
| `Poly1305.Mac.Finish` | pkg/crypto/poly1305.go:147-172 | the tag of everything fed, by the definition; one subtraction is enough |
| `Poly1305.Mac.FinalWords` | pkg/crypto/poly1305.go:153-166 | final reduction and addition of s in two words |
| `Poly1305.PolynomialLast` | pkg/crypto/poly1305.go:111-112 | Horner's rule |
| `Poly1305.TagIsPolynomial` | pkg/crypto/poly1305.go:146-172 | the tag is the sum of block values times powers of r, modulo 2^130 - 5, plus s, modulo 2^128 |
| `Poly1305.TagOfTwoBlocks` | pkg/crypto/poly1305.go:146-172 | the tag of two blocks written out, with 2^130 - 5 and 2^128 |
| `Poly1305.Sum` | pkg/crypto/poly1305.go:203-207 | the one-shot function computes that tag |
| `ChaCha20.CounterCarries` | pkg/crypto/chacha20.go:133-137 | the two words count modulo 2^64 across the 32-bit carry |
| `ChaChaBlocks.RotateMovesBits` | pkg/crypto/chacha20.go:84-96 | rotation by k moves bit i to bit (i + k) % 32 |
| `ChaChaBlocks.QuarterRoundKnown` | pkg/crypto/chacha20.go:81-99 | the quarter round of section 2.1.1 of RFC 8439 |
| `ChaChaBlocks.ColumnsThenDiagonals` | pkg/crypto/chacha20.go:109-119 | a double round mixes each column and then each diagonal |
| `ChaChaBlocks.BlockBytes` | pkg/crypto/chacha20.go:108-131 | byte j of word i of a block: ten double rounds, the original word added, lowest byte first |
| `ChaChaBlocks.InitialBytes` | pkg/crypto/chacha20.go:43-78 | the first state as bytes: "expand 32-byte k", key, counter, nonce |
| `ChaCha20.Cipher.constructor` | pkg/crypto/chacha20.go:43-78 | the initial state for key, nonce and counter |
| `ChaCha20.Cipher.Columns` | pkg/crypto/chacha20.go:109-119 | eight quarter rounds in place are one double round |
| `ChaCha20.Cipher.Block` | pkg/crypto/chacha20.go:102-140 | the block of the state, and the counter one further |
| `ChaCha20.Cipher.XorKeyStream` | pkg/crypto/chacha20.go:143-156 | byte i is combined with byte i % 64 of the block at start + i / 64 modulo 2^64 |
| `ChaCha20.Cipher.KeyStream` | pkg/crypto/chacha20.go:159-167 | the same key stream, for any length |
| `ChaCha20.CipheredTwice` | pkg/crypto/chacha20.go:142-156 | the cipher is its own inverse |
| `Aead.ComputeTag` | pkg/crypto/aead.go:70-90 | the tag over both texts and their lengths, under the key from block 0 |
| `Aead.Seal` | pkg/crypto/aead.go:48-94 | ciphertext and tag in one buffer |
| `Aead.Open` | pkg/crypto/aead.go:102-157 | the plaintext, or nothing if short or not authentic |
| `Aead.OpensExactlyWhatWasSealed` | pkg/crypto/aead.go:42-157 | a text opens to a plaintext if and only if it is the sealing of that plaintext |
| `Aead.SealedTextAt` | pkg/crypto/aead.go:66-68 | byte i of a sealed text is combined with byte i % 64 of block 1 + i / 64 |
| `Aead.SealedTag` | pkg/crypto/aead.go:62-92 | the tag behind it is under the first 32 bytes of block 0 |
| `Aead.MacDataAt` | pkg/crypto/aead.go:70-88 | what is authenticated, byte by byte |
| `Aead.MacDataTellsApart` | pkg/crypto/aead.go:70-88 | different texts are never authenticated as the same bytes |
| `Mavlink.Parser.Next` | pkg/server/mavlink/mavlink.go:87-152 | one round: a byte skipped, a message taken, or nothing until more comes |
| `Mavlink.Parser.Parse` | pkg/server/mavlink/mavlink.go:75-155 | the messages and the rest of buffered plus new data, also across a compaction |
| `Mavlink.PiecesJoin` | pkg/server/mavlink/mavlink.go:75-155 | parsing in two steps is parsing at once |
| `Mavlink.ChunksDoNotMatter` | pkg/server/mavlink/mavlink.go:73-155 | any cutting of the stream yields the same messages |
| `Mavlink.BytesConserved` | pkg/server/mavlink/mavlink.go:87-152 | messages, skipped bytes and rest are the stream, in order |
| `Mavlink.WholeMessagesParseBack` | pkg/server/mavlink/mavlink.go:75-155 | version 1 and 2 messages in a row, signed or not, parse back exactly |
| `Mavlink.ParsersAgree` | pkg/server/mavlink/mavlink.go:165-224 | the one-shot parser finds what the stream parser finds first, and only then |
| `MavlinkMessages.Version1Parses` | pkg/server/mavlink/mavlink.go:125-135 | a version 1 message built from its fields parses back to them |
| `MavlinkMessages.Version2Parses` | pkg/server/mavlink/mavlink.go:136-148 | so does one of version 2, signed or not |
| `MavlinkMessages.NoiseIsSkipped` | pkg/server/mavlink/mavlink.go:109-113 | bytes that are no start marker are skipped up to the next message |
| `Crc.FastStepIsBits` | pkg/server/mavlink/mavlink.go:266-272 | the step per byte is eight steps of the bitwise definition |
| `Crc.ChecksumJoin` | pkg/server/mavlink/mavlink.go:266-272 | data may be accumulated in pieces |
| `Crc.ChecksumOfOneBit` | pkg/server/mavlink/mavlink.go:266-272 | the checksums of the bytes 1 and 128 from 0 |
| `Crc.Accumulator.Accumulate` | pkg/server/mavlink/mavlink.go:266-272 | the loop computes the bitwise X.25 checksum in 16 bits |
| `RadioStatus.Builder.Build` | pkg/server/mavlink/mavlink.go:310-355 | a message both parsers take, with the given values, the right checksum and the next sequence number |
| `AnnexB.FindUnique` | pkg/server/web/server.go:874-887 | the first start code is the only result the search can have |
| `AnnexB.UnitsJoin` | pkg/server/web/server.go:785-837 | parsing in two steps is parsing at once |
| `AnnexB.LimitKeepsGood` | pkg/server/web/server.go:797-804 | cutting down a long buffer without a start code loses no unit |
| `AnnexB.ChunksDoNotMatter` | pkg/server/web/server.go:785-872 | any cutting of the stream yields the same units and the same flushed rest |
| `AnnexB.EndFound` | pkg/server/web/server.go:818-830 | a unit without a start code that does not end in zero ends exactly at the next start code |
| `AnnexB.JoinedUnitsParseBack` | pkg/server/web/server.go:785-872 | units joined by long or short start codes all come back, the last from `Flush` |
| `AnnexB.TwoUnits` | pkg/server/web/server.go:785-872 | two units without zeros in a row behind a short and a long start code |
| `AnnexB.StreamConserved` | pkg/server/web/server.go:785-837 | any stream is what precedes its first start code, start codes each with a unit put out that holds none, and what is kept |
| `AnnexB.LimitedIs` | pkg/server/web/server.go:797-804 | above 131072 bytes without a start code the last 65536 are kept |
| `NalParser.FindStartCode` | pkg/server/web/server.go:875-887 | the position of the first start code, or -1 |
| `NalParser.Parser.Parse` | pkg/server/web/server.go:787-837 | the units of buffered plus new data, and what is kept |
| `NalParser.Parser.Flush` | pkg/server/web/server.go:841-872 | what follows the first start code, and an empty buffer |
| `NalParser.Parser.CheckSequence` | pkg/server/web/server.go:914-926 | a gap discards an unfinished unit |
| `NalParser.Parser.TakeAggregated` | pkg/server/web/server.go:959-972 | the units of an aggregation packet |
| `NalParser.Parser.TakeFragment` | pkg/server/web/server.go:974-1010 | start, continuation and end of a fragmented unit |
| `NalParser.Parser.ParseRTP` | pkg/server/web/server.go:891-1014 | one reassembly step for RTP, the byte stream parser for anything else |
| `Rtp.InProgressIsGapless` | pkg/server/web/server.go:914-926 | a unit in progress has a start packet and no gap since |
| `Rtp.AssembledUnitIsGapless` | pkg/server/web/server.go:914-1010 | an assembled unit is all fragments since its start packet, with no sequence number missing |
| `Rtp.WholeUnitComesOut` | pkg/server/web/server.go:974-1010 | once its end arrives with no number missing a fragmented unit is put out, whatever came before it and between |
| `Rtp.FragmentsGiveTheUnit` | pkg/server/web/server.go:974-1010 | a unit sent in two fragments or more, in any RTP packets, comes out whole, also across the wrap of the numbers |
| `Rtp.SingleFragmentIsKept` | pkg/server/web/server.go:986-997 | a single fragment with both bits puts nothing out |
| `Rtp.AggregatedUnits` | pkg/server/web/server.go:959-972 | the units of an aggregation packet come apart again, whatever incomplete one follows; an empty one at the very end is not seen |
| `RtpPackets.RtpExactly` | pkg/server/web/server.go:892-910 | which packets are taken for RTP, and where their number is |
| `RtpPackets.PayloadFound` | pkg/server/web/server.go:904-943 | number and payload of a packet built field by field, with sources, extension and padding flag; the one exception is the header of an extension that nothing follows |
| `RtpPackets.ExtensionMissing` | pkg/server/web/server.go:928-934 | where an announced extension is missing, up to four bytes are taken for the payload |
| `RtpPackets.SingleUnits` | pkg/server/web/server.go:952-957 | a unit of type below 48 in such a packet is put out as it is, types from 50 on give nothing |
| `RtpPackets.UnitsTogether` | pkg/server/web/server.go:959-972 | two units in one such packet come apart |
| `RtpPackets.UnitInFragments` | pkg/server/web/server.go:974-1010 | a unit cut into two fragments or more comes out of such packets whole |
| `Framing.FramingRoundTrip` | pkg/server/util/aggregator.go:123-131 | unpacking framed packets gives them back without the empty ones |
| `Framing.FrameAt` | pkg/server/util/aggregator.go:126-130 | a frame: two bytes of length, the higher first, and the packet |
| `Framing.CutFrameIsDropped` | pkg/server/service_stream_rx.go:128-149 | a frame cut short gives nothing and does no harm to those before it |
| `Framing.OnlyShortPacketsSurvive` | pkg/server/util/aggregator.go:127-128 | a packet survives framing if and only if it is below 65536 bytes |
| `Framing.UnpackFramedPackets` | pkg/server/service_stream_rx.go:126-156 | the packets of the buffer in order, up to the first write that fails |
| `Framing.PacketAggregator.Add` | pkg/server/util/aggregator.go:51-101 | accepts exactly what can fit; buffers stay within the size, nothing accepted is lost, and a timer is started if none is set |
| `Framing.PacketAggregator.FlushLocked` | pkg/server/util/aggregator.go:110-142 | everything pending goes out as one buffer, and nothing if there is nothing |
| `Framing.PacketAggregator.Flush` | pkg/server/util/aggregator.go:103-108 | everything accepted has been sent, also after `Stop` |
| `Framing.PacketAggregator.Expire` | pkg/server/util/aggregator.go:89-97 | the timer sends what is pending, nothing after `Stop`, and with nothing pending it stays set without running |
| `Framing.PacketAggregator.Stop` | pkg/server/util/aggregator.go:145-151 | everything accepted has been sent, and with sizes up to 65537 unpacks to what was added |
| `Framing.PendingHasTimer` | pkg/server/util/aggregator.go:87-119 | with a timeout, what is pending has a running timer if and only if none ran out while nothing was pending; with framing it always has |
| `Framing.PacketWithoutTimer` | pkg/server/util/aggregator.go:110-119 | an empty packet without framing leaves the next packet without a timer |

## Left out

- RxAggregator.Aggregator.ProcessDataPacket: takes the result of the cipher as a
  parameter and assumes that an authentic fragment is at most 3996 bytes, as every one a
  transmitter sends is (`TxPlan.PlannedFits`); a longer one from another sender would be
  stored with a size beyond its buffer, and reading it back would be out of range.
- RxAggregator.Aggregator.StoreInSlot: assumes the same bound.
- RxAggregator.Aggregator.StoreAndDeliver: assumes the same bound.
- RxAggregator.Aggregator.ProcessSessionPacket: the keyed hash and what the box opens to
  are parameters; session keys are compared, not generated.
- FlatMatrix.InvertMatrix: requires an invertible matrix; the program does not detect a
  singular one.
- RxRing.Ring.BuildShards: a slot's buffers are values, so a shard is a copy of the buffer
  and not a slice of it; the decoder writes only to shards that were nil.
- TxTransmitter.Transmitter.Inject: an injection is an entry in a log with a result taken
  from an arbitrary list; frames are kept as nonce and plaintext, session keys as numbers.
- Dispatch on the packet type in `ProcessPacket`, statistics other than losses and
  deliveries, antenna statistics and debug output.
- The drop when the output channel is full: the queue is unbounded here.
- `AddFragment`, `CanRecover`, `CountMissing` and other ring members that the receiver
  does not use.
- Goroutines, locks and timers: each locked entry point is one step, a timeout is a flag.
- X25519 boxes, BLAKE2b, SHA, Argon2 and random numbers: library calls.
- The destination buffer that `Seal` and `Open` may be given; results are new buffers.
- HEARTBEAT parsing, and the WebSocket, serial and tunnel services around the parsers.
- Adaptive link control, configuration, radio capture and injection, and the web server:
  input and output with nothing to prove, or heuristics on floating-point numbers.
- Constant-time behaviour and secrecy, which are not functional properties.
