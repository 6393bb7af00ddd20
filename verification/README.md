# A verified model of the FEC codecs

The repository adds forward error correction to a packet stream. This project
models its two codecs, the Siamese streaming erasure codec and the Wirehair block
codec, together with the packet allocator of the first and the sender's own
interleaving and shaping, and proves what they are for.

**Siamese.** The encoder keeps a window of packets and sends recovery packets: a
parity row, a Cauchy row, or a row made from running lane sums and pseudo-random
pairs of packets. The decoder lists recovery packets, builds the matrix of what it
has lost, eliminates it step by step as packets come in, takes out of the recovery
packets what it has received, and solves for the rest.

- Field and elimination: `Gf256`, `LinearAlgebra`, `Factorization`, `Rank`,
  `RecoveryMatrix`, `Solver`, `Cauchy`, `Mds`. The matrix is factored in place, with
  the multipliers left of the pivots. The factorization survives rows and columns
  being added, elimination is complete (it fails exactly on a matrix without full
  column rank), and what back-substitution leaves is the data that was lost.
- Coefficients, window and packets of the encoder: `Columns`, `Coefficients`,
  `DenseLaws`, `LaneSums`, `EncoderWindow`, `SentPackets`, `Encoder`, `Protection`.
  Every payload is the row of coefficients its metadata stands for, applied to the
  packets it covers. Column and row values go through all their values in turn, and so
  do the rows of the packets made: any k parity and Cauchy packets the encoder makes
  over the same k losses recover them.
- The decoder: `DecoderSums`, `DecoderWindow`, `Losses`, `DecoderRows`, `Recoveries`,
  `RecoveryList`, `SumOrder`, `Regions`, `Decoder`, `Limits`. Its lane sums have holes
  that are plugged later; its matrix is generated from the same coefficients; `Decode`
  hands out each recovered packet once, as the encoder was given it, and wants more data
  exactly if the region it reaches cannot be solved. `SumOrder` says in which lists the sums of all rows can be
  formed, `Limits` holds inputs where the decoder falls short.
- The protocol: `Serializers`, `Acknowledgement`, `EncoderAcknowledgement`, `Session`.
  Over every run on a channel that loses, copies and reorders messages, but delivers
  none after more than half a period of packets (2^21) was sent since, the encoder still
  holds whatever the decoder has lost. Recovery packets have two more conditions, on
  column numbers the decoder remembers; runs of up to 2^21 packets meet all of them
  (`AllTimely`).

**Wirehair.** `Weyl` and `PeelRows` generate the columns of a row, `Peels` and
`Peeling` are the peeling solver, `PeelWeights` says what the numbers count by which it
puts columns off, and `PeelAlgebra`, `PeelSystem`, `PeelSteps`, `PeelResult`,
`Compression` and `Substitution` show that substituting the peeled columns, before and
after the elimination of what is left, preserves the solutions.

**Allocator.** `BitSets` and `PacketAllocator`: bitmaps scanned by words, and two
lists of windows; live allocations are disjoint and keep their contents.

**Sender.** `Stream` interleaves repair symbols at a fixed ratio; `Shaper` and
`PacketQueue` keep the link's buffer from overflowing.

Classes follow the source's objects: methods change their fields as the source does,
ghost fields hold what the source only implies (unwrapped packet numbers, the history
of packets, what is still pending), and the methods' contracts tie the new state to
functions whose properties the lemmas prove. A payload is one byte position: the
solver treats all positions alike. The proofs hide what they do not need (`hide`),
which keeps each of them small. `dafny verify dfyconfig.toml` checks everything.

## What the model shows about the code

- `GaussianElimination` is complete, `Decode` is not. It wants more data exactly if the
  first region `CheckRecoveryPossible` gets to is not promising or cannot be solved
  (the contract of `Decode`). When a region fails, its loop takes in more packets
  without recording them, so that the region decoded again is the one that failed, and
  then counts all of them as looked at: later calls do not use them either, until
  another recovery packet arrives or the region is started over (`DecodeInVain`). A
  parity packet delivered twice before a Cauchy packet is enough for that
  (`ParityDeliveredTwice`, and `CauchyThenParityTwice` for the run to it).
- Whether a parity row is due is told from a column number. Half a period of packets
  past the end of the last one that may be told wrongly, and a Cauchy row is made
  although all is acknowledged (`ParityDue` in the contract of `Encode` is the exact
  condition, `NotDueAnyMore` an instance). A parity row that is not due is never made.
- `GetColumnValue` visits each of its 253 values once, but 2^22 is no multiple of 253:
  where the column numbers start over two packets 70 apart share a value
  (`PacketValuesDiffer`). They are never of one lane (`LaneValuesDiffer`).
- The out-of-order test of recovery packets compares an end that is not wrapped with
  one that is. It is right about a packet that really ends earlier, and about any other
  exactly if its start and the latest end lie in the same period of the column numbers
  (`OutOfOrderExactly`; `JudgedOutOfOrder` is a packet it misjudges).
- The recovery list is in the order of right ends only (`InsertedSorted`). The comment
  at the insertion says that left ends are in order too: its own example is not
  (`LeftEndsNotSorted`), and `LeftEndsOfTwo` says when two packets are. Right ends are
  what the matrix needs.
- The branch of `EliminateOriginalData` marked as impossible is taken exactly if the sum
  of a used row neither starts in the window nor goes on from those before it
  (`EliminateOriginalData`; over all choices of rows, `ServedForms`). A delayed row leads
  there (`DelayedRow`, `DelayedRowNeeded`): the decoder is disabled for good.
  `InsertedInOrder` gives the check on arrival that would rule it out, and
  `EliminatedInOrder` and `RemovedInOrder` that nothing else breaks what it keeps.
- That check lets pass every row sent after those listed and those the sums were run for
  (`SentAfterFits`); then the list stays orderly through `AddOriginal`, `AddRecovery` and
  `Decode`, and the decoder enabled while packets are listed. With none listed a packet
  whose range was received whole decides alone, and disables the decoder exactly if its
  sum would have to start where data is gone (`LastClips`, in the contracts of
  `RemoveElements` and `AddRecovery`): a row in order, not late and not needed, can do so
  (`RowAfterSingle`).
- The window moves only when recovery packets are handled. Half a period of packets
  received without one leaves it where it is, and then everything that arrives, delayed by
  nothing, seems to lie before it and is dropped (`OriginalsOnly`, `IgnoreAll`; exactly
  when is in the contracts of `AddOriginal` and `AddRecovery`).
- The decoder remembers column numbers of the last packet received in order and of the
  start of its sums, and compares them with new ones however old they are. A difference
  is judged rightly exactly below half a period (`JudgedRightly`); stopped sums whose
  start column comes up again a whole period later are taken for sums that start there
  (`StoppedSumsTakenUp`, `StoppedSumsUsed`). Stopped sums whose start is gone are started
  all the same when the last row received in order goes back to them; no row is then
  formed from them (`PrepareSums`).
- `FindFirstSet` looks at whole words: it may return an index past the end it was given
  (`FindPastEnd`), although its comment says it returns the end; its contract says when.
  Its callers allow for that.
- The allocator's integrity check wants free units in every window to search. A window
  can be filled exactly and stay in that list (`FillExactly`): exactly if the hole is all
  of its free units and the window does not end within its length behind it
  (`Allocate`). Shrinking leaves one unit, which a debug assertion of `Free` denies,
  exactly if it is to no bytes (`ShrinkTo`).
- The interleaver needs a ratio with at least two repair symbols per segment in lowest
  terms: with one, its counters cannot tell that it was sent (`OnePerSegmentNeverStops`).

## Model

| member | source | states |
|---|---|---|
| Gf256.MulInv | fec/3rdparty/siamese/gf256.h:222-231 | every nonzero element of the concrete field GF(2^8) has the inverse that the model divides by |
| Factorization.EliminateStep | fec/3rdparty/siamese/SiameseDecoder.h:504-541 | eliminating one row with a pivot row keeps every row equal to its stored multipliers times the pivot rows plus its residual |
| Factorization.SwapStep | fec/3rdparty/siamese/SiameseDecoder.cpp:2491-2498 | swapping two rows that are not pivot rows yet keeps that factorization |
| Rank.SolvedMeansFullRank | fec/3rdparty/siamese/SiameseDecoder.cpp:2423-2465 | a triangular factorization with nonzero pivots means that no two vectors have the same image |
| Rank.StuckMeansKernel | fec/3rdparty/siamese/SiameseDecoder.cpp:2467-2531 | if no row past the pivots has anything in the next column there is a nonzero kernel vector |
| Rank.RankIgnoresOrder | fec/3rdparty/siamese/SiameseDecoder.cpp:2467-2531 | the pivot order does not matter to the rank |
| RecoveryMatrix.RecoveryMatrixState.GenerateMatrix | fec/3rdparty/siamese/SiameseDecoder.cpp:2157-2383 | growing a partly eliminated matrix by rows and columns and resuming leaves a valid partial elimination of the whole grown matrix |
| RecoveryMatrix.RecoveryMatrixState.ResumeGE | fec/3rdparty/siamese/SiameseDecoder.cpp:2385-2421 | eliminates the new rows with all pivots found so far and leaves the old rows alone |
| RecoveryMatrix.RecoveryMatrixState.GaussianElimination | fec/3rdparty/siamese/SiameseDecoder.cpp:2423-2465 | succeeds exactly if the generated matrix has full column rank, and then leaves it triangular; a failure leaves it resumable; it meets no zero pivot and keeps the row order when the pivots of the unpivoted elimination are nonzero |
| RecoveryMatrix.RecoveryMatrixState.PivotedGaussianElimination | fec/3rdparty/siamese/SiameseDecoder.cpp:2467-2531 | the same with pivoting, from the column where the other got stuck |
| Solver.MultiplyLowerTriangle | fec/3rdparty/siamese/SiameseDecoder.cpp:1065-1104 | replays the stored multipliers on the payloads |
| Solver.BackSubstitution | fec/3rdparty/siamese/SiameseDecoder.cpp:1106-1238 | leaves in every lost column exactly the data whose sums the payloads were |
| Cauchy.CauchyPivotsInOrder | fec/3rdparty/siamese/SiameseCommon.h:201-218 | on a matrix of parity and Cauchy rows with distinct points the unpivoted elimination meets no zero pivot, in any row order |
| Cauchy.WeightStep | fec/3rdparty/siamese/SiameseCommon.h:201-218 | eliminating with either kind of row leaves a scaled row of the same kind |
| Mds.PivotsMeanFullRank | fec/3rdparty/siamese/SiameseDecoder.cpp:2423-2465 | nonzero pivots all the way mean full column rank |
| Mds.AnyLossesRecoverable | fec/3rdparty/siamese/SiameseCommon.h:201-218 | any losses inside the range of at least as many parity and Cauchy packets with different row numbers are determined, whatever their order, and the unpivoted elimination finds that out |
| LaneSums.DenseFromLanes | fec/3rdparty/siamese/SiameseEncoder.cpp:1046-1098 | the lane sums put together by the row opcodes are the dense coefficients applied to the packets |
| LaneSums.LightFromPairs | fec/3rdparty/siamese/SiameseEncoder.cpp:1100-1144 | the packets drawn in pairs are the light coefficients applied to the light range |
| LaneSums.SiameseRow | fec/3rdparty/siamese/SiameseEncoder.cpp:1146-1254 | the payload the encoder assembles is the row of coefficients its metadata stands for, applied to the packets it covers |
| DenseLaws.ColumnValuesDiffer | fec/3rdparty/siamese/SiameseCommon.h:89-93 | no two columns less than 253 apart have the same value: each is visited once |
| DenseLaws.ColumnValueReached | fec/3rdparty/siamese/SiameseCommon.h:89-93 | any 253 columns in succession have each of the values 3 to 255 |
| DenseLaws.PacketValuesDiffer | fec/3rdparty/siamese/SiameseCommon.h:82-127 | of packets less than 253 apart, only two that lie 70 apart and on either side of where the column numbers start over share a value |
| DenseLaws.LaneValuesDiffer | fec/3rdparty/siamese/SiameseCommon.h:82-131 | two packets of one lane never do |
| DenseLaws.RowValuesDiffer | fec/3rdparty/siamese/SiameseCommon.h:95-98 | no two rows less than 255 apart have the same value |
| DenseLaws.RowValueNonZero | fec/3rdparty/siamese/SiameseCommon.h:95-98 | no row value is zero |
| DenseLaws.OpcodeBits | fec/3rdparty/siamese/SiameseCommon.h:161-174 | an opcode is made of its six bits, one of which is set |
| DenseLaws.FirstOpcodes | fec/3rdparty/siamese/SiameseCommon.h:148-174 | the opcodes of the first row |
| DenseLaws.DenseQuadratic | fec/3rdparty/siamese/SiameseCommon.h:133-138 | a dense coefficient is what the row multiplies the lane's sums with, applied to 1, the column value and its square |
| DenseLaws.DenseDiffers | fec/3rdparty/siamese/SiameseCommon.h:133-138 | a row gives two columns of one lane with different values different dense coefficients exactly if what it multiplies sum 1 with is not what it multiplies sum 2 with times the sum of the values |
| DenseLaws.OneSumTellsApart | fec/3rdparty/siamese/SiameseCommon.h:133-174 | a row that takes in just one of sums 1 and 2 of a lane tells any two of its packets less than 253 apart from each other |
| DenseLaws.SomeRowTellsApart | fec/3rdparty/siamese/SiameseCommon.h:133-174 | there is such a row for every two of them |
| EncoderWindow.GetNextLaneElement | fec/3rdparty/siamese/SiameseEncoder.h:198-209 | the next element of the lane, at most a lane count away |
| EncoderWindow.EncoderPacketWindow.Add | fec/3rdparty/siamese/SiameseEncoder.cpp:85-161 | appends the packet under its column number unless the window is full, and keeps all lane sums direct |
| EncoderWindow.EncoderPacketWindow.StartNewWindow | fec/3rdparty/siamese/SiameseEncoder.cpp:163-181 | a new window keeps element and column equal modulo the lane count |
| EncoderWindow.EncoderPacketWindow.RemoveBefore | fec/3rdparty/siamese/SiameseEncoder.cpp:183-216 | moves the first unremoved element on, never back, and empties the window for a column past its end |
| EncoderWindow.EncoderPacketWindow.ResetSums | fec/3rdparty/siamese/SiameseEncoder.cpp:218-237 | all sums start over at the element, with nothing erased |
| EncoderWindow.EncoderPacketWindow.GetSum | fec/3rdparty/siamese/SiameseEncoder.cpp:359-418 | the sum returned is the direct weighted sum of its lane from the sums' start up to the end asked for, erased columns included |
| EncoderWindow.EncoderPacketWindow.RollUpSums | fec/3rdparty/siamese/SiameseEncoder.cpp:239-357 | rolling the sums past the point of removal and rebasing them keeps them direct |
| EncoderWindow.EncoderPacketWindow.RemoveElements | fec/3rdparty/siamese/SiameseEncoder.cpp:239-357 | whole subwindows of acknowledged packets go, the sums go on as if nothing had been removed |
| Encoder.Encoder.Encode | fec/3rdparty/siamese/SiameseEncoder.cpp:1146-1254 | every packet made is its metadata's coefficients times the packets from its start up to the newest, and its light range is all that is not acknowledged; which kind it is, where it starts and whether the sums go on is told by the packets in flight and the sums' state; all packets made are logged, and over every run their rows are taken in turn |
| Encoder.Encoder.GenerateSiamesePacket | fec/3rdparty/siamese/SiameseEncoder.cpp:1146-1254 | the same for a row made from the running sums, whose count is exactly the columns summed; its row number is the number of Siamese packets made before, modulo 255 |
| Encoder.Encoder.GenerateSinglePacket | fec/3rdparty/siamese/SiameseEncoder.cpp:1296-1332 | the same for a copy of the one packet in flight |
| Encoder.Encoder.GenerateCauchyPacket | fec/3rdparty/siamese/SiameseEncoder.cpp:1334-1441 | the same for a parity or Cauchy row over the packets in flight: a parity row exactly when one is due, else the Cauchy row that is the number of Cauchy packets made before, modulo 192 |
| SentPackets.CauchyRowsDiffer | fec/3rdparty/siamese/SiameseEncoder.cpp:1391-1396 | any 192 Cauchy packets in succession have different rows |
| SentPackets.SiameseRowsDiffer | fec/3rdparty/siamese/SiameseEncoder.cpp:1209-1213 | any 255 Siamese packets in succession have different rows, with different row values |
| SentPackets.ParityRowsApart | fec/3rdparty/siamese/SiameseEncoder.cpp:1356-1364 | the range of each parity row starts past those of all earlier ones |
| SentPackets.DueOnceAcknowledged | fec/3rdparty/siamese/SiameseEncoder.cpp:1356-1364 | a parity row is only made once all the last one protects is acknowledged and, up to half a period past its end, as soon as it is |
| SentPackets.NotDueAnyMore | fec/3rdparty/siamese/SiameseEncoder.cpp:1356-1364 | an input where it is not: just over half a period later all is acknowledged, and the last parity row seems to stop ahead of the window |
| Protection.AnySentRecover | fec/3rdparty/siamese/SiameseEncoder.cpp:1334-1441 | any k of the packets made with parity and Cauchy rows, no two of them 192 Cauchy packets apart, that protect the same k losses recover these, in whatever order they are listed |
| EncoderWindow.EncoderPacketWindow.RemovesUpTo | fec/3rdparty/siamese/SiameseEncoder.cpp:183-216 | an acknowledgement less than half a column period late is told from an early one by its column number |
| DecoderWindow.DecoderPacketWindow.RangeLostPackets | fec/3rdparty/siamese/SiameseDecoder.cpp:1279-1323 | counts the losses of the range exactly |
| DecoderWindow.DecoderPacketWindow.FindNextLostElement | fec/3rdparty/siamese/SiameseDecoder.cpp:1325-1370 | the first lost element from a start on, or the end |
| DecoderWindow.DecoderPacketWindow.FindNextGotElement | fec/3rdparty/siamese/SiameseDecoder.cpp:1372-1417 | the first received element from a start on, or the end |
| DecoderWindow.DecoderPacketWindow.IterateNextExpectedElement | fec/3rdparty/siamese/SiameseDecoder.cpp:1419-1434 | moves to the first lost element |
| DecoderWindow.DecoderPacketWindow.GrowWindow | fec/3rdparty/siamese/SiameseDecoder.cpp:1436-1465 | the window covers the element, nothing received changes |
| DecoderWindow.DecoderPacketWindow.AddOriginal | fec/3rdparty/siamese/SiameseDecoder.cpp:1467-1536 | takes the packet in exactly if it was not received and lies less than half a period past the front of the window, moves the next expected element on exactly if it was that, and keeps the sums valid |
| DecoderWindow.DecoderPacketWindow.PlugSumHoles | fec/3rdparty/siamese/SiameseDecoder.cpp:1538-1602 | afterwards each sum holds everything received in its range, and nothing is left to plug |
| DecoderWindow.DecoderPacketWindow.ResetSums | fec/3rdparty/siamese/SiameseDecoder.cpp:1604-1627 | empty sums from the element on, nothing left to plug |
| DecoderWindow.DecoderPacketWindow.StartSums | fec/3rdparty/siamese/SiameseDecoder.cpp:1629-1678 | all sums hold what was received in their range, started or not, and nothing is left to plug, unless they were stopped and their start has left the window |
| DecoderWindow.DecoderPacketWindow.StoppedStart | fec/3rdparty/siamese/SiameseDecoder.cpp:1643-1663 | stopped sums taken up for a row that starts in the window are empty exactly if none is taken for one that starts there and has run on, and so they are if the row is told from their start |
| DecoderSums.StoppedSumsTakenUp | fec/3rdparty/siamese/SiameseDecoder.cpp:1643-1663 | the input where that goes wrong: stopped sums that start a whole column period before the front are taken for sums that start there, as they have the same column number |
| Limits.StoppedSumsUsed | fec/3rdparty/siamese/SiameseDecoder.cpp:1643-1663 | the same of a valid window: after the sums were started for the row they do not hold what was received from its start on |
| DecoderWindow.DecoderPacketWindow.GetSum | fec/3rdparty/siamese/SiameseDecoder.cpp:1680-1739 | the sum returned is that of the packets present in its lane up to the end asked for |
| DecoderWindow.DecoderPacketWindow.PrepareSums | fec/3rdparty/siamese/SiameseDecoder.cpp:1904-1940 | the running sums can serve a Siamese row exactly if its start is still in the window, or its start column is theirs and they have not run past it, and then hold everything received from its start on; stopped sums whose start is gone are started too, and stay of no use to any row |
| DecoderWindow.DecoderPacketWindow.EliminateSiamese | fec/3rdparty/siamese/SiameseDecoder.cpp:885-1059 | the payload less exactly the received packets of the row's range |
| DecoderWindow.DecoderPacketWindow.MarkRecovered | fec/3rdparty/siamese/SiameseDecoder.cpp:1176-1191 | files a recovered packet once and remembers it for the sums that have passed over it |
| DecoderWindow.DecoderPacketWindow.WholeAgain | fec/3rdparty/siamese/SiameseDecoder.cpp:1216-1225 | after a solve the sums have passed over nothing that is still lost |
| DecoderWindow.DecoderPacketWindow.RollUpSums | fec/3rdparty/siamese/SiameseDecoder.cpp:1778-2033 | rolling the sums past the point of removal keeps them the sums of what was received |
| DecoderWindow.DecoderPacketWindow.RemoveElements | fec/3rdparty/siamese/SiameseDecoder.cpp:1778-2033 | drops only what no listed recovery packet needs, and all of it but the first subwindows; sums that are needed stay usable; it does not fail on an orderly list, which stays orderly, and with none listed it fails exactly if the last packet's light range is not in the window or its sum would have to start where data is gone |
| DecoderWindow.DecoderPacketWindow.ScanRecoveries | fec/3rdparty/siamese/SiameseDecoder.cpp:1822-1882 | finds the first element a listed packet still needs and the sums to be kept running, and fails exactly if a Siamese row whose start is gone does not carry on with the sums of the first Siamese row |
| Columns.JudgedRightly | fec/3rdparty/siamese/SiameseCommon.h:105-115 | for packets up to a period apart the sign of the difference of column numbers is right exactly if they are less than half a period apart |
| SumOrder.ServedForms | fec/3rdparty/siamese/SiameseDecoder.cpp:921-949 | the sums of all rows can be formed in turn, whichever rows the solution uses, exactly if each row whose start is gone goes on with the running sums and so do all rows listed before it |
| SumOrder.InsertedInOrder | fec/3rdparty/siamese/SiameseDecoder.cpp:357-392 | a check on an arriving packet: listing it leaves the list orderly exactly if it passes |
| SumOrder.EliminatedInOrder | fec/3rdparty/siamese/SiameseDecoder.cpp:812-1059 | elimination of a region and the deletion of its packets leave the list orderly |
| SumOrder.RemovedInOrder | fec/3rdparty/siamese/SiameseDecoder.cpp:1903-1964 | so does moving the front of the window |
| SumOrder.InOrderKept | fec/3rdparty/siamese/SiameseDecoder.cpp:1847-1863 | in an orderly list the scan for removable elements does not fail, and the sums of the first Siamese row can be formed |
| SumOrder.DelayedRow | fec/3rdparty/siamese/SiameseDecoder.cpp:922-932 | the input where it goes wrong: a shorter row from the same dropped start, delivered after the longer one, is listed in front of it, and its sum cannot be formed |
| SumOrder.SentAfterFits | fec/3rdparty/siamese/SiameseDecoder.cpp:2567-2599 | a row sent after all that are listed and after those the sums were run for passes the check |
| Limits.DelayedRowNeeded | fec/3rdparty/siamese/SiameseDecoder.cpp:357-376 | the decoder takes that row |
| DecoderRows.DenseValue | fec/3rdparty/siamese/SiameseDecoder.cpp:2278-2302 | the coefficient assembled bit by bit is the encoder's dense coefficient |
| DecoderRows.GenerateShortRow | fec/3rdparty/siamese/SiameseDecoder.cpp:2208-2246 | the row of a parity or Cauchy packet holds the encoder's coefficients of all losses, zero past its range, although it stops at the first loss behind the range |
| DecoderRows.GenerateSiameseRow | fec/3rdparty/siamese/SiameseDecoder.cpp:2249-2339 | the row of a Siamese packet, written column by column and pair by pair, is the encoder's |
| DecoderRows.GenerateRow | fec/3rdparty/siamese/SiameseDecoder.cpp:2202-2340 | either kind, over the columns added since the matrix was last generated |
| DecoderRows.EliminateShort | fec/3rdparty/siamese/SiameseDecoder.cpp:840-882 | a parity or Cauchy payload less exactly the received packets of its range |
| Losses.ReceivedCancelled | fec/3rdparty/siamese/SiameseDecoder.cpp:812-1059 | a payload less its received packets is the matrix row times the lost data |
| Regions.GeneratedGrows | fec/3rdparty/siamese/SiameseDecoder.cpp:2157-2345 | because the list is in the order of right ends, the matrix of more rows and losses is the old one with rows and columns added, and loss counts do not decrease |
| Regions.RegionShifted | fec/3rdparty/siamese/SiameseDecoder.cpp:2051-2057 | dropping received elements from the front leaves the generated matrix that of the region |
| Recoveries.InsertedSorted | fec/3rdparty/siamese/SiameseDecoder.cpp:2567-2635 | inserting keeps the list in the order of right ends |
| Recoveries.LeftEndsOfTwo | fec/3rdparty/siamese/SiameseDecoder.cpp:2581-2599 | left ends are in order exactly if no packet that ends later starts earlier and packets that end together start together |
| Recoveries.LeftEndsNotSorted | fec/3rdparty/siamese/SiameseDecoder.cpp:2581-2590 | in the list of the example in the comment they are not |
| Recoveries.DeletedExactly | fec/3rdparty/siamese/SiameseDecoder.cpp:2637-2666 | what is dropped from the head are exactly the packets that end at or before the element |
| RecoveryList.RecoveryPacketList.Insert | fec/3rdparty/siamese/SiameseDecoder.cpp:2567-2635 | the doubly linked list holds the packet at the place found from the tail; the region is looked at again exactly when it is not put behind a nonempty list |
| RecoveryList.RecoveryPacketList.DeletePacketsBefore | fec/3rdparty/siamese/SiameseDecoder.cpp:2637-2666 | links and count are those of the list without its dropped head |
| RecoveryList.RecoveryPacketList.Delete | fec/3rdparty/siamese/SiameseDecoder.cpp:2680-2697 | links and count are those of the list without the packet |
| RecoveryList.RecoveryPacketList.DecrementElementCounters | fec/3rdparty/siamese/SiameseDecoder.cpp:2668-2678 | all counters move, no link changes |
| Decoder.Decoder.GenerateMatrix | fec/3rdparty/siamese/SiameseDecoder.cpp:2059-2383 | brings the matrix up to the whole checked region, whatever part of it was generated and eliminated before |
| Decoder.Decoder.EliminateOriginalData | fec/3rdparty/siamese/SiameseDecoder.cpp:812-1059 | every payload used for the solution becomes its matrix row times the lost data, and it fails exactly if, in their order, a used row's sum neither starts in the window nor goes on from the sums the used rows before it leave |
| Decoder.Decoder.CheckRecoveryPossible | fec/3rdparty/siamese/SiameseDecoder.cpp:541-628 | the region reached is the first, from the recorded one on (the one after it if that could not be solved), with as many packets as losses, or all packets; recovery is thought possible exactly if it has as many packets as losses, at most 255 losses, and is not one that failed with no packet listed behind it |
| Decoder.Decoder.DecodeCheckedRegion | fec/3rdparty/siamese/SiameseDecoder.cpp:729-810 | asks for more data exactly if the losses of the region are not determined; otherwise it reports all of them, each as the encoder was given it |
| Decoder.Decoder.SolveMatrix | fec/3rdparty/siamese/SiameseDecoder.cpp:729-810 | solves exactly if the losses are determined by the region's packets |
| Decoder.Decoder.DecodeRegions | fec/3rdparty/siamese/SiameseDecoder.cpp:630-727 | the loop around it: more data are wanted exactly if the recorded region cannot be solved, since what it decodes again is that region; then all packets have been looked at and the region counts as failed; otherwise it hands out the region's losses, unless a row used was not served |
| Decoder.Decoder.Decode | fec/3rdparty/siamese/SiameseDecoder.cpp:630-727 | hands out all packets waiting or, if none are, exactly the losses of the region reached, which are received from then on: as the encoder was given them, and none that was handed out before; more data are wanted exactly if nothing is waiting and that region is not promising or its losses are not determined by its packets; it succeeds on a recoverable region of orderly rows; an orderly list stays orderly, and the decoder enabled unless the list is empty |
| Decoder.Decoder.EachOnce | fec/3rdparty/siamese/SiameseDecoder.cpp:630-727 | in every state of every run each packet received arrived as it was sent, waits to be handed out or has been handed out: just one of these, and once |
| Limits.ParityDeliveredTwice | fec/3rdparty/siamese/SiameseDecoder.cpp:630-727 | the input where it is incomplete: a parity packet listed twice before a Cauchy packet; the region reached is not solvable, all three packets determine the losses |
| Limits.CauchyThenParityTwice | fec/3rdparty/siamese/SiameseDecoder.cpp:630-727 | the run to it from the start: a Cauchy packet, then the parity packet twice; every call wants more data |
| Limits.DecodeInVain | fec/3rdparty/siamese/SiameseDecoder.cpp:570-627 | once a promising region is not solvable, every further call wants more data until a packet arrives |
| Limits.DifferentRowsRecoverable | fec/3rdparty/siamese/SiameseDecoder.cpp:630-727 | with parity and Cauchy packets of different row numbers that does not happen |
| Decoder.Decoder.AddOriginal | fec/3rdparty/siamese/SiameseDecoder.h:559-563 | a packet less than half a period past the front of the window is taken once, any other is dropped as a duplicate; the region is looked at again exactly if it counts the packet as lost; the region, the matrix and the sums stay consistent, and an orderly list orderly |
| Limits.OriginalsOnly | fec/3rdparty/siamese/SiameseDecoder.cpp:1467-1480 | the run where it goes wrong: after half a period of packets received without a recovery packet the next one, delayed by nothing, is taken for a duplicate |
| Limits.IgnoreAll | fec/3rdparty/siamese/SiameseDecoder.cpp:315-326 | from then on whatever arrives is ignored, original and recovery packets, however much is sent |
| Decoder.Decoder.AddRecovery | fec/3rdparty/siamese/SiameseDecoder.cpp:257-451 | a packet that protects the next expected element and ends less than half a period past the front is put in its place in the list, and what no listed packet needs leaves the window; a copy of a single packet is received and joins those waiting to be handed out; any other packet leaves list and packets as they are; a list whose rows pass the check on arrival stays orderly and the decoder enabled while it is not empty; with none listed, a packet all of whose range was received disables the decoder exactly if its sum would have to start where data is gone |
| Limits.RowAfterSingle | fec/3rdparty/siamese/SiameseDecoder.cpp:350-366 | a run where that happens, from the start: a row in order, not late and not needed disables the decoder, which has not run its sums |
| Decoder.Decoder.OutOfOrderExactly | fec/3rdparty/siamese/SiameseDecoder.cpp:278-283 | a packet counts as out of order if it ends before the latest end, or if its start and the latest end lie in different column periods, and only then |
| Limits.JudgedOutOfOrder | fec/3rdparty/siamese/SiameseDecoder.cpp:278-283 | a packet in order that is judged out of order |
| Decoder.Decoder.RemoveElements | fec/3rdparty/siamese/SiameseDecoder.cpp:1778-2033 | the recovery packets, the region and the matrix are the same, counted from the new front, past which little more could be dropped; with an orderly list it does not disable the decoder |
| Serializers.HeaderPacketNumRoundTrip | fec/3rdparty/siamese/SiameseSerializers.h:330-381 | a packet number is read back before any rest |
| Serializers.FooterPacketNumRoundTrip | fec/3rdparty/siamese/SiameseSerializers.h:383-460 | and behind anything |
| Serializers.FooterPacketCountRoundTrip | fec/3rdparty/siamese/SiameseSerializers.h:510-564 | the same for counts |
| Serializers.HeaderPacketLengthRoundTrip | fec/3rdparty/siamese/SiameseSerializers.h:566-646 | the same for lengths in front |
| Serializers.FooterPacketLengthRoundTrip | fec/3rdparty/siamese/SiameseSerializers.h:648-734 | and lengths at the end |
| Serializers.RecoveryMetadataRoundTrip | fec/3rdparty/siamese/SiameseSerializers.h:736-800 | metadata are read back from the footer behind any payload |
| Serializers.LossRangeRoundTrip | fec/3rdparty/siamese/SiameseSerializers.h:861-994 | a loss range is read back before any rest of at least the padding's length |
| Acknowledgement.GenerateAcknowledgement | fec/3rdparty/siamese/SiameseDecoder.cpp:125-255 | the ranges written stand for all losses in order, then the packet just past the window if its last was received, or for a prefix of these if there was no room |
| Acknowledgement.LostFromIsLost | fec/3rdparty/siamese/SiameseDecoder.cpp:125-255 | these are the losses the matrix columns are made of |
| EncoderAcknowledgement.EncodedInjective | fec/3rdparty/siamese/SiameseSerializers.h:861-994 | no two lists of ranges have the same bytes |
| EncoderAcknowledgement.EncoderAcknowledgementState.DecodeNextRange | fec/3rdparty/siamese/SiameseEncoder.cpp:725-755 | reads exactly the next range |
| EncoderAcknowledgement.EncoderAcknowledgementState.GetNextLossColumn | fec/3rdparty/siamese/SiameseEncoder.cpp:757-777 | gives the next lost column, in order, until there are none |
| EncoderAcknowledgement.EncoderAcknowledgementState.RestartLossIterator | fec/3rdparty/siamese/SiameseEncoder.cpp:779-788 | starts over with the first |
| EncoderAcknowledgement.EncoderAcknowledgementState.OnAcknowledgementData | fec/3rdparty/siamese/SiameseEncoder.cpp:514-582 | takes in an acknowledgement exactly if it is not older than the last, starts over with its losses unless it is the last one again, and removes exactly what it acknowledges |
| EncoderAcknowledgement.LossesRoundTrip | fec/3rdparty/siamese/SiameseEncoder.cpp:725-788 | the columns the encoder steps through are the decoder's losses in order, then the one just past its window, or a prefix |
| Session.Session.LostIsHeld | fec/3rdparty/siamese/SiameseEncoder.cpp:183-216 | in every state of every run with losses, copies and reordering in which no packet or reply arrives more than half a column period of packets late: a packet the decoder lacks is held and unremoved at the encoder, and no recovery packet on its way has lost packets before its light range |
| Session.Session.AllTimely | fec/3rdparty/siamese/SiameseCommon.h:101-109 | as long as no more than half a period of packets has been sent, nothing arrives late, and all column numbers remembered are told apart |
| Session.Session.SentNear | fec/3rdparty/siamese/SiameseEncoder.cpp:85-161 | in every state the encoder has sent less than a period of packets past the front of the decoder's window |
| Session.Session.Send | fec/3rdparty/siamese/SiameseEncoder.cpp:85-161 | sending a packet keeps this |
| Session.Session.SendRepair | fec/3rdparty/siamese/SiameseEncoder.cpp:1146-1254 | so does sending a recovery packet, which protects all that is unremoved, carries its metadata in a footer and is logged |
| Session.Session.DeliverOriginal | fec/3rdparty/siamese/SiameseDecoder.cpp:1467-1536 | so does the arrival of a packet, now or later, once or again; it is received exactly if it lies less than half a period past the front of the window, and else a duplicate |
| Session.Session.DeliverRepair | fec/3rdparty/siamese/SiameseDecoder.cpp:257-451 | and that of a recovery packet, its metadata read back from the footer the encoder wrote: it is listed, received or ignored as the decoder needs it |
| Session.Session.Decode | fec/3rdparty/siamese/SiameseDecoder.cpp:630-727 | and decoding, in every state; what is handed out was sent just so, it is all that was waiting or else the losses of the region reached, and more data are wanted exactly if that cannot be solved |
| Session.Session.SendReply | fec/3rdparty/siamese/SiameseDecoder.cpp:125-255 | so does a reply, which is sent exactly if the window is not empty and lists its losses as far as there is room |
| Session.Session.DeliverReply | fec/3rdparty/siamese/SiameseEncoder.cpp:514-582 | and the arrival of a reply, which moves the first unremoved packet on but not past the decoder's next expected one |
| Weyl.IterateNextColumn | fec/3rdparty/wirehair/WirehairTools.h:225-248 | the closed form is "add a modulo p until below b" |
| Weyl.NextFromOutside | fec/3rdparty/wirehair/WirehairTools.h:237-247 | however many additions are skipped at once |
| Weyl.OutputsPermute | fec/3rdparty/wirehair/WirehairTools.h:225-248 | for prime p, b successive columns from any start are each of the b columns once |
| PeelRows.Initialize | fec/3rdparty/wirehair/WirehairTools.cpp:538-573 | the parameters are always such that the iterators work, and the row keeps its weight up to half the columns |
| PeelRows.EveryWalk | fec/3rdparty/wirehair/WirehairTools.cpp:538-573 | every walk through the columns is chosen by some random words |
| PeelRows.PeelColumnsDistinct | fec/3rdparty/wirehair/WirehairTools.h:313-359 | the columns of a peel row are different columns of the block |
| PeelRows.PeelRowIterator.GetColumn | fec/3rdparty/wirehair/WirehairTools.h:336-340 | the column it is at, the last of those it has given |
| PeelRows.PeelRowIterator.Iterate | fec/3rdparty/wirehair/WirehairTools.h:345-359 | steps through exactly the row's columns and says when they are through |
| PeelRows.RowMixIterator.constructor | fec/3rdparty/wirehair/WirehairTools.h:383-413 | three successive mixing columns, different exactly if there are three |
| Peeling.Codec.OpportunisticPeeling | fec/3rdparty/wirehair/WirehairCodec.cpp:69-152 | the row is taken exactly if all its columns have room, and otherwise nothing has changed; all invariants hold after its avalanche, that of the weight-2 numbers included |
| Peeling.Codec.WeightIsTwoRows | fec/3rdparty/wirehair/WirehairCodec.cpp:139-148 | between avalanches the weight-2 number of an unmarked column is the number of rows in neither list with exactly two unmarked columns, one of them that one |
| Peeling.Codec.FixPeelFailure | fec/3rdparty/wirehair/WirehairCodec.cpp:154-182 | takes exactly the references back that were made |
| Peeling.Codec.PeelAvalancheOnSolve | fec/3rdparty/wirehair/WirehairCodec.cpp:184-286 | terminates; all rows of the column have been counted off, the rows that solve further columns are listed behind those of their other columns |
| Peeling.Codec.Visit | fec/3rdparty/wirehair/WirehairCodec.cpp:193-284 | one row of it: it stays in play with at least two columns pending, or it enters exactly one list |
| Peeling.Codec.Rescan | fec/3rdparty/wirehair/WirehairCodec.cpp:233-284 | the final two unmarked columns are exactly those pending, and both count the row, or the row leaves |
| Peeling.Codec.SolveWithPeel | fec/3rdparty/wirehair/WirehairCodec.cpp:288-322 | the row solves the column, comes next in the peeled list, before those of its avalanche, and is noted in the column |
| Peeling.Codec.PickColumn | fec/3rdparty/wirehair/WirehairCodec.cpp:335-372 | the last of the unmarked columns with the most rows of two unmarked columns, as they are now, then the most rows; none exactly if none is unmarked |
| Peeling.Codec.GreedyPeeling | fec/3rdparty/wirehair/WirehairCodec.cpp:324-390 | puts off the heaviest column each time, until no column is left unmarked: each row is in exactly one list, each column is peeled or deferred, peeled rows and columns pair up, so with as many rows as columns as many are deferred of each; what was peeled before stays |
| Peeling.Codec.NoRowCanSolve | fec/3rdparty/wirehair/WirehairCodec.cpp:69-286 | between avalanches a row is in neither list exactly if at least two of its columns are unmarked, and otherwise none is: nothing that could be solved is left |
| Peels.ShareCount | fec/3rdparty/wirehair/WirehairCodec.cpp:324-390 | two lists that share the numbers below n have n entries together |
| Peels.CountedTwo | fec/3rdparty/wirehair/WirehairCodec.cpp:233-284 | with two columns pending the row has at most two unmarked ones, and no union field is read for what it does not hold |
| Substitution.BlockSolver.SetDeferredColumns | fec/3rdparty/wirehair/WirehairCodec.cpp:396-453 | the bits of a row are exactly its deferred columns; the column map lists them and the mixing columns |
| Substitution.BlockSolver.SetMixingColumnsForDeferredRows | fec/3rdparty/wirehair/WirehairCodec.cpp:455-496 | the deferred rows get their mixing columns, the others do not yet |
| Substitution.BlockSolver.PeelDiagonal | fec/3rdparty/wirehair/WirehairCodec.cpp:498-649 | an assignment satisfies the rows received exactly if it satisfies the rows this leaves |
| PeelSystem.StartedResidual | fec/3rdparty/wirehair/WirehairCodec.cpp:396-496 | at first a compressed row is off by what the row received is off |
| PeelSteps.StepReferring | fec/3rdparty/wirehair/WirehairCodec.cpp:579-640 | what a row is added to has its residual added, in bits and in data |
| PeelSteps.StepZero | fec/3rdparty/wirehair/WirehairCodec.cpp:512-649 | so one row's turn changes nothing about which assignments satisfy all rows, or all peeled rows |
| PeelResult.ReducedSystem | fec/3rdparty/wirehair/WirehairCodec.cpp:498-649 | the rows received hold exactly if the deferred rows' equations hold and the peeled columns follow |
| PeelResult.Extension | fec/3rdparty/wirehair/WirehairCodec.cpp:498-649 | the deferred and mixing columns extend to a solution exactly if they satisfy the deferred rows' equations, and then in one way |
| Substitution.BlockSolver.Compress | fec/3rdparty/wirehair/WirehairCodec.cpp:2912-2916 | the three steps together, from any state peeling may leave |
| Substitution.BlockSolver.InitializeColumnValue | fec/3rdparty/wirehair/WirehairCodec.cpp:1496-1546 | the right-hand side of a deferred row's equation |
| Substitution.BlockSolver.Substitute | fec/3rdparty/wirehair/WirehairCodec.cpp:2725-2833 | walking the peeled list forward computes that extension: all rows received hold exactly if the columns left satisfied their equations |
| BitSets.FindFirstClear | fec/3rdparty/siamese/PacketAllocator.h:285-310 | the first cleared bit from a start on, or the number of bits |
| BitSets.FindFirstSet | fec/3rdparty/siamese/PacketAllocator.h:319-345 | the first set bit of the words scanned, which are the first one whole and all that begin before the end asked for, or that end if they have none |
| BitSets.FindPastEnd | fec/3rdparty/siamese/PacketAllocator.h:312-346 | an input where the index lies past the end, although no bit before the end is set |
| BitSets.SetRange | fec/3rdparty/siamese/PacketAllocator.h:354-391 | sets exactly the range, word by word |
| BitSets.ClearRange | fec/3rdparty/siamese/PacketAllocator.h:399-437 | clears exactly the range |
| BitSets.RangePopcount | fec/3rdparty/siamese/PacketAllocator.h:243-277 | the number of set bits of the range |
| PacketAllocator.FindHole | fec/3rdparty/siamese/PacketAllocator.cpp:295-317 | the first place from the offset on with that many clear units; none exactly if there is none |
| PacketAllocator.Allocator.Allocate | fec/3rdparty/siamese/PacketAllocator.cpp:268-368 | a new allocation of the right size, at the first place with room in the last window with room; exactly the windows searched in vain, and this one if it has no room for as much again, are taken to be full; that window's count of free units drops by the units taken |
| PacketAllocator.FillExactly | fec/3rdparty/siamese/PacketAllocator.cpp:183-187 | a run from the start to a window filled exactly that stays among those to search, with no free unit, against the integrity check |
| PacketAllocator.Allocator.MoveLastFewWindowsToFull | fec/3rdparty/siamese/PacketAllocator.cpp:370-394 | exactly the last windows change lists, last first, and know their places |
| PacketAllocator.Allocator.AllocateFromNewWindow | fec/3rdparty/siamese/PacketAllocator.cpp:396-433 | the same in a new window |
| PacketAllocator.Allocator.Reallocate | fec/3rdparty/siamese/PacketAllocator.cpp:435-487 | an allocation stays where it is exactly if it has room enough, else a new one takes its place, with its contents if asked for; no other allocation is touched |
| PacketAllocator.Allocator.Shrink | fec/3rdparty/siamese/PacketAllocator.cpp:489-552 | gives back exactly the units behind those needed |
| PacketAllocator.ShrinkTo | fec/3rdparty/siamese/PacketAllocator.cpp:583-584 | a shrunk allocation has less than the two units that freeing asserts exactly if it was shrunk to no bytes |
| PacketAllocator.Allocator.Free | fec/3rdparty/siamese/PacketAllocator.cpp:554-640 | gives back exactly the allocation's units, once, and a window empty enough is put last to be searched again from its front |
| PacketAllocator.Allocator.Promote | fec/3rdparty/siamese/PacketAllocator.cpp:605-627 | each window stays in exactly one list and knows its place |
| PacketAllocator.Allocator.UnitsApart | fec/3rdparty/siamese/PacketAllocator.cpp:156-266 | no two allocations share a unit |
| PacketAllocator.Allocator.UsedIsUnion | fec/3rdparty/siamese/PacketAllocator.cpp:156-266 | a window's bitmap is exactly the union of its allocations' ranges, and its count of free units the complement |
| Stream.PacedShare | fec/include/stream.hpp:171-174 | at the pace kept the repair symbols number floor(n f / d), or one less if one is due |
| Stream.DueInSegment | fec/include/stream.hpp:119-124 | the two counters of the segment tell exactly when one is due |
| Stream.ContinuousStreamEncoder.Share | fec/include/stream.hpp:126-156 | in every state of every run that is the number sent, one less exactly when the next symbol is a repair symbol |
| Stream.ContinuousStreamEncoder.GetSymbol | fec/include/stream.hpp:126-156 | chunks leave in order with consecutive indices; the r-th repair symbol follows chunk number ceil((r + 1) d / f) |
| Stream.ContinuousStreamEncoder.Level | fec/include/stream.hpp:95-107 | all acknowledged exactly if the receiver expects the next chunk, else at the ratio exactly if the chunks make up whole segments and the repair symbols their share |
| Stream.OnePerSegmentNeverStops | fec/include/stream.hpp:171-174 | with one repair symbol per segment another one would be due at once, for ever: the ratio needs f >= 2 |
| Shaper.DrainedAbove | fec/include/logic.hpp:43-52 | rounding down the bytes read never understates the load of an exact link |
| Shaper.FitsWhen | fec/include/logic.hpp:19-23 | a packet fits the buffer exactly from the time that is computed |
| Shaper.BandwidthShaper.DidSend | fec/include/logic.hpp:25-29 | the utilisation stays within the buffer exactly if the packet is no larger than it and was not sent too early, and it is never below that of the exact link |
| Shaper.BandwidthShaper.TimePerByte | fec/include/logic.hpp:37-41 | the whole nanoseconds a byte takes at the bandwidth; one more would be too many |
| Shaper.BurstBound | fec/include/logic.hpp:10-53 | between any two packets of a run no more is sent than the buffer holds and the link drains in between |
| Shaper.LinkBound | fec/include/logic.hpp:10-53 | in bits and nanoseconds: no more than the buffer holds and the bandwidth carries in between, but for what rounding down the time per byte lets through for each byte past the buffer |
| Shaper.LinkBoundReached | fec/include/logic.hpp:10-53 | a run that gets exactly that much through |
| Shaper.BandwidthShaper.WithinLink | fec/include/logic.hpp:10-53 | the same in every state of a shaper whose buffer was kept; the excess is less than the bandwidth's number in millionths of a bit per byte |
| PacketQueue.ShapedPacketQueue.PopValue | fec/include/logic.hpp:82-87 | the greatest packet leaves; the buffer is kept exactly if it was time |
| PacketQueue.AtMostIs | fec/include/logic.hpp:90-93 | the order of the packets is that of their bytes, one by one, a packet that goes on where another ends being greater |
| PacketQueue.ShapedPacketQueue.MaybeSend | fec/include/asio.hpp:70-90 | sends what may be sent now, in order from the greatest down, and reports each to the shaper, keeps within the buffer and stops only when the next packet does not fit |

## Left out

- Decoder.Decoder.AddRecovery: assumes that the packet is one the encoder made (`Sent`) and not more than half a column period late (`InTime`); if it is listed though judged out of order, that it does not end half a period past the last packet received in order (`LastTold`); and that no stopped sum starts at another packet with the column number its own sum starts at in the window (`StartTold`). Outside that the source misjudges it too.
- Decoder.Decoder.AddOriginal: assumes that the packet is not more than half a column period late, and less than a period past the front of the window, which `SentNear` shows for every packet sent.
- Decoder.Decoder.EliminateOriginalData: the failing branch is modelled, the allocation failures of the sums are not.
- Session.Session.DeliverRepair: assumes that no more than half a period of packets has been sent since its end (`Timely`), and, which is no matter of delay, that the two column numbers the decoder remembers are told apart (`ToldApart`); `AllTimely` shows both for all runs of up to 2^21 packets. The payload is one byte position and the rest of it a parameter; what is not from the encoder is not delivered.
- Session.Session.DeliverOriginal: assumes that no more than half a period of packets has been sent since.
- Session.Session.DeliverReply: assumes that no more than half a period of packets has been sent since the packet it expects.
- SumOrder.InsertedInOrder: the check is not in the source.
- DecoderWindow.DecoderPacketWindow.RangeLostPackets: scans element by element; the source skips whole subwindows by their counts of received packets, and its subwindow bitmaps are not modelled.
- DecoderWindow.DecoderPacketWindow.FindNextLostElement: the same.
- DecoderWindow.DecoderPacketWindow.FindNextGotElement: the same.
- DecoderWindow.DecoderPacketWindow.RemoveElements: elements leave the sequence at once; the source rotates subwindows for reuse.
- RecoveryMatrix.RecoveryMatrixState.GenerateMatrix: rows are sequences; the row stride and the copying of `GrowingAlignedByteMatrix::Resize` are not modelled.
- Solver.BackSubstitution: solves and leaves the filing of recovered packets, which the source does in the same loop, to `Decoder.FileAll`.
- RecoveryList.RecoveryPacketList.Insert: the linked list is modelled here by itself; `Decoder` works on the sequence it holds.
- Serializers.RecoveryMetadataRoundTrip: reads from the bytes of one packet; the reads past a field that the buffers' padding allows are modelled as reads of that padding.
- Acknowledgement.GenerateAcknowledgement: is given the window; the answer of a disabled decoder is left to `Session`.
- EncoderAcknowledgement.EncoderAcknowledgementState.OnAcknowledgementData: takes messages that the decoder wrote, not damaged ones, and not the retransmission timeout that it updates.
- PeelRows.Initialize: the row's weight and the two random words are parameters; that the next prime is prime is assumed.
- Peeling.Codec.OpportunisticPeeling: takes the list of the row's columns, which `PeelRows` shows to be different columns of the block; the iterator is not run again at each visit.
- Substitution.BlockSolver.Compress: matrix words are sequences of bits, and the elimination between `Compress` and `Substitute` is not modelled.
- BitSets.FindFirstClear: a word is the sequence of its 64 bits; shifts, masks, bit counts and trailing zeros are functions on it.
- PacketAllocator.Allocator.Allocate: sizes that overflow 32 bits when rounded up to units, and a lack of memory, are not modelled; an allocation's header is an object of its own, so that its contents cannot overwrite it.
- PacketAllocator.Allocator.Free: a pointer freed before is recognised as long as its header is intact, which in the source later allocations may overwrite.
- PacketQueue.ShapedPacketQueue.PopValue: the priority queue is an ordered sequence; the clock is a parameter.
- Stream.ContinuousStreamEncoder.GetSymbol: the Siamese encoder behind it is the one of `Encoder` and always has room; the receiver's acknowledgement is its number.
- Protection.AnySentRecover: is about packets whose range the decoder places where the encoder made them; two that start a whole period of packets apart are not told apart by column numbers.
- Payloads of different lengths and their padding, SIMD paths, tables of the field, pseudo-random generators (their draws are parameters), out-of-memory exits other than those named, statistics and logging.
- Retransmission, round-trip times and the choice between recovery and retransmission: policy.
- Wirehair's dense and heavy rows, its triangulation and its windowed back-substitution: the elimination argument is made for Siamese.
- The receiving side of the stream (`ContinuousStreamDecoder`), sockets, timers and programs.
