# Verification of the JPEG entropy coders and their bookkeeping

A Dafny model of the hardest parts of libjpeg-turbo 1.5.1 (directory `jpeg/`), with proofs about it.
The standard is ITU-T T.81.

- **Arithmetic coding** (`jcarith.c`, `jdarith.c`, `jaricom.c`): the registers of both coders against an
  exact, unbounded coding interval; then the sequential MCU coders on top of them, with restart markers.
- **Huffman coding** (`jchuff.c`, `jdhuff.c`, `jdhuff.h`): optimal trees, the length limiter, derived
  tables, bit writers and readers, the fast and the slow decoder, sequential scans with restart markers,
  the gathering of statistics and the tables made from them.
- **Progressive coding** (`jcphuff.c`, `jdphuff.c`, `jcmaster.c`, `jcparam.c`): the four kinds of scan, each
  with restart markers and with optimal tables, suspension, script validation, and whole runs of a script.
- **Restart markers that are not the expected ones** (`jdmarker.c`): where decoding goes on, and what a loss costs.
- **Quantisation** by reciprocals (`jcdctmgr.c`).
- **Context rows** (`jdmainct.c`, `jdmainct.h`): the two lists of row addresses that share one buffer.
- **Coefficient controllers** (`jccoefct.c`, `jctrans.c`, the dimensions of `jcmaster.c`), and the runs of a
  script on what they send.

Code that works by changing state is modelled by classes and methods with loops, proved against functions on
values; what those functions mean is proved by lemmas. The events of a Huffman scan (symbols and plain bits)
are a list in the order in which a decoder meets them; encoders are proved to emit it, decoders to follow it.

## Where the code does not do what it is for

Three properties fail on inputs that the code accepts; each is proved with an input and with the exact condition.

- `flush_bits` of `jchuff.c` appends 7 ones to a 64-bit register that may hold up to 63 bits, so bits are lost
  when those pending are a number of 2^57 or more. `HuffEncoder.EncodeScan`: each segment holds its bits if and
  only if `HeldBits.FlushFits`; `BitCodec.RoundTrip`: the same for plain codes. `FlushLoss.OnesLost` and
  `FlushLoss.LongEobLost` are inputs that lose bits. With end-of-block codes of at most 10 bits, and at most 26 bits
  for any coefficient with its code, nothing is ever lost (`ShortEob.ShortEndsFit`); for coefficients of at most 10 bits
  only the first matters (`ShortEob.TenBitTable`).
- `quantize` with 16-bit elements negates -32768 to itself, so that the quotient is wrong except for the
  divisors of `ReciprocalEdge.Lucky` (`ReciprocalEdge.EdgeExact`, `Quantize.QuantizeBlock`).
- `process_data_context_main` shows the row group before the last iMCU row while the rows behind the image are
  not yet replaced: the second row below, or a later one, is padding if and only if it is behind the image
  (`ContextRows.ContextController.ContextRight`; the first row below is always right). So a whole image is shown right if
  and only if it has one iMCU row or the first row group of the last one is full in all components
  (`ContextRows.ContextController.WholeImageRight`). `ContextRows.PaddingShown` runs the controller on an image of five rows.

## Model

| member | source | states |
|---|---|---|
| ArithCodec.RoundTrip | jpeg/jdarith.c:111-188 | For every sequence of decisions, in bins that may depend on all earlier decisions, decoding the bytes of `arith_encode` and `finish_pass` gives the decisions back and leaves equal statistics on both sides, whatever marker, fill bytes and tail follow |
| ArithEncoder.Encoder.ArithEncode | jpeg/jcarith.c:221-314 | The sent bytes, pending zeros, held byte, stacked 0xFF bytes and registers always denote the exact interval, which the decision narrows as section D.1 says; no carry arrives before the first byte, the held byte is never 0xFF, data sent never end in zero |
| ArithEncoder.Encoder.FinishPass | jpeg/jcarith.c:135-196 | The data sent, continued by zeros, is a number inside the final interval; it does not end in a zero byte, and it is stuffed |
| ArithEncoder.FinalCodeBest | jpeg/jcarith.c:135-148 | That number has 15 zero bits at the end, and 16 if any number in the interval has |
| ArithDecoder.Decoder.ArithDecode | jpeg/jdarith.c:111-188 | While the input is a number inside the interval of the expected decisions, the next one is decoded; on any input, interval and statistics change as for the decision decoded |
| Aritab.Fetch | jpeg/jaricom.c:32-156 | The shifts and masks of both coders get the estimate and both next states out of a packed entry; every estimate is at least 1 and below 0x8000, every state at most 113 |
| Aritab.StatBits | jpeg/jcarith.c:229-236 | The sense of a bin is the top bit of its byte, the state the low seven |
| QmLearning.SenseAfter | jpeg/jcarith.c:244-262 | A more probable symbol keeps the sense of a bin, a less probable one changes it exactly in the states of the table that ask for it |
| QmLearning.RowsAdapt | jpeg/jaricom.c:32-156 | In every state but 113, a less probable symbol makes the estimate larger and a change of the sense nearer, or changes it; a more probable one makes the estimate smaller, down to 1 |
| QmLearning.Learns | jpeg/jdarith.c:162-185 | From every state but 113, 29 equal symbols make that symbol the more probable one |
| QmLearning.Sharpens | jpeg/jdarith.c:162-185 | After that the estimate falls with every such symbol, down to 1 |
| QmLearning.BinLearns | jpeg/jcarith.c:221-314 | A bin in which only one symbol is coded takes it for the more probable one after 29 decisions at the latest, whatever is coded in other bins in between and whatever the interval |
| QmLearning.FreshBin | jpeg/jcarith.c:321-360 | A bin that has not been used has the estimate of the bin with the fixed one, and turns to the first symbol coded in it |
| QmLearning.FixedStays | jpeg/jaricom.c:150-155 | State 113 never adapts |
| QmInterval.PartsDisjoint | jpeg/jcarith.c:236-262 | The intervals after the two outcomes of a decision have no number in common |
| ArithScan.RoundTrip | jpeg/jdarith.c:195-227 | All MCUs of a scan with coefficients and DC differences of at most 2^15 come back, for every restart interval |
| ArithScan.EncodeScan | jpeg/jcarith.c:321-360 | The bytes are the segments with their restart markers; the data of each segment denote the final interval of its own decisions, coded from no statistics, and there are exactly as many segments as the MCUs need |
| ArithModel.WholeSegmentInRange | jpeg/jcarith.c:53-67 | From the start of a segment on, every bin that is used is below 49 for DC and below 245 for AC |
| ArithModel.ConditionedByKx | jpeg/jcarith.c:787-811 | The magnitudes of two coefficients share bins from the third category on exactly if both or none are at or below Kx; the two ranges have no bin in common |
| ArithModel.ContextClasses | jpeg/jcarith.c:749-753 | The context of the next difference is that of zero up to half of 2^L, that of small up to 2^U and that of large above, each with the sign |
| ArithMcuEncoder.McuEncoder.EncodeMcu | jpeg/jcarith.c:703-814 | What is coded for an MCU is exactly the plan of decisions of section F.1.4, and the DC contexts and predictions are those of the plan |
| ArithMcuDecoder.McuDecoder.DecodeMcu | jpeg/jdarith.c:502-622 | A decoder that expects the plan of an MCU ends with its blocks, and with the encoder's contexts and predictions; on any input it fails only if no marker ends it, and once data were bad it stores nothing more until the next restart |
| PrefixCodes.KraftInequality | jpeg/jchuff.c:912-958 | The lengths of any prefix-free code satisfy the inequality of Kraft |
| HuffmanMerge.AssignSizes | jpeg/jchuff.c:912-958 | The lengths that the merge loop leaves are a function of the counts, `CodeSizes`, and cost no more than those of any prefix-free binary code for the symbols that occur and the pseudo-symbol |
| HuffmanMerge.CodeSizesOptimal | jpeg/jchuff.c:912-958 | For any counts, ties included, the lengths `CodeSizes`, which the merge loop computes, cost no more than those of any prefix-free code |
| HuffmanLimit.GenOptimalTable | jpeg/jchuff.c:887-1017 | Fails exactly when one of the lengths `CodeSizes` of the counts is over 32; otherwise the counts are those of the lengths, limited by `Limited` and less one at the largest length, a full tree of depth 16 but for that, and symbols are listed by length |
| HuffmanLimit.LimitLengths | jpeg/jchuff.c:976-996 | The limiter always finds a shorter length to split, terminates, keeps the Kraft sum and the number of symbols, and computes `Limited` of the counts, in which always the longest word of at most i - 2 bits is split |
| HuffmanLimit.LeftAlone | jpeg/jchuff.c:976-996 | A length keeps its words as long as a longer one of at most i - 2 bits is in use |
| HuffmanLimit.SteepCounts | jpeg/jchuff.c:976-996 | For one code of each length up to 16 and two of 17 bits, only the lengths from 15 bits on change |
| OptimalTables.TablesFromCounts | jpeg/jchuff.c:887-1017 | Fails exactly then; otherwise both derived tables are those of the limited counts and the list of symbols; exactly the symbols counted have a code, of 1 to 16 bits; without limiting, none is longer than in the optimal tree |
| CanonicalCodes.PrefixFree | jpeg/jchuff.c:266-282 | No code word of an accepted table is the beginning of another |
| CanonicalCodes.NotAllOnes | jpeg/jchuff.c:276-280 | No code word of an accepted table consists of ones only |
| CanonicalCodes.NextCode | jpeg/jchuff.c:266-282 | Each code is the one before it plus 1, with zeros behind it if it is longer; with `FirstCode`, which is all zeros, this determines the codes |
| CanonicalCodes.DecodesSymbol | jpeg/jdhuff.c:448-484 | A code word followed by any bits decodes to its symbol and takes exactly its length |
| CanonicalCodes.DecodedIsSpelled | jpeg/jdhuff.c:448-484 | What is decoded was spelled out, unless no code matches, and then 17 bits are dropped |
| HuffmanTables.MakeEncoder | jpeg/jchuff.c:221-306 | Accepts exactly the legal counts with different symbols in range, and gives each symbol its canonical code |
| HuffmanTables.MakeDecoder | jpeg/jdhuff.c:154-273 | Accepts exactly the legal counts (for DC with symbols up to 15), and fills search and lookahead tables that agree with them |
| BitReader.LookupDecodes | jpeg/jdhuff.c:226-258 | On any 8 bits, a short entry of the lookahead table is what decoding bit by bit gives, otherwise no code of up to 8 bits is there |
| BitReader.Reader.HuffDecode | jpeg/jdhuff.h:190-209 | On any bits, invalid ones included: the symbol and the position of decoding bit by bit from length 1, or suspension without a change |
| BitReader.Reader.FillBitBuffer | jpeg/jdhuff.c:298-396 | Loads the bits of the destuffed data in order until the register is full, then zeros; fails without a change exactly when the input that is there ends before; data are called insufficient exactly when zeros are needed |
| EntropySource.ReadsFilled | jpeg/jdhuff.c:331-349 | Any number of fill bytes before a stuffed zero belong to one data byte 0xFF |
| BitWriter.PhuffWriter.EmitBits | jpeg/jcphuff.c:229-264 | Appends the lowest bits of the code to what is written; never more than 24 bits are held |
| BitWriter.PhuffWriter.FlushBits | jpeg/jcphuff.c:268-273 | The bytes are all bits written, padded with ones and stuffed |
| BitWriter.HuffWriter.FlushBits | jpeg/jchuff.c:463-483 | The same for the 64-bit register, if and only if the bits pending are a number below 2^57 |
| BitCodec.RoundTrip | jpeg/jchuff.c:345-402 | Both writers give the same bytes for any codes exactly when the bits held at the end are below 2^57, and the reader gets the codes back |
| FlushLoss.OnesDoNotFit | jpeg/jchuff.c:463-483 | Four codes of ones (16, 16, 15, 16 bits) leave 63 bits that do not fit |
| FlushLoss.OnesLost | jpeg/jchuff.c:463-483 | For these codes the two writers differ, and only the narrow one can be read back |
| FlushLoss.LongEobDoesNotFit | jpeg/jchuff.c:463-483 | With legal tables whose end-of-block code has 16 bits, one block of small coefficients leaves 63 bits that do not fit |
| FlushLoss.LongEobLost | jpeg/jchuff.c:505-711 | The encoder accepts that block and writes bytes that do not hold its bits |
| HeldBits.FewHeldFit | jpeg/jchuff.c:463-483 | With at most 57 bits held, flushing loses nothing |
| ShortEob.ShortEndsFit | jpeg/jchuff.c:345-402 | With end-of-block codes of at most 10 bits, and at most 26 bits for a coefficient with its code, every segment of every scan fits when it is flushed |
| ShortEob.TenBitTable | jpeg/jchuff.c:221-306 | In a table without symbols for more than 10 bits, only the end-of-block code matters |
| HuffEncoder.EncodeOneBlock | jpeg/jchuff.c:505-611 | Writes exactly the symbols and bits of sections F.1.2.1 and F.1.2.2, with the branchless signs |
| Zigzag.ZigzagWalk | jpeg/jutils.c:56-68 | `Natural` is the way through the block along the diagonals, turning at its edges, and behind its end stands the last place |
| Zigzag.Diagonals | jpeg/jutils.c:56-68 | From one coefficient to the next the diagonal stays or is the next one; the row grows along an odd diagonal and shrinks along an even one |
| AcFirstModel.SignFirst | jpeg/jchuff.c:505-611 | The first of the bits sent for a value tells its sign, and those of its negative are their complement |
| HuffEncoder.HuffmanEncoder.EncodeMcu | jpeg/jchuff.c:643-707 | One MCU, behind a restart marker if one is due; counters, predictions and segments are kept |
| HuffEncoder.EncodeScan | jpeg/jchuff.c:613-735 | Segments with their restart markers; each segment holds its bits, padded and stuffed, if and only if they fit when it is flushed |
| HuffMcu.HuffmanDecoder.DecodeMcuSlow | jpeg/jdhuff.c:554-648 | On any bits: the coefficients, predictions and position of the trace, and the data are insufficient exactly if that is behind the end; on suspension no state changes and what was stored is stored again |
| HuffMcu.HuffmanDecoder.DecodeMcuFast | jpeg/jdhuff.c:650-735 | On any valid codes: the same when it succeeds; when it fails, predictions, source and bit state are unchanged |
| HuffMcu.BothPaths | jpeg/jdhuff.c:650-735 | The fast path refines the slow one: from the same state on the same valid codes, the same coefficients, predictions and position, though they fetch differently |
| HuffMcu.HuffmanDecoder.ProcessRestart | jpeg/jdhuff.c:520-552 | Whatever marker is found: a new segment with zero predictions begins where `Recovered` says, or an empty one at a marker left unread, which keeps the flag that data have run out; a call that has to wait changes nothing that matters to the next one |
| HuffMcu.HuffmanDecoder.DecodeMcu | jpeg/jdhuff.c:755-792 | Restart handling, with any marker, the choice of path and the fall-back come to the trace of the MCU; an MCU is left alone exactly when the data have run out and no new segment begins |
| HuffMcu.HuffmanDecoder.FastWhen | jpeg/jdhuff.c:760-772 | The fast path is taken without restarts, when 512 bytes for each block are at hand and no marker has been met |
| BitReader.Reader.ResyncToRestart | jpeg/jdmarker.c:1209-1252 | Discards, skips or leaves markers as `Resynchronized` says; a call that has to wait for input leaves a state from which the same is reached |
| BitReader.Reader.ReadRestartMarker | jpeg/jdmarker.c:1130-1156 | The same from the end of a segment, whether its marker has been met already or not |
| Resync.OneRestart | jpeg/jdmarker.c:1130-1252 | When the marker found is `ahead` numbers past the expected one and the next ones are consecutive, the decoder stays at it if that is 1 or 2 modulo 8, skips on to the expected number for 6 or 7, and otherwise takes it for the expected one |
| Resync.OthersStay | jpeg/jdmarker.c:1209-1252 | No marker but a restart marker is ever read past |
| Resync.BogusSkipped | jpeg/jdmarker.c:1209-1252 | A code that is no marker changes nothing: what is done is what the next marker asks for |
| Resync.Resynchronizes | jpeg/jdmarker.c:1172-1252 | After markers were lost, from the second restart on for ever: all segments are in their places if and only if at most two were lost, and the numbers agree if and only if those lost are not 3 to 5 modulo 8 |
| LostSegments.LossConfined | jpeg/jdmarker.c:1130-1252 | If segments with the markers before them are cut from an encoded scan, at most two in a row and any number at the end, all MCUs of all other segments come back |
| LostSegments.ChainNumbered | jpeg/jchuff.c:618-640 | The markers behind the segments that were written are consecutive from each of them on, as `Resync.Resynchronizes` needs it |
| LostSegments.NothingLost | jpeg/jchuff.c:613-735 | Cutting nothing leaves the scan as it was written |
| BaseTraces.McuDecoded | jpeg/jdhuff.c:554-648 | The trace of what stands for an MCU is its blocks |
| HuffScan.RoundTrip | jpeg/jdhuff.c:755-792 | Every MCU sequence comes back for every restart interval, if its segments fit when they are flushed; both restart counters agree with the segment before every MCU |
| HuffScan.ShortRoundTrip | jpeg/jchuff.c:643-707 | The same unconditionally for tables with short codes at the ends of blocks |
| HuffScan.SegmentsDetermined | jpeg/jchuff.c:613-735 | The bytes of a scan can be divided into segments with restart markers in one way only |
| HuffScan.EncodesExactly | jpeg/jchuff.c:613-735 | So the bytes written tell by themselves that each segment holds its bits if and only if they fit when they are flushed |
| HuffScan.MarkersCycle | jpeg/jchuff.c:618-640 | The marker behind segment t is RST0 + t modulo 8 |
| HuffGather.GatherScan | jpeg/jchuff.c:753-855 | Fails exactly when a coefficient is out of range; otherwise the counts of each table are those of its symbols in what the output pass emits, over all restart segments |
| BaseModel.Magnitudes | jpeg/jchuff.c:753-824 | The range accepted is that of differences up to 2047 and AC coefficients up to 1023; what the encoder is proved for is 32767 |
| HuffOptimized.ScanModest | jpeg/jchuff.c:753-855 | A scan uses the tables of its components and no others, each of them, and only symbols that a table may have |
| HuffOptimized.MakeTables | jpeg/jchuff.c:1027-1062 | An optimal table for each table in use, made only once though components share it; fails exactly when the counts of one of them give a length over 32 |
| HuffOptimized.TablesForScan | jpeg/jchuff.c:1027-1062 | With the tables made from the statistics of a scan, everything in the scan has a code: the missing-code error is unreachable |
| HuffOptimized.OptimizedRoundTrip | jpeg/jchuff.c:827-1062 | Gathering, making tables, writing and reading: fails exactly when a coefficient is out of range or a length is over 32; otherwise the scan comes back if each segment fits the register when it is flushed, which is told for the tables made; short end-of-block codes are enough |
| EventTables.TablesFor | jpeg/jcphuff.c:768-807 | Tables from the statistics of any events code all of them; they fail to exist exactly when `CodeSizes` of the statistics has a length over 32 |
| AcRefineRun.SuspensionTransparent | jpeg/jdphuff.c:496-639 | A block left by a call that had to stop at any bit is refined from there, from the start of the band, to what one uninterrupted run gives |
| AcRefineDecoder.PhuffDecoder.DecodeMcu | jpeg/jdphuff.c:496-639 | The block, run and position are those of the run; on suspension the state is as before and the block as the run left it after the undo |
| AcRefineDecoder.DecodeInPieces | jpeg/jdphuff.c:531-541 | However the input arrives, calling until success gives what one call with all input gives, and when the input is complete the call succeeds |
| AcRefineEncoder.PhuffEncoder.EncodeMcu | jpeg/jcphuff.c:618-739 | Emitting what is due is the same before and after the block has been added: runs over blocks, ZRLs and buffered bits come in the order of a decoder; the buffer of 1000 bits never overflows |
| AcRefineModel.FullInTime | jpeg/jcphuff.c:725-731 | A run is ended as late as possible: at 0x7FFF blocks, or when the up to 63 bits of another block might not fit into the 1000 |
| AcRefineEncoder.PhuffEncoder.EmitEobrun | jpeg/jcphuff.c:316-340 | Run lengths never exceed 0x7FFF, so the check of 14 bits never fails |
| AcRefineEncoder.PhuffEncoder.EmitRestart | jpeg/jcphuff.c:347-369 | The run ends, the segment is flushed and the marker written; nothing is due behind it |
| AcRefineScan.RoundTrip | jpeg/jcphuff.c:618-739 | For every block sequence, every restart interval and any table with the codes: the decoder, which knows all but one bit, ends with that bit, whatever follows the scan |
| AcRefineScan.OptimizedRoundTrip | jpeg/jdphuff.c:496-639 | The same with statistics gathered first, over all restart segments, and optimal tables: it fails exactly when their lengths are over 32 |
| AcFirstScan.RoundTrip | jpeg/jcphuff.c:465-570 | The same for first AC scans: the coefficients after the point transform; it fails exactly for a missing code or a coefficient out of range |
| AcFirstScan.OptimizedRoundTrip | jpeg/jdphuff.c:375-443 | The same with optimal tables, for every restart interval |
| DcScan.RoundTrip | jpeg/jcphuff.c:377-462 | First DC scans over several components and tables, for every restart interval: the arithmetic shift of each DC coefficient comes back |
| DcScan.OptimizedRoundTrip | jpeg/jdphuff.c:291-365 | The same with an optimal table for each one in use |
| DcRefineScan.RefineRoundTrip | jpeg/jdphuff.c:446-490 | DC refinement, for every restart interval, adds the bit of the scan |
| DcRestarts.OnlyScan | jpeg/jcphuff.c:347-369 | The symbols of one table in a scan are those in its segments, one after the other |
| Restarts.SegmentCodable | jpeg/jcphuff.c:347-369 | If everything in a scan has a code, so has everything from each of its segments on |
| AcRestarts.FinishScan | jpeg/jcphuff.c:746-765 | At the end of a pass all segments hold their bits, or the counts are those of the whole scan |
| ProgressiveScript.ValidateScript | jpeg/jcmaster.c:177-308 | Accepts exactly the scripts that are progressive, each scan continuing what was sent of each coefficient, or sequential, each component once |
| ProgressiveScript.SimpleProgression | jpeg/jcparam.c:468-540 | For every number of components the script is accepted, has the number of scans reserved for it, and sends every bit |
| ScriptOrder.SimpleOrdered | jpeg/jcparam.c:468-540 | The script begins with the DC coefficients of all components; first scans come before those that refine, higher bits before lower ones, DC before AC, and low frequencies before high ones |
| ProgressiveRun.RoundTrip | jpeg/jcmaster.c:177-308 | Every accepted script, with any restart interval for each scan: when all scans have been coded and decoded, each coefficient is its point transform at the last Al; it fails exactly when a scan has a value out of range or statistics whose lengths are over 32 |
| ProgressiveRun.SimpleRoundTrip | jpeg/jcparam.c:468-540 | The script of `jpeg_simple_progression` gives the coefficients of 8-bit samples back exactly; it fails exactly when the statistics of a scan give a length over 32 |
| ScanOrder.DcValuesSent | jpeg/jccoefct.c:142-218 | The values that a DC scan codes are the DC values of the blocks that the controllers send, dummy blocks included |
| ScanOrder.OrderComplete | jpeg/jcmaster.c:355-436 | In the order in which the controllers send them, a DC scan has every block of each of its components |
| ScanOrder.SingleSends | jpeg/jccoefct.c:340-395 | In a scan of one component the controllers send exactly its blocks, one after the other |
| ScanOrder.FileRoundTrip | jpeg/jcmaster.c:355-436 | For every frame, image and accepted script, with any restart intervals: the scans that the controllers send give each coefficient back down to the last bit sent; it fails exactly when one scan has a value out of range or a length over 32 |
| ScanOrder.SimpleFile | jpeg/jcparam.c:468-540 | With the script of `jpeg_simple_progression`, all blocks of an image of 8-bit samples come back |
| Reciprocal.ComputeReciprocal | jpeg/jcdctmgr.c:172-221 | For every divisor up to 65535, the entry made divides with rounding every magnitude that fits the width; with 16 bits and whenever the vector code may be used, two multiplications that keep the high half, by the reciprocal and by the scale, do so too; it is the shift that says whether that code can be used |
| Reciprocal.QuantizedExact | jpeg/jcdctmgr.c:172-221 | For 16-bit and 32-bit elements and every divisor up to 65535, multiplying and shifting is division with rounding, in all cases of the reciprocal, which fits its width |
| ReciprocalEdge.EdgeExact | jpeg/jcdctmgr.c:403-438 | For -32768 and 16-bit elements the result is right if and only if the divisor is one of `Lucky` |
| Quantize.QuantizeBlock | jpeg/jcdctmgr.c:403-438 | Every coefficient is the rounded quotient, but for that case |
| ContextRows.ContextController.ProcessData | jpeg/jdmainct.c:328-391 | At any pace of input and output: row groups are delivered in turn, with the rows above and below that the image has there; with input and room there is progress |
| ContextRows.ContextController.ProcessImage | jpeg/jdmainct.c:251-391 | Whole passes: everything delivered is right and in order; when the pass is over, it is the whole image, the same number of row groups for all components |
| ContextRows.ContextController.ContextRight | jpeg/jdmainct.c:166-243 | Every row delivered around a row group is that of the image, with the first and last rows repeated, if and only if it is not behind the image around the row group delivered before the last iMCU row; one row below always is |
| ContextRows.ContextController.WholeImageRight | jpeg/jdmainct.c:328-391 | When the image is over, all rows delivered were right if and only if it has one iMCU row or the first row group of the last iMCU row is full in all components |
| ContextRows.SizesFit | jpeg/jdmaster.c:295-322 | For every image height and sampling, the sizes that are computed fit together as the controller needs |
| ContextRows.PaddingShown | jpeg/jdmainct.c:328-391 | The controller, run on an image of five rows in groups of two, delivers row 5 as the second row below the second group, where the image has row 4 |
| ContextPointers.WrapsListed | jpeg/jdmainct.h:46-71 | After wrapping, the entries above the first and below the last row group of both lists show the neighbours in the other iMCU row, and all other entries are as before |
| CoefDims.Nested | jpeg/jcmaster.c:136-170 | Rounding up to blocks and then to groups is rounding up once, and only the last group may be incomplete |
| CoefDims.BlocksCover | jpeg/jcmaster.c:136-170 | The blocks of a component cover its share of the image, and no row or column of them could be left out |
| CoefDims.LargestUsed | jpeg/jcmaster.c:136-170 | The largest sampling factors are those of some component |
| CoefStream.BlockPlaced | jpeg/jcmaster.c:355-436 | Every block of each component of a scan is in one of its MCUs |
| CoefStream.DummyRepeats | jpeg/jccoefct.c:166-196 | A block outside the image is never the first of its component in an MCU, has the DC value of the one before it, and all its AC coefficients are zero |
| DummyBlocks.DummyCosts | jpeg/jccoefct.c:166-196 | In a sequential scan such a block takes two symbols only: no difference, and the end of the block |
| CoefStream.SingleStream | jpeg/jcmaster.c:361-387 | A scan of one component is its blocks, row by row, without a dummy, whatever the sampling factors |
| CoefController.SinglePass.CompressData | jpeg/jccoefct.c:142-218 | Sends the stream of MCUs from where it stands; what the encoder refuses is sent by the next call; nothing is read before the first block |
| CoefBuffer.FillComponent | jpeg/jccoefct.c:244-330 | The rows of a component in an iMCU row, dummy blocks at the right and at the bottom included |
| CoefBuffer.FullImage.CompressFirstPass | jpeg/jccoefct.c:244-330 | Fills the buffers of all components, again if it had been suspended, and sends the same stream |
| CoefBuffer.FullImage.CompressOutput | jpeg/jccoefct.c:340-395 | Sends the same stream from the buffers |
| TransController.Transcoder.CompressOutput | jpeg/jctrans.c:291-365 | Sends the same stream, with dummy blocks made on the fly |
| CoefAgreement.SameStream | jpeg/jctrans.c:291-365 | For all image sizes and sampling factors, and wherever the encoder suspends, single-pass compression, the first pass, any later scan and transcoding send the same MCUs, exactly as many of the stream as the encoder would accept |

## Left out

- The progressive variants of the arithmetic coders.
- ArithScan.RoundTrip: AC coefficients and DC differences are assumed to be at most 2^15 in magnitude, which is where the bins end; larger ones run over the statistics area.
- HuffEncoder.EncodeOneBlock: AC coefficients and DC differences have at most 15 bits. The 4 bits for the size in a symbol have no room for more: -32768 would be written with the symbol of another run.
- HuffGather.GatherScan: DC coefficients are numbers of 16 bits, as their type in the source is.
- HuffOptimized.TablesForScan: with at most 10^9 symbols for each table, as the merge loop needs.
- HuffmanLimit.GenOptimalTable: at least one real symbol, and no length that 256 symbols have, as a count of 256 would wrap around in 8 bits.
- EventTables.TablesFor: with at most 10^9 symbols, as the merge loop needs.
- ScanOrder.FileRoundTrip: at most 10^9 symbols for each table; a dummy block is identified with the block whose DC value it repeats.
- LostSegments.LossConfined: the first segment is there; what becomes of the MCUs of lost segments is not stated.
- ArithMcuDecoder.McuDecoder.ProcessRestart: all of the input is there, since this decoder cannot wait for more.
- AcRestarts.ReadRestart: progressive scans are decoded without losses; `ProcessRestart` of their decoders is proved for any marker.
- AcRefineRun.SuspensionTransparent: coefficients are unbounded integers, so that the wrap-around of 16-bit coefficients in corrupt streams is not modelled.
- HuffMcu.HuffmanDecoder.DecodeMcuFast: on invalid codes nothing is promised; there the two paths differ.
- HuffMcu.HuffmanDecoder.DecodeMcu: where the fast path is taken, the codes are valid, and the data up to the next marker have no 0xFF before a stuffed 0xFF byte, which the standard does not allow; the fast path would take it for a marker and could leave coefficients behind that the slow path does not clear.
- HuffMcu.HuffmanDecoder.DecodeMcuSlow: all components are needed, and every block is stored.
- CoefController.SinglePass.CompressData: `forward_DCT` is any function of component and block position; sample buffers and workspaces are not modelled.
- CoefBuffer.FullImage.CompressFirstPass: virtual arrays are whole arrays in memory.
- TransController.Transcoder.CompressOutput: block addresses are modelled by the blocks themselves.
- ContextRows.ContextController.ProcessData: the rows themselves are their numbers; what the postprocessor does with them is not modelled.
- Staging buffers of the destination and source managers: output is a growing byte sequence, input a byte sequence with a cursor.
- The vector versions of `encode_one_block`, of quantisation and of the DCT.
- Error and warning texts: errors are failed results.
- Block smoothing, colour conversion, sampling, the colour quantiser and all markers but RSTn.
