# Verified model of rtp-sdr

A Dafny model of the parts of rtp-sdr that carry its logic, with proofs: the erasure code that lets a
receiver rebuild lost packets, the sequence number tracking of an RTP source, the sample ring buffer, and
the SDES packet printer and parser. `dafny verify dfyconfig.toml` checks everything.

## What is modelled

**The erasure code** (`rtp/fec`). Bytes are elements of the field with 256 elements.

- `Gf256` defines sum and product on the bits of a byte, proves the field laws, and proves that the
  powers of x run through all non-zero bytes; `PolynomialProduct` shows that the product is that of
  polynomials over GF(2) modulo x^8 + x^4 + x^3 + x^2 + 1: it is the remainder of the polynomial product,
  and equal bytes mean congruent polynomials.
- `GaloisTables` runs the loops of `gf_init` and shows that the four tables hold powers, logarithms,
  products and inverses. The tables are never written afterwards, so the rest of the model receives them
  as a value, and its look-ups are proved equal to the field operations.
- `LinearAlgebra`, `Polynomials` and `Elimination` hold the mathematics: matrices, synthetic division,
  roots, Vandermonde matrices, and the exchange argument behind in-place elimination. After some pivots the
  array sends (right-hand side on pivoted indices, unknowns elsewhere) to (unknowns on pivoted indices,
  right-hand side elsewhere), up to the row swaps made so far.
- `FlatMatrix`, `MatrixInverse` and `VandermondeInversion` are the loops over flat arrays.
- `ErasureCode` describes the generator matrix and proves that any k of its rows determine the source;
  `Shuffle` and `FecCodec` are the encoder and decoder, which reads and rewrites slots of one array;
  `FecGroup` collects packets in any order.

**The RTP source** (`RtpSource`): probation, wrap-around, resynchronisation and loss accounting, as a class
whose methods are tied to transition functions, and theorems about every run of those transitions.

**The ring buffer**: `RingBuffer` is the buffer used by one thread, `SpscRing` the interleaved steps of one
producer in `try_put` and one consumer in `get`, with what stays safe, and `SpscCalls` what their calls deliver.

**SDES packets**: `Bytes` and `Sdes` hold the printer and parser as loops over a buffer, `SdesRoundTrip`
what the parser makes of a printed packet and of one cut short, and `SdesOutcome` which of arbitrary bytes it
refuses or reads past the end of.

Conventions and assumptions:

- Multi-byte fields are integers with the width of the source written out as a remainder where it matters.
  `int` counters whose overflow is undefined in C grow without bound here; the theorems about runs that need
  them in range, `GoodRun` and `FractionExact`, say so.
- `assert` in the source is a `requires` here. The three checks at the start of `fec_new`, and those on
  packet indices, have the form `condition || "text"` and never fire; what they mean to check is required.
- Where the source names a constant that can be redefined (`LIBRTP_MIN_SEQUENTIAL`), it is a parameter. With
  the default of 2, as with any larger value, the loss fraction is exact. With 1 or 0 a source can turn valid
  without having its sequence fields reset, and then the fraction can be wrong: 100 announced and 200 the first
  packet gives 101 losses out of 101 but a stored fraction of 0. `FractionNeedsProperStart` and the lemmas after
  it say exactly for which starts this happens.
- For k = 1 `matrix_inv_vandermonde` returns 0 and `fec_new` ignores that; the matrix left behind is the
  right one, so the theorems include k = 1.
- The SDES parser looks at the buffer size only for the header. Where it would read past the end of the
  buffer, the model stops with a third status, `OutOfBounds`. The four bytes 0x81, 202, 0, 0 do this
  (`HeaderAloneOverruns`). `RefusedOrOverrunExactly` says for which bytes it happens, `CutPacket` for which cuts
  of a printed packet, and `ZerosNeeded` how to prevent it: with 248 zeros and eight more per entry after the
  bytes received it never happens, whatever they are, and with fewer it can; 496 zeros do for all packets.
- The header comment of `rtp_source_update_seq` names a result -2 that the code never returns; the
  model follows the code, in which every refusal is the same error.
- An empty packet makes `fec_group_insert_pkt` count a packet that it does not record, because length 0
  marks a missing packet. The contract of `InsertPkt` says exactly when the counter stays right.

## Model

| member | source | states |
|---|---|---|
| Gf256.AddIsXor | rtp/fec/fec_galois.h:60 | the field sum is the exclusive or of the bytes |
| Gf256.MulComm | rtp/fec/fec_galois.c:96-108 | products commute |
| Gf256.MulAssoc | rtp/fec/fec_galois.c:96-108 | products associate |
| Gf256.MulAdd | rtp/fec/fec_galois.c:96-108 | products distribute over exclusive or, on both sides |
| Gf256.ExpInjective | rtp/fec/fec_galois.c:62-91 | the 255 powers of x are pairwise different |
| Gf256.ExpSurjective | rtp/fec/fec_galois.c:62-91 | every non-zero byte is a power of x |
| Gf256.NoZeroDivisors | rtp/fec/fec_galois.c:96-108 | a product is zero only if a factor is |
| Gf256.InverseUnique | rtp/fec/fec_galois.c:110-114 | a non-zero byte has exactly one inverse |
| PolynomialProduct.ValueTimes | rtp/fec/fec_galois.c:51-54 | the map from polynomials over GF(2) to the field sends products to products |
| PolynomialProduct.ModulusVanishes | rtp/fec/fec_galois.c:51-54 | the primitive polynomial is zero in the field |
| PolynomialProduct.ProductOfBytes | rtp/fec/fec_galois.c:96-108 | the product of two bytes is the value of the product of their polynomials |
| PolynomialProduct.Reduce | rtp/fec/fec_galois.c:51-54 | every polynomial plus some multiple of the primitive polynomial is the byte that is its value |
| PolynomialProduct.ProductIsRemainder | rtp/fec/fec_galois.c:96-108 | the product of two bytes is what is left of the product of their polynomials after a multiple of the primitive polynomial is added |
| PolynomialProduct.SameValueIffCongruent | rtp/fec/fec_galois.c:51-54 | two polynomials have the same value exactly if they differ by a multiple of the primitive polynomial |
| GaloisTables.GfInit | rtp/fec/fec_galois.c:57-115 | after the loops all four tables hold powers, logarithms, products and inverses |
| GaloisTables.FirstPowers | rtp/fec/fec_galois.c:60-76 | the first nine powers and their logarithms, x^8 collected from the polynomial's terms |
| GaloisTables.FurtherPowers | rtp/fec/fec_galois.c:80-91 | shifting, with reduction when the top bit is set, yields the remaining powers up to 254 |
| GaloisTables.FillRow | rtp/fec/fec_galois.c:97-104 | adding logarithms modulo 255 gives the row of true products |
| GaloisTables.FillInverses | rtp/fec/fec_galois.c:110-114 | the inverse table is right for all 256 bytes, with 0 for 0 |
| GaloisTables.PowersAndLogs | rtp/fec/fec_galois.c:57-94 | the power and logarithm tables are inverse bijections between 0..254 and the non-zero bytes |
| GaloisTables.Tables.Times | rtp/fec/fec_galois.h:59 | a look-up in the product table is the field product |
| GaloisTables.Tables.Inverse | rtp/fec/fec_galois.h:61 | a look-up in the inverse table is the field inverse |
| FlatMatrix.GfAddMul | rtp/fec/fec_galois.c:119-123 | adds a multiple of one stretch to another and touches nothing else |
| FlatMatrix.MatrixMul | rtp/fec/fec_matrix.c:55-72 | stores the matrix product of two blocks and touches nothing else |
| LinearAlgebra.RowTimesApply | rtp/fec/fec_matrix.c:55-72 | applying a product is applying its factors in turn |
| LinearAlgebra.InvertsIsInverse | rtp/fec/fec_matrix.c:74-78 | undoing each other on all vectors is the same as having the identity as product on both sides |
| Elimination.ExchangedSwap | rtp/fec/fec_matrix.c:135-143 | swapping two unpivoted rows keeps the exchange relation, with the swap recorded |
| Elimination.ExchangedPivot | rtp/fec/fec_matrix.c:150-177 | one pivot step moves its index to the exchanged side of the relation |
| Elimination.IdentityRowShortcut | rtp/fec/fec_matrix.c:163-165 | reducing against an identity row changes nothing, so skipping it is sound |
| Elimination.NoPivotIsSingular | rtp/fec/fec_matrix.c:108-129 | if no pivot is left, some non-zero vector is sent to zero by the input |
| Elimination.UndoSwap | rtp/fec/fec_matrix.c:180-191 | swapping columns for the last recorded row swap undoes it |
| MatrixInverse.FindPivot | rtp/fec/fec_matrix.c:99-129 | finds a non-zero element outside pivoted rows and columns, or there is none |
| MatrixInverse.SwapRows | rtp/fec/fec_matrix.c:135-143 | exactly the two rows change places |
| MatrixInverse.DividePivotRow | rtp/fec/fec_matrix.c:150-161 | the pivot row is divided and its pivot entry becomes the factor |
| MatrixInverse.ReduceRows | rtp/fec/fec_matrix.c:163-177 | all other rows are reduced, whether or not the shortcut is taken |
| MatrixInverse.Descramble | rtp/fec/fec_matrix.c:180-191 | undoing the swaps in reverse order leaves a two-sided inverse |
| MatrixInverse.MatrixInv | rtp/fec/fec_matrix.c:79-194 | succeeds exactly for invertible matrices, and then leaves the two-sided inverse in the array |
| Polynomials.Division | rtp/fec/fec_matrix.c:226-236 | synthetic division: a polynomial is its quotient by x + p times x + p, plus its value at p |
| Polynomials.TooManyRoots | rtp/fec/fec_matrix.c:196-244 | a polynomial with as many distinct roots as coefficients is zero |
| Polynomials.MasterRoots | rtp/fec/fec_matrix.c:204-221 | the product over all points vanishes at each point |
| Polynomials.NumeratorHere | rtp/fec/fec_matrix.c:229-240 | for distinct points the value that is inverted is never zero |
| Polynomials.VandermondeInverts | rtp/fec/fec_matrix.c:196-244 | for distinct points the Lagrange coefficients invert the Vandermonde matrix on both sides |
| VandermondeInversion.MasterCoefficients | rtp/fec/fec_matrix.c:204-221 | the in-place loop leaves the coefficients of the product over all points |
| VandermondeInversion.SyntheticDivision | rtp/fec/fec_matrix.c:229-236 | b is the quotient by x minus the point and t its value there |
| VandermondeInversion.MatrixInvVandermonde | rtp/fec/fec_matrix.c:197-244 | replaces the matrix by the Lagrange coefficients of its points; for k = 1 reports failure and changes nothing |
| VandermondeInversion.InvertsItsInput | rtp/fec/fec_matrix.c:196-244 | for distinct points that is the two-sided inverse of the input |
| FecCodec.FillVandermonde | rtp/fec/fec.c:78-93 | the table look-ups fill in the powers of 0 and of the first n - 1 powers of x |
| FecCodec.BuildGenerator | rtp/fec/fec.c:78-117 | the matrix built is the generator, for every k from 1 and n up to 256 |
| FecCodec.Fec.constructor | rtp/fec/fec.c:57-125 | a new structure holds its parameters and the generator matrix |
| ErasureCode.TopIsIdentity | rtp/fec/fec.c:111-117 | the first k rows of Vandermonde times inverse are the identity, as filled in |
| ErasureCode.SelectionInvertible | rtp/fec/fec.c:100-117 | any k distinct rows of the generator form an invertible matrix, whose inverse is given |
| ErasureCode.AnyKDetermineSource | rtp/fec/fec.c:127-145 | two sources that agree on any k packets are equal |
| ErasureCode.SystematicCodeword | rtp/fec/fec.c:134-136 | the first k packets of the code are the source packets |
| FecCodec.Fec.Encode | rtp/fec/fec.c:131-145 | writes the packet of the code with the given index and nothing beyond its length |
| Shuffle.FecShuffle | rtp/fec/fec.c:172-191 | terminates, keeps the indices, puts those below k in place, and fails exactly when one of these is repeated |
| Shuffle.ExchangeProgress | rtp/fec/fec.c:179-187 | an exchange keeps the multiset of indices and reduces the number out of place |
| FecCodec.Fec.DecodeMatrix | rtp/fec/fec.c:150-168 | succeeds exactly when no packet is listed twice, with the inverse of the selected rows |
| FecCodec.InvertibleSelection | rtp/fec/fec.c:150-168 | selected rows are invertible exactly when no packet is taken twice |
| FecCodec.ReadsAreFresh | rtp/fec/fec.c:205-216 | while slots are rewritten in the array read from, the slots read still hold what was received |
| FecCodec.RebuildMissing | rtp/fec/fec.c:205-216 | rebuilds exactly the missing source slots and leaves all others alone |
| FecCodec.RebuiltIsRecovered | rtp/fec/fec.c:193-219 | re-encoding the rebuilt slots reproduces every packet received |
| FecCodec.Fec.Decode | rtp/fec/fec.c:194-219 | fails exactly on a repeated index and then leaves the packets alone; otherwise, if the slots held k packets of the code, slots 0..k-1 become its source |
| FecCodec.RecoveredIsSource | rtp/fec/fec.c:193-219 | slots whose encoding agrees with k received packets of the code hold its source |
| FecCodec.EncodeAndDecode | rtp/fec/fec.c:57-219 | any k different packets out of n, encoded from a source, decode to that source; a repeated one is refused |
| FecGroup.FecGroup.constructor | rtp/fec/fec_group.c:47-69 | a new group has received nothing |
| FecGroup.FecGroup.InsertPkt | rtp/fec/fec_group.c:119-139 | the first time only, copies the payload to the front of its block, sets the rest of the block to zero and touches nothing else; the counter stays right exactly if the packet is non-empty or a repeat |
| FecGroup.FecGroup.FirstReceived | rtp/fec/fec_group.c:154-165 | the index list has k distinct packets, all received |
| FecGroup.FecGroup.Decode | rtp/fec/fec_group.c:143-187 | wherever the `assert` on the packets found holds: succeeds exactly if the counter has reached k, so with a true counter exactly when k different packets are there, and keeps every slot true to the code |
| FecGroup.InsertedHolds | rtp/fec/fec_group.c:130-138 | storing a genuine packet, before or after decoding, keeps received slots and recovered source |
| FecGroup.Replay | rtp/fec/fec_group.c:119-187 | over every run of inserts and decoding attempts, the answers are yes exactly from the k-th different packet on, and from then on the first k slots hold the source |
| RtpSource.Source.InitSource | rtp/rtp_source.c:64-74 | the fields become those of a source on probation just before its first number |
| RtpSource.Source.ResetSequence | rtp/rtp_source.c:76-86 | the sequence fields become those of an empty source based at the number |
| RtpSource.Source.UpdateSequence | rtp/rtp_source.c:88-138 | state and answer are those of the transition on which the theorems about runs are stated |
| RtpSource.Source.UpdateLosses | rtp/rtp_source.c:140-158 | the report fields are those of the transition on which the theorems about runs are stated |
| RtpSource.ProbationCountsRun | rtp/rtp_source.c:91-112 | probation is the minimum less the current run of consecutive numbers; the source turns valid, freshly reset with one packet, exactly when the run reaches the minimum |
| RtpSource.ProbationOfOne | rtp/rtp_source.c:94-111 | with a minimum of one the first packet starts the source properly exactly if it is the announced number and not zero |
| RtpSource.ProbationAnswers | rtp/rtp_source.c:91-112 | over every history, the answer on probation is yes exactly for the packet that completes the run |
| RtpSource.FirstAnswerOfOne | rtp/rtp_source.c:91-112 | with a minimum of one, the first answer is yes exactly for the announced number if that is not zero |
| RtpSource.IdKept | rtp/rtp_source.c:69 | the identifier stays that given at the start, over every history |
| RtpSource.RefinesStep | rtp/rtp_source.c:114-137 | one orderly packet is accepted and advances the unbounded counter it stands for |
| RtpSource.TrackingRefinesCounter | rtp/rtp_source.c:114-137 | over every orderly run the 32-bit count equals the true distance from base to highest modulo 2^32 |
| RtpSource.CountsFromProbation | rtp/rtp_source.c:94-137 | from the packet that ends probation on, received packets and true distance are counted exactly |
| RtpSource.ReportBetween | rtp/rtp_source.c:140-158 | a report, any orderly packets, a report: the fraction is the part missing of the true numbers passed in between, and the cumulative loss is counted from base |
| RtpSource.FirstReport | rtp/rtp_source.c:140-158 | the first report after probation covers the packet that ended it and all after it |
| RtpSource.PriorsKnown | rtp/rtp_source.c:151-153 | over every run, the stored counts are those of the last report since the last restart, or zero |
| RtpSource.GoodRun | rtp/rtp_source.c:88-158 | every run of a properly started source keeps its invariant: counts never fall below those of the last report, and something was received whenever more is expected |
| RtpSource.FractionExact | rtp/rtp_source.c:143-157 | in every state reached from a proper start the stored fraction is the exact quotient below 256 |
| RtpSource.FractionNeedsProperStart | rtp/rtp_source.c:143-157 | the fraction is exact over all runs exactly if the source expects nothing yet or has received a packet when it turns valid |
| RtpSource.ProperAfterProbation | rtp/rtp_source.c:94-112 | a source that probation resets starts properly |
| RtpSource.ProperWithMinimumOne | rtp/rtp_source.c:64-112 | with a minimum of one it starts properly exactly if the first packet is the announced number and not zero, or the one before it |
| RtpSource.ProperWithoutProbation | rtp/rtp_source.c:64-74 | without probation it starts properly exactly if the announced number is not zero |
| RtpSource.WrongFractions | rtp/rtp_source.c:64-158 | two starts after which everything expected is lost and the stored fraction is 0 |
| RtpSource.LossesAddUp | rtp/rtp_source.c:146-152 | over every run, with intervals taken without overflow, the losses reported since the last reset add up to the cumulative loss, in 24 bits |
| RtpSource.JumpOrRestart | rtp/rtp_source.c:122-137 | over every run, whatever the counters, a large jump changes only the expected restart unless it follows the previous one directly; then the source restarts with one packet |
| RingBuffer.Rbuf.PutItem | sdr/rtp_sdr_rbuf.c:121-131 | appends, dropping exactly the oldest item if full |
| RingBuffer.Rbuf.TryPutItem | sdr/rtp_sdr_rbuf.c:133-146 | appends unless full, and says which |
| RingBuffer.Rbuf.GetItem | sdr/rtp_sdr_rbuf.c:148-162 | takes out the oldest item, or reports empty |
| RingBuffer.Rbuf.Peek | sdr/rtp_sdr_rbuf.c:174-191 | copies exactly the oldest items asked for and changes nothing; fails on an empty buffer or a count too large |
| RingBuffer.Rbuf.Size | sdr/rtp_sdr_rbuf.c:93-108 | the number of items, also across the end of the buffer |
| RingBuffer.Rbuf.IsFull | sdr/rtp_sdr_rbuf.c:169-172 | full means one slot less than the buffer has |
| RingBuffer.Replay | sdr/rtp_sdr_rbuf.c:86-162 | every sequence of operations does to the buffer what it does to a bounded queue, gets the same items and gives the same answers |
| RingBuffer.AcceptedAsTold | sdr/rtp_sdr_rbuf.c:121-146 | over every run the items accepted are exactly those put and those for which try_put answered yes |
| RingBuffer.OrderKept | sdr/rtp_sdr_rbuf.c:86-162 | over every run items leave in the order accepted, and at most max - 1 are inside |
| RingBuffer.NothingLost | sdr/rtp_sdr_rbuf.c:133-162 | with try_put and get alone, what get returned is everything accepted but what is still inside |
| RingBuffer.KeepsNewest | sdr/rtp_sdr_rbuf.c:117-131 | after puts alone the newest items that fit are inside |
| SpscRing.InvStep | sdr/rtp_sdr_rbuf.c:133-172 | each step of either thread keeps: accepted is got plus unread, and what each thread has checked stays true |
| SpscRing.InvAfter | sdr/rtp_sdr_rbuf.c:133-172 | that holds after every sequence of steps of the two threads |
| SpscRing.GotIsPrefixOfAccepted | sdr/rtp_sdr_rbuf.c:46-162 | in every interleaving the values got are a prefix of those accepted, and the rest are exactly the unread ones |
| SpscRing.NoUnreadOverwritten | sdr/rtp_sdr_rbuf.c:133-162 | in every interleaving a write leaves unread slots alone and never meets a copy at the same slot |
| SpscRing.GivesUpOnlyWhenItMust | sdr/rtp_sdr_rbuf.c:139-172 | a call fails only if the buffer is full, or empty, at the moment of its check |
| SpscCalls.CallsFromStart | sdr/rtp_sdr_rbuf.c:133-162 | in every interleaving, accepted and got are the items of the calls that passed their check and ended, as read off the actions |
| SpscCalls.PutDelivers | sdr/rtp_sdr_rbuf.c:133-146 | from every reachable state with room, a try_put that runs to its end adds its item, whatever the consumer does meanwhile |
| SpscCalls.GetDelivers | sdr/rtp_sdr_rbuf.c:148-162 | from every reachable state with an item unread, a get that runs to its end returns the oldest, whatever the producer does meanwhile |
| SpscCalls.GetsDrain | sdr/rtp_sdr_rbuf.c:148-162 | from every reachable state, as many gets as there are unread items return everything accepted |
| SpscCalls.AllDelivered | sdr/rtp_sdr_rbuf.c:133-162 | after any interleaving, once calls under way have ended and get has been called max - 1 times, the values got are exactly those of all try_put calls that passed their check |
| Bytes.U16RoundTrip | rtp/rtp_util.c:77-84 | reading back a written 16-bit number gives the number |
| Bytes.U32RoundTrip | rtp/rtp_util.c:53-75 | reading back a written 32-bit number gives the number |
| Bytes.U16Order | rtp/rtp_util.c:77-84 | numbers are ordered like their bytes, so the high byte comes first |
| Bytes.U32Order | rtp/rtp_util.c:53-75 | numbers are ordered like their bytes, so the most significant byte comes first |
| Sdes.ComputeEntrySize | rtp/rtcp_sdes.c:65-78 | the size is the number of bytes the entry prints to, a multiple of four |
| Sdes.SerializeEntry | rtp/rtcp_sdes.c:184-207 | prints identifier, items and zeros up to the next multiple of four if there is room, and otherwise writes nothing |
| Sdes.SerializeHeader | rtp/rtcp_header.c:44-57 | prints the four header bytes if there is room |
| Sdes.SdesPacket.Size | rtp/rtcp_sdes.c:248-258 | the size is the number of bytes the packet prints to |
| Sdes.SdesPacket.Serialize | rtp/rtcp_sdes.c:260-282 | prints exactly that many bytes, or nothing if there is no room |
| Sdes.ReadItems | rtp/rtcp_sdes.c:305-322 | the loop reads items up to the terminator, refuses a repeated type, and ends at the next multiple of four |
| Sdes.FindType | rtp/rtcp_sdes.c:88-98 | finds an item type exactly if it is there |
| Sdes.SdesPacket.Parse | rtp/rtcp_sdes.c:284-327 | header errors, the empty packet, and otherwise the outcome of parsing the entries one after the other |
| Sdes.SdesPacket.InitPacket | rtp/rtcp_sdes.c:241-246 | makes the packet one of version 2 and type SDES and changes nothing else |
| Bytes.EncodeOfRead | rtp/rtp_util.c:53-75 | writing back a number that was read gives the same four bytes |
| SdesRoundTrip.HeaderRoundTrip | rtp/rtcp_header.c:44-76 | parsing printed header bytes gives the header |
| SdesRoundTrip.HeaderOrder | rtp/rtcp_header.c:44-57 | headers are ordered by version, padding flag, count, type and length as their bytes are, which fixes where each field lies |
| SdesRoundTrip.PrintedPadded | rtp/rtcp_sdes.c:198-204 | in a printed packet every entry is filled up with zeros after its items |
| SdesRoundTrip.ItemsRoundTrip | rtp/rtcp_sdes.c:305-322 | printed items parse back in order exactly when their types are distinct, and are refused otherwise |
| SdesRoundTrip.EntriesRoundTrip | rtp/rtcp_sdes.c:297-323 | entries whose print agrees with the buffer up to padding parse back in order exactly when no entry repeats a type |
| SdesRoundTrip.ParsedExactly | rtp/rtcp_sdes.c:297-323 | for arbitrary bytes, parsing returns entries exactly if they are legal, as many as asked for, and their print agrees with the buffer up to padding; it ends where that print would |
| SdesRoundTrip.PrintAndParse | rtp/rtcp_sdes.c:241-327 | printing and parsing gives the same packet and consumes exactly the bytes printed, exactly when no item has type 0 and no entry repeats a type; a packet without items of type 0 is otherwise refused |
| SdesRoundTrip.EntriesCut | rtp/rtcp_sdes.c:297-323 | legal entries in a shortened buffer are read past its end exactly if the zero after the last item is gone, and otherwise parse as before |
| SdesRoundTrip.CutPacket | rtp/rtcp_sdes.c:284-327 | a printed packet cut short after its header is read past its end exactly if that zero is gone |
| SdesRoundTrip.HeaderAloneOverruns | rtp/rtcp_sdes.c:284-327 | a header alone that promises one entry is accepted and read past its end |
| SdesOutcome.RefusedOrOverrunExactly | rtp/rtcp_sdes.c:297-323 | for arbitrary bytes: refused exactly if a type recurs after legal items of an entry that follows matching legal ones; read past the end exactly if at such a place there is neither a zero, nor a repeated type, nor a complete item or identifier |
| SdesOutcome.EntryOutcome | rtp/rtcp_sdes.c:297-322 | the same for one entry |
| SdesOutcome.MoreBytes | rtp/rtcp_sdes.c:297-323 | unless the end is passed, bytes after the buffer make no difference |
| SdesOutcome.ZerosNeeded | rtp/rtcp_sdes.c:284-327 | k zeros after the buffer keep the parser of n entries from passing the end, whatever the buffer holds, exactly if k is at least 248 + 8 n |
| SdesOutcome.ZerosForAll | rtp/rtcp_sdes.c:284-327 | for all packets together 496 zeros are needed and enough |

## Left out

- SpscRing: each shared read or write is one atomic step seen by both threads in one order; what a weaker memory order would allow for plain `size_t` fields is not modelled.
- RtpSource.FractionExact: the exact value is claimed while the lost interval is below 2^23, because shifting a larger one overflows `int`, and while the expected and received counts since the last restart fit an `int`.
- RtpSource.TrackingRefinesCounter: says nothing for packets further than 99 behind or 2999 ahead; those are the subject of JumpOrRestart.
- FecGroup.FecGroup.Decode: requires k of at least 1 when it has something to decode; with k = 0 the source writes past its empty index list once a packet has arrived.
- The field tables are passed on as one value once filled, so the flag by which `fec_new` fills them only once is not modelled.
- SDES entries are values that grow by replacement; sharing between packets and the buffers allocated for them are not modelled.
- Jitter, NTP times and report intervals: floating point and clocks.
- Sockets, multicast, pacing, printing, threads and the command line: input and output only.
- Memory allocation and release; growth is replacement of a sequence or array.
- The RTP header and the SR, RR, BYE and APP packets, and packing of FEC packets: fixed layouts that would only add easy round trips.
- Removing items, entries and reports (`free_item`, `rtcp_sdes_remove_entry` and the like): their size arithmetic does not match their evident intent.
- `rtcp_sdes_add_entry` and `rtcp_sdes_set_item`: upkeep of the header's length field, which only some of the functions update.
- `rtp_sdr_rbuf_put` next to a concurrent reader: the source itself rules that use out.
