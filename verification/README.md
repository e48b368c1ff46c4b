# OpenDDS 3.5.1: verified models

Dafny models of five parts of OpenDDS, with the properties they promise. `dafny verify dfyconfig.toml` checks
everything. The parts are:

* **Sequence number sets.** `SequenceNumber` (a signed high and an unsigned low half) and `DisjointSequence`, a set of
  sequence numbers kept as an ordered list of disjoint ranges. Range insertion, the cursor-resuming bitmap insertion and
  the export to an MSB-first bitmap of 32-bit words are methods on the range list, proved against the set of integers
  they stand for. (`SequenceNumber.dfy`, `RangeList.dfy`, `BitmapScan.dfy`, `BitmapExport.dfy`, `BitmapRuns.dfy`,
  `DisjointSequence.dfy`, `BitmapLaws.dfy`)
* **The sequence and acknowledgement protocol** of one `DataWriterImpl` and any number of readers: content filtering
  with the sequence repair bit, expected sequences, customised REQUEST_ACK messages, acknowledgements and waiting for
  them. A state machine whose steps interleave freely, and the writer's and reader's methods proved to take those steps.
  (`AckProtocol.dfy`, `AckNumbers.dfy`, `AckFailures.dfy`, `AckRequests.dfy`, `DataWriter.dfy`)
* **The sample header**: encoding and decoding with optional fields in either byte order, detection of a header that is
  not complete yet in a chain of message blocks, fragmentation and reassembly. (`HeaderCodec.dfy`, `HeaderReader.dfy`,
  `HeaderLayout.dfy`, `Fragmentation.dfy`, `Reassembly.dfy`)
* **Exclusive ownership**: the election per instance in `OwnershipManager`, with the `InstanceState`s and readers that
  share it, over every run. (`OwnershipSpec.dfy`, `OwnershipRuns.dfy`, `OwnershipLaws.dfy`,
  `OwnershipManager.dfy`)
* **Two transformations**: the filter expression tree that is built from a flat list of syntax nodes
  (`FilterEvaluator.dfy`, `FilterMeaning.dfy`), and the names and overflow buckets of `FileSystemStorage` (`Digits.dfy`, `Base32Hex.dfy`,
  `Base32Order.dfy`, `NameSupply.dfy`, `OverflowBuckets.dfy`, `Directory.dfy`).

Where the code does not do for every input what it is for, the model follows the code, shows it failing, and states for
all inputs exactly when it does hold:

| what fails | shown by | holds exactly when |
|---|---|---|
| inserting a bitmap adds numbers whose bits are 0 | `BitmapLaws.ZeroLongSpills` | no all-zero Long follows a Long whose last bit is 1, unless the set already holds what is skipped (`InsertBitmap`, `ExactOnEverySetIffClean`) |
| inserting a bitmap reads past the end of its array | `BitmapLaws.OverreadExists` | no run that is closed by a 0 bit joins a stored range that ends beyond the last Long (`Overreads` is false: `InsertBitmap`) |
| inserting a bitmap leaves [0, 0] and [1, x] as two ranges | `BitmapLaws.ZeroRangeAbuts` | [0, 0] is not stored or the bitmap does not mark the number 1 (`Abuts` is false: `InsertBitmap`) |
| exporting keeps old bits of the array | `BitmapLaws.StaleBitExists` | the array is zero at the bits `Stale` names (`ExportExactIffNothingStale`) |
| export into a zeroed array, then insertion, does not rebuild the set | `BitmapLaws.RoundTripLosesGap` | no gap of whole Longs follows a stretch that ends with its Long (`RoundTripIffNoGapSwallowed`) |
| inserting a range that ends at the largest number drops it | `DisjointSequences.JamExists`, `InsertJams` | no stored range that starts higher ends there too (`Jams` is false: `InsertRange`) |
| waiting for acknowledgements is over before the reader got its messages | `AckFailures.StaleAckStandsIn`, `LateAckStandsIn` | no ack of a former association stands (left by a removal before the association was complete, or arriving after a removal, and not cleared since), or the reader has received something since it came back, or that ack is at most 1 (`WaitIsReliableIff`); always for a token issued in the present association (`WaitInTimeMeansReceived`) |
| a sample of a writer stronger than the owner is filtered out | `OwnershipRuns.StrongerIsFilteredOut` | the reader has no owner for the instance or has not evaluated the writer there (`StrongerIsHeardIff`) |
| a fragment that announces another one loses that flag when cut | `Reassembly.AnnouncementLost` | the fragment that was cut was the last one (`FlagsRestoredIffLast`) |
| a filter of the grammar gives a malformed tree | `FilterEvaluators.AndNotIsMalformed` | every NOT heads its list (`WellFormedIffNotsFirst`) |
| a filter does not mean what its derivation nests | `FilterMeanings.NotCoversLess`, `MixedOperatorsDiffer` | NOT covers one term and every condition after AND or OR has no other operator in its list (`NestsLeft`: `FilterAgreesIff`, for conditions whose predicates are separate tests) |
| a failed creation of a long directory name spoils the bucket counts | `Directories.SerialsRunOut` | the name is short or the serial numbers of its beginning in the next bucket are not used up (`MakeNewSubdir`) |

## Model

| member | source | states |
|---|---|---|
| SequenceNumbers.OrderIsomorphism | dds/DCPS/Definitions.h:134-140 | comparing the halves is comparing the 64-bit values, and equal values have equal halves |
| SequenceNumbers.PreviousIsPredecessor | dds/DCPS/Definitions.h:98-112 | previous is the predecessor on 1..MAX, wraps at 1, and incrementing undoes it |
| SequenceNumbers.SequenceNumber.SetValue | dds/DCPS/Definitions.h:114-120 | the value is stored, clamped from below at 1 |
| SequenceNumbers.SequenceNumber.Increment | dds/DCPS/Definitions.h:74-89 | the value goes up by one with carry and wraps from MAX to 1; previous undoes it |
| RangeLists.CanonicalFormIsUnique | dds/DCPS/DisjointSequence.h:59-65 | ascending, non-adjacent ranges are determined by the set they cover, so two insertions that give the same set give the same list |
| DisjointSequences.DisjointSequence.Reset | dds/DCPS/DisjointSequence.inl:58-62 | the set is empty |
| DisjointSequences.DisjointSequence.Contains | dds/DCPS/DisjointSequence.cpp:326-332 | the binary search answers membership, both ways |
| DisjointSequences.DisjointSequence.CumulativeAck | dds/DCPS/DisjointSequence.inl:24-30 | the end of the first unbroken run, or unknown for the empty set |
| DisjointSequences.DisjointSequence.MissingRanges | dds/DCPS/DisjointSequence.cpp:295-316 | the missing ranges are canonical and cover exactly what is absent between lowest and highest |
| DisjointSequences.GapsTile | dds/DCPS/DisjointSequence.cpp:295-316 | the gaps between canonical ranges are canonical and tile the span together with the ranges |
| DisjointSequences.DisjointSequence.InsertRange | dds/DCPS/DisjointSequence.cpp:26-85 | the set becomes the union if and only if the range does not jam at the largest number; canonical form is kept in every case; false exactly when nothing is new or the range is invalid |
| DisjointSequences.InsertUnion | dds/DCPS/DisjointSequence.cpp:26-85 | erasing the touched ranges and inserting their hull is set union and keeps canonical form |
| DisjointSequences.JamExists | dds/DCPS/DisjointSequence.cpp:37-45 | a set and a range that jam |
| DisjointSequences.InsertJams | dds/DCPS/DisjointSequence.cpp:26-85 | a range ending at MAX that meets a stored one ending there is dropped, since keys compare by their ends |
| DisjointSequences.DisjointSequence.InsertBitmapRange | dds/DCPS/DisjointSequence.cpp:149-196 | from any cursor that earlier ranges cannot reach, the union and the same answer as plain insertion, and a cursor that fits every later, higher run; canonical form is kept if and only if the run does not start at 1 above a stored [0, 0] |
| DisjointSequences.RunKeepsCanonicalIff | dds/DCPS/DisjointSequence.cpp:157-161 | since the key of the search is never below 1, a list that holds [0, 0] stays canonical exactly when the run starts above 1 |
| DisjointSequences.DisjointSequence.MergeRun | dds/DCPS/DisjointSequence.cpp:178-195 | the ranges that the run meets are replaced by their hull, which is set union, and the cursor is at that hull |
| DisjointSequences.DisjointSequence.SkipAhead | dds/DCPS/DisjointSequence.cpp:126-137 | bit index, bit number and word jump together to the same place; outside exactly when that place is past the array |
| DisjointSequences.DisjointSequence.InsertBitmap | dds/DCPS/DisjointSequence.cpp:87-147 | the union with the marked numbers if and only if no zero Long spills; canonical form if and only if the run does not abut a stored [0, 0]; a read past the array if and only if a closed run joins a range that ends beyond it; true exactly when the set grew |
| BitmapScans.OverreadNeedsStored | dds/DCPS/DisjointSequence.cpp:126-137 | only a stored range that ends beyond the last Long makes the scan read there |
| BitmapScans.ScanTakesOne | dds/DCPS/DisjointSequence.cpp:87-147 | for every bitmap and set the number 1 is inserted exactly when the bitmap starts there with a set bit |
| BitmapScans.ScanExactIffNoSpill | dds/DCPS/DisjointSequence.cpp:87-147 | the scan with its word skipping and skipping ahead adds exactly the marked numbers if and only if nothing spills, from every state of the loop |
| BitmapScans.SpillFreeIffClean | dds/DCPS/DisjointSequence.cpp:103-110 | against a set with nothing stored from the first bit on, spilling is exactly an all-zero Long after a set last bit |
| BitmapLaws.ExactOnEverySetIffClean | dds/DCPS/DisjointSequence.cpp:87-147 | a bitmap is inserted exactly into every set if and only if no all-zero Long follows a set last bit |
| BitmapLaws.ZeroLongSpills | dds/DCPS/DisjointSequence.cpp:103-110 | one marked number followed by a zero Long adds all of 32 to 64 |
| BitmapLaws.OverreadExists | dds/DCPS/DisjointSequence.cpp:126-137 | one Long against the stored numbers 1 and 3 to 100 reads past the array |
| BitmapLaws.ZeroRangeAbuts | dds/DCPS/DisjointSequence.cpp:157-161 | the insertions of [0, 0] and of a bitmap that marks 1 leave [0, 0], [1, 1] |
| BitmapExports.FillBitmapRange | dds/DCPS/DisjointSequence.cpp:232-293 | for any range and any number of bits written before: the range is set, nothing outside it that was clear, every bit of the array afterwards, the clamping, the new length, and false exactly when something was cut off |
| BitmapExports.FilledAbove | dds/DCPS/DisjointSequence.cpp:258-274 | for a range above the bits written before: those stay, the gap is cleared but for the rest of the Long they end in, and what is left after the range |
| BitmapExports.FilledOver | dds/DCPS/DisjointSequence.cpp:258-290 | for a range that starts below the bits written before: it is set, and which of the others are lost |
| BitmapExports.StretchMeaning | dds/DCPS/DisjointSequence.cpp:198-230 | the stretches that are written are the present numbers above the cumulative ack or, inverted, the missing ones |
| DisjointSequences.DisjointSequence.ToBitmap | dds/DCPS/DisjointSequence.cpp:198-230 | every exported bit in terms of the set and the old array, false exactly when a stretch was cut off, and nothing that belongs in the bitmap lies past its length |
| BitmapLaws.ExportExactIffNothingStale | dds/DCPS/DisjointSequence.cpp:258-274 | the export is bit for bit the set if and only if the array was zero at the stale bits |
| BitmapLaws.StaleBitExists | dds/DCPS/DisjointSequence.cpp:258-274 | a set of four numbers whose export into an array of ones has a 1 for a missing number |
| BitmapLaws.RoundTripIffNoGapSwallowed | dds/DCPS/DisjointSequence.cpp:87-230 | export into a zeroed array and insertion into the first range give the set back if and only if no gap is swallowed, a condition on the ranges alone |
| BitmapLaws.RoundTrip | dds/DCPS/DisjointSequence.cpp:87-230 | the same with the two methods run one after the other, for every set of two or more ranges: the identical range list |
| BitmapLaws.RoundTripLosesGap | dds/DCPS/DisjointSequence.cpp:87-230 | the numbers 1, 33 and 98 exported into a zeroed array and inserted again give another set |
| AckProtocol.NextKeepsInv | dds/DCPS/DataWriterImpl.cpp:1760-1782 | every step of writer, link or reader, and of what is still under way from removed associations, keeps the invariant of all links |
| AckProtocol.RunsKeepInv | dds/DCPS/DataWriterImpl.cpp:1760-1782 | the invariant holds in every state of every run |
| AckNumbers.SequenceCountsWrites | dds/DCPS/DataWriterImpl.cpp:1694-1789 | in every run the sequence is the number of writes so far, and unknown before the first |
| AckNumbers.ExpectedIsLastSent | dds/DCPS/DataWriterImpl.cpp:1760-1782 | in every run the expected sequence of a reader is the number of the last write not filtered out for it since it was associated, and unknown exactly when there is none |
| AckNumbers.RepairIffMissed | dds/DCPS/DataWriterImpl.cpp:2559-2569 | in every run the repair bit is set if and only if there was a write before and some associated reader was not sent the last one |
| AckProtocol.FilteringLeavesNoGap | dds/DCPS/DataWriterImpl.cpp:1991-1997 | in every run, whatever was filtered for whom, a reader that gets message n holds exactly 1..n afterwards |
| AckProtocol.TokenIsExact | dds/DCPS/DataWriterImpl.cpp:885-920 | a token asks every known reader for exactly what the writer expects of it, and any other reader for the last number |
| AckProtocol.RecordedIffAnswered | dds/DCPS/DataWriterImpl.cpp:2062-2099 | in every run the recorded ack of a reader is at least e exactly when e is at most 1 or the reader answered with at least e, on its link or from a removed association, and the record was not cleared since |
| AckProtocol.WaitIsOkIff | dds/DCPS/DataWriterImpl.cpp:1087-1155 | waiting is over exactly when every associated reader answered what its token expects, or that is at most 1 |
| AckProtocol.StaleIffLeftBehind | dds/DCPS/DataWriterImpl.cpp:546-589 | in every run, a reader's record holds an ack of a former association exactly when a removal before a complete association left it or such an ack arrived late, and no later removal of a complete association cleared it |
| AckProtocol.WaitMeansReceived | dds/DCPS/DataWriterImpl.cpp:1087-1155 | in every run, unless such a record stands and the reader received nothing since, a wait that is over means that the reader holds everything up to its expected sequence and is only owed later numbers |
| AckProtocol.WaitIsReliableIff | dds/DCPS/DataWriterImpl.cpp:1087-1155 | in every run, for every reader: a wait that is over means receipt, whatever sequence was expected, if and only if the reader's record is not of that kind or is at most 1 |
| AckProtocol.WaitInTimeMeansReceived | dds/DCPS/DataWriterImpl.cpp:1157-1180 | in every run, a token issued while the reader is associated and a wait for it that is over before the reader is removed: the reader has received what was expected, whatever former associations left |
| AckFailures.StaleAckStandsIn | dds/DCPS/DataWriterImpl.cpp:546-589 | a run of thirteen events: a reader that answered a request is removed before its association was complete and comes back, and a wait for sequence 2 is over although nothing was sent to it since |
| AckFailures.LateAckStandsIn | dds/DCPS/DataWriterImpl.cpp:2084-2087 | a run of fourteen events: the answer of a reader with a complete association arrives after its removal and makes the same wait be over when it comes back |
| AckRequests.TargetIntersection | dds/DCPS/transport/framework/DataLink.cpp:1164-1184 | the customised readers that are subscribed on the link, without repeats |
| AckRequests.GroupTargets | dds/DCPS/DataWriterImpl.cpp:996-1011 | the groups keyed by sequence number partition the targets of the link by what is expected of them |
| AckRequests.FilterOthers | dds/DCPS/DataWriterImpl.cpp:1035-1053 | a group's message is filtered for exactly the targets of the other groups |
| AckRequests.SendOnLink | dds/DCPS/DataWriterImpl.cpp:956-1085 | every target of a link gets exactly one REQUEST_ACK, with the sequence expected of it |
| AckRequests.SendControlCustomized | dds/DCPS/DataWriterImpl.cpp:956-1085 | the same on every link |
| DataWriters.DataWriter.NeedSequenceRepair | dds/DCPS/DataWriterImpl.cpp:2559-2569 | true exactly when some reader's expected sequence is not the writer's |
| DataWriters.DataWriter.Write | dds/DCPS/DataWriterImpl.cpp:1694-1789 | the new sequence, every expected sequence except the filtered readers', and the repair bit decided before the change |
| DataWriters.DataWriter.CreateControlMessage | dds/DCPS/DataWriterImpl.cpp:1884-1958 | a sequenced control message takes the write step with nobody excluded; another changes nothing |
| DataWriters.DataWriter.SendAckRequests | dds/DCPS/DataWriterImpl.cpp:907-954 | the token of the writer's state, and one REQUEST_ACK per target carrying its expected sequence |
| DataWriters.DataWriter.CheckAcks | dds/DCPS/DataWriterImpl.cpp:1087-1155 | the test of the wait loop; looking up a reader adds at most a default entry |
| DataWriters.DataWriter.DeliverAck | dds/DCPS/DataWriterImpl.cpp:2062-2099 | the recorded ack of the reader only rises |
| DataWriters.DataWriter.RemoveAssociation | dds/DCPS/DataWriterImpl.cpp:546-589 | the reader's expected sequence goes, its ack only if the association was complete |
| DataWriters.WriterInfo.WriterActivity | dds/DCPS/DataReaderImpl.cpp:1300-1322 | the first message and every repair reset the baseline to 1..n, any other message adds its number |
| HeaderCodec.HeaderRoundTrip | dds/DCPS/DataSampleHeader.cpp:168-342 | decoding an encoded header followed by anything gives every field back, in either byte order and with any optional fields, and consumes exactly its length |
| HeaderCodec.EncodingIsHeld | dds/DCPS/DataSampleHeader.cpp:268-342 | where each field is in the encoding, and its total length |
| HeaderCodec.LengthIsStable | dds/DCPS/DataSampleHeader.cpp:168-266 | bytes after a complete header never change what it is |
| HeaderLayouts.ByteOrder | dds/DCPS/DataSampleHeader.cpp:268-342 | the written words: digits in base 256, highest first when the byte order flag is clear and lowest first when it is set |
| HeaderLayouts.ByteOrderRead | dds/DCPS/DataSampleHeader.cpp:168-266 | the same for the words that are read |
| HeaderLayouts.TwosComplement | dds/DCPS/DataSampleHeader.cpp:268-342 | a signed field and the word written for it differ by a multiple of 2^32, in both directions |
| HeaderLayouts.FlagsAreWeighted | dds/DCPS/DataSampleHeader.cpp:268-300 | flag n of the first flags byte has the weight 2^n |
| HeaderLayouts.Flags2AreWeighted | dds/DCPS/DataSampleHeader.cpp:268-300 | the same for the second flags byte |
| HeaderLayouts.EntryBytes | dds/DCPS/DataSampleHeader.cpp:316-342 | byte j of entry i is byte 16 i + j of the entries |
| HeaderLayouts.FullExample | dds/DCPS/DataSampleHeader.cpp:268-342 | the bytes of a little-endian header with every optional field |
| HeaderLayouts.PlainExample | dds/DCPS/DataSampleHeader.cpp:268-342 | the bytes of a big-endian header without optional fields |
| HeaderLayouts.FieldsRead | dds/DCPS/DataSampleHeader.cpp:168-266 | after reading an encoded header each field is the encoded one, and an absent optional field is as it was |
| HeaderReader.DataSampleHeader.Init | dds/DCPS/DataSampleHeader.cpp:168-266 | the sequential reader ends with exactly the decoded fields and length, and with absent optional fields as they were |
| HeaderReader.PeekByte | dds/DCPS/DataSampleHeader.cpp:53-67 | the byte at the offset of the whole chain, if there is one |
| HeaderReader.PeekWord | dds/DCPS/DataSampleHeader.cpp:36-67 | the four byte number at the offset, through any number of blocks, if all of it is there |
| HeaderReader.Partial | dds/DCPS/DataSampleHeader.cpp:116-166 | true exactly when the chain does not hold a whole header with valid ids, for any cut into blocks |
| HeaderReader.PartialIffShort | dds/DCPS/DataSampleHeader.cpp:116-166 | for every prefix of an encoded header with valid ids and what follows it: partial if and only if shorter than the header |
| HeaderReader.InvalidIdsStayPartial | dds/DCPS/DataSampleHeader.cpp:129-144 | a complete header is partial exactly when an id is out of range |
| HeaderLayouts.CodesAreIds | dds/DCPS/DataSampleHeader.h:28-49 | the ids that are accepted are exactly the codes of the enumerators |
| HeaderLayouts.EveryIdIsDetected | dds/DCPS/DataSampleHeader.cpp:116-166 | with any of them, a prefix is partial if and only if it is shorter than the header |
| Fragmentation.SplitPayload | dds/DCPS/DataSampleHeader.cpp:344-368 | the chain cut after exactly size bytes, at or inside a block |
| Fragmentation.TakeEntries | dds/DCPS/DataSampleHeader.cpp:401-406 | the last n entries in reverse, and the others in order |
| Fragmentation.MovedAreAvailable | dds/DCPS/DataSampleHeader.cpp:391-407 | fewer entries are moved than there are, no further one would fit, and one is moved exactly when there is room for one |
| Fragmentation.Split | dds/DCPS/DataSampleHeader.cpp:370-438 | both branches at every size after the number of entries: head and tail with their headers, entries and payloads |
| Fragmentation.SizeIsEncoded | dds/DCPS/DataSampleHeader.cpp:370-438 | the sizes that split compares are the encoded lengths |
| Fragmentation.SplitMakesProgress | dds/DCPS/DataSampleHeader.cpp:370-438 | the head fits and no payload is lost; the tail decreases in entries, then payload, if and only if the head has room for an entry, or takes entries or payload with it |
| Fragmentation.JoinHeaders | dds/DCPS/DataSampleHeader.cpp:440-459 | fails for a last fragment or another sequence, otherwise adds lengths and appends the first's entries backwards |
| Fragmentation.JoinUndoesSplit | dds/DCPS/DataSampleHeader.cpp:370-459 | one join undoes one split: exact after a cut inside the entries, entries reversed after a cut inside the payload |
| Reassembly.PiecesCarryEverything | dds/DCPS/DataSampleHeader.cpp:370-438 | over any number of cuts the pieces carry the whole payload in order, all entries and the filter flag |
| Reassembly.PieceFits | dds/DCPS/DataSampleHeader.cpp:370-438 | every piece that was cut off fits the size it was cut at |
| Reassembly.ReassemblyRestores | dds/DCPS/DataSampleHeader.cpp:344-459 | any number of cuts and any grouping of adjacent joins give back the length, every flag but moreFragments, the multiset of entries and the payload |
| Reassembly.JoinsIffJoinable | dds/DCPS/DataSampleHeader.cpp:440-459 | any grouping of any fragments joins to one if and only if all are of one sequence and each but the last announces another; the other fields are those of the last |
| Reassembly.FlagsRestoredIffLast | dds/DCPS/DataSampleHeader.cpp:370-459 | all flags come back if and only if the fragment that was cut announced no other; after reassembly nothing can be joined to it |
| Reassembly.AnnouncementLost | dds/DCPS/DataSampleHeader.cpp:408-437 | a fragment that announces another one, whose halves join to one that does not |
| Reassembly.RightNestedOrder | dds/DCPS/DataSampleHeader.cpp:440-459 | joining each piece with all that follow keeps the order of the entries except those left when the payload was first cut, which are reversed |
| Reassembly.FragmentAll | dds/DCPS/transport/framework/TransportSendStrategy.cpp:1183-1205 | cutting the tail until it fits ends whatever space each packet has, as long as that holds one entry or, without entries, one byte of payload; it gives the pieces of those cuts, and every piece fits its own packet |
| OwnershipSpec.SelectKeepsElection | dds/DCPS/OwnershipManager.cpp:312-416 | after selection the owner is at least as strong as every candidate, candidates are sorted and distinct, exactly the expected writers contend, and who owns: a strictly stronger challenger wins, an equal one does not |
| OwnershipSpec.RemoveOwnerKeepsElection | dds/DCPS/OwnershipManager.cpp:262-285 | without sorting, the next owner is still a strongest candidate, and unknown only if there is none |
| OwnershipSpec.RemoveCandidateKeepsElection | dds/DCPS/OwnershipManager.cpp:288-310 | removing a candidate keeps the election and everybody else |
| OwnershipManagers.SortDescending | dds/DCPS/OwnershipManager.cpp:262-285 | any sorting permutation by descending strength |
| OwnershipManagers.OwnershipManager.BroadcastNewOwner | dds/DCPS/OwnershipManager.cpp:419-441 | every registered state of the instance gets the new owner and no other state changes |
| OwnershipManagers.OwnershipManager.RemoveOwner | dds/DCPS/OwnershipManager.cpp:262-285 | the head of the candidates takes over and all its states are told |
| OwnershipManagers.OwnershipManager.RemoveCandidate | dds/DCPS/OwnershipManager.cpp:288-310 | only that candidate leaves the list |
| OwnershipManagers.OwnershipManager.RemoveWriterOf | dds/DCPS/OwnershipManager.cpp:223-259 | the step of an unregistered writer on one instance, keeping the safety invariant; true exactly for the owner |
| OwnershipManagers.OwnershipManager.LoseWriter | dds/DCPS/DataReaderImpl.cpp:2165-2182 | the step of a lost writer on all instances, keeping the safety invariant |
| OwnershipManagers.OwnershipManager.IsOwner | dds/DCPS/OwnershipManager.cpp:202-220 | true exactly when the manager's owner of the instance is that writer |
| OwnershipManagers.OwnershipManager.RankChallenger | dds/DCPS/OwnershipManager.cpp:353-390 | the challenger's entry is added or updated, and the list is sorted except when nothing changed |
| OwnershipManagers.OwnershipManager.SelectOwner | dds/DCPS/OwnershipManager.cpp:312-416 | the selection step, keeping the safety invariant |
| OwnershipManagers.OwnershipManager.FilterInstance | dds/DCPS/DataReaderImpl.cpp:2770-2836 | the sample step of the ownership test, keeping the safety invariant |
| OwnershipManagers.OwnershipManager.RemoveWriters | dds/DCPS/OwnershipManager.cpp:170-199 | the release step: the entry goes, its states and evaluation flags are reset, keeping the safety invariant |
| OwnershipManagers.OwnershipManager.DestroyInstance | dds/DCPS/InstanceState.cpp:43-52 | a registered state leaves its entry, keeping the safety invariant |
| OwnershipManagers.OwnershipManager.UpdateOwnershipStrength | dds/DCPS/DataReaderImpl.cpp:3001-3029 | the writer's strength changes and its evaluations are forgotten, keeping the safety invariant |
| OwnershipRuns.NextIsSafe | dds/DCPS/OwnershipManager.cpp:140-441 | every step of every reader and writer keeps: each state's owner is unknown or the manager's, and every entry's election |
| OwnershipRuns.RunsAreSafe | dds/DCPS/OwnershipManager.cpp:140-441 | the same in every state of every run |
| OwnershipRuns.OwnersAgree | dds/DCPS/InstanceState.cpp:259-298 | in every reachable state an InstanceState's owner is unknown or the manager's owner, and no contender is stronger than the owner |
| OwnershipRuns.AcceptedComeFromTheOwner | dds/DCPS/DataReaderImpl.cpp:2770-2836 | an accepted sample comes from the manager's owner at that moment |
| OwnershipRuns.OneWriterBetweenOwnerChanges | dds/DCPS/DataReaderImpl.cpp:2770-2836 | between two accepted samples of different writers for one instance, at whatever readers, the owner changed |
| OwnershipRuns.StrongerIsHeardIff | dds/DCPS/DataReaderImpl.cpp:2770-2836 | in every safe state the sample of a writer stronger than the owner is accepted if and only if the reader has no owner for the instance or has not evaluated that writer there |
| OwnershipRuns.StrongerIsFilteredOut | dds/DCPS/InstanceState.cpp:132-154 | a run of seven events in which the stronger of two writers unregisters, writes again and is filtered out |
| OwnershipRuns.ReturningWriterIsShutOut | dds/DCPS/InstanceState.cpp:132-154 | an owner that unregisters while others contend is shut out when it writes again, since its evaluation flag is kept |
| OwnershipRuns.ShutOutStays | dds/DCPS/DataReaderImpl.cpp:2770-2836 | every step keeps a writer shut out unless its evaluation is forgotten, the instance given up, or the ownership passed to it or to nobody |
| OwnershipRuns.RejectedUntilReheard | dds/DCPS/DataReaderImpl.cpp:2770-2836 | in every run each later sample of a writer that is shut out is rejected until such a step |
| OwnershipLaws.AcceptedIff | dds/DCPS/DataReaderImpl.cpp:2770-2836 | in every safe state which samples pass: by the owner the reader holds, or by the outcome of the election |
| OwnershipLaws.SampleIsRecorded | dds/DCPS/OwnershipManager.cpp:312-416 | after an election the writer contends with the strength it has at the reader, the state is registered and the flag set |
| OwnershipLaws.HeardAgain | dds/DCPS/DataReaderImpl.cpp:3001-3029 | in every run, after a change of strength, a loss of the writer or a release of the instance, the first sample of a writer stronger than the owner is accepted |
| OwnershipLaws.RaisedIsHeard | dds/DCPS/DataReaderImpl.cpp:3001-3029 | a writer that was raised above the owner is accepted with its next sample |
| OwnershipLaws.ChangeReachesAll | dds/DCPS/OwnershipManager.cpp:419-441 | whenever a step changes the owner of an instance, every registered state of it holds the new owner |
| OwnershipLaws.ToldIff | dds/DCPS/OwnershipManager.cpp:312-416 | a state without owner learns the owner in an election if and only if the owner was beaten or became weaker |
| OwnershipLaws.UnchangedOrder | dds/DCPS/OwnershipManager.cpp:353-390 | a candidate whose strength did not change leaves the order as it is |
| OwnershipLaws.RemovedIsGone | dds/DCPS/OwnershipManager.cpp:170-310 | an unregistered, lost or released writer is neither owner nor candidate afterwards, and a lost one is known to the reader only if it was not removed |
| FilterEvaluators.WalkAst | dds/DCPS/FilterEvaluator.cpp:385-415 | the recursive builder equals its definition on lists, including null children |
| FilterEvaluators.BuildFilter | dds/DCPS/FilterEvaluator.cpp:48-59 | the loop over siblings gives the tree of the whole list |
| FilterEvaluators.ShapeBuilds | dds/DCPS/FilterEvaluator.cpp:350-415 | every list [NOT] term ((AND or OR) term)*, nested to any depth, gives a well-formed tree whose short-circuit value is the left-to-right fold with NOT on the first term |
| FilterEvaluators.StoredInGrammar | dds/DCPS/FilterExpressionGrammar.h:100-104 | what every derivation of the grammar stores, as a regular form |
| FilterEvaluators.WellFormedIffNotsFirst | dds/DCPS/FilterExpressionGrammar.h:100-104 | for every condition of the grammar the tree is well formed if and only if every NOT heads its list |
| FilterEvaluators.FilterMeansItsList | dds/DCPS/FilterEvaluator.cpp:350-421 | for every such condition evaluation is defined and equals the list's meaning |
| FilterEvaluators.AndNotIsMalformed | dds/DCPS/FilterExpressionGrammar.h:100-104 | the condition a AND NOT b uses a child that is not there exactly when a holds |
| FilterMeanings.HeadedMeans | dds/DCPS/FilterEvaluator.cpp:385-415 | the meaning of the stored list is the derivation read term after term |
| FilterMeanings.NestedFilterAgrees | dds/DCPS/FilterExpressionGrammar.h:100-104 | a condition that nests to the left has a well-formed tree that evaluates to the value of its derivation |
| FilterMeanings.FilterAgreesIff | dds/DCPS/FilterExpressionGrammar.h:100-104 | for every condition of separate predicates: the tree is well formed and evaluates to the value of the derivation for all outcomes if and only if the condition nests to the left |
| FilterMeanings.Differs | dds/DCPS/FilterExpressionGrammar.h:100-104 | outcomes for which list and derivation differ, for every other condition whose NOTs head their lists |
| FilterMeanings.NotCoversLess | dds/DCPS/FilterEvaluator.cpp:385-415 | "NOT a OR b" evaluates to another value than its derivation exactly when b holds |
| FilterMeanings.MixedOperatorsDiffer | dds/DCPS/FilterEvaluator.cpp:385-415 | "a AND b OR c", with b OR c derived as one condition, evaluates to another value exactly when c holds and a does not |
| Base32Hex.NumberRoundTrip | dds/DCPS/FileSystemStorage.cpp:866-923 | the characters of a chunk stand for the same number as its bytes, and their count gives the number of bytes back |
| Base32Hex.EncodedLength | dds/DCPS/FileSystemStorage.cpp:866-896 | eight characters for every five bytes or part of five |
| Base32Hex.RoundTrip | dds/DCPS/FileSystemStorage.cpp:866-923 | decoding the encoding of any name gives the name |
| Base32Hex.EncodingIsInjective | dds/DCPS/FileSystemStorage.cpp:866-896 | different names have different encodings |
| Base32Order.LookupAscends | dds/DCPS/FileSystemStorage.cpp:868-869 | the alphabet is ascending |
| Base32Order.NeededIs | dds/DCPS/FileSystemStorage.cpp:866-896 | n bytes need 8 n / 5 characters, rounded up, which give n bytes back |
| Base32Order.GivenIff | dds/DCPS/FileSystemStorage.cpp:898-923 | no other number of characters gives bytes |
| Base32Order.SixBytes | dds/DCPS/FileSystemStorage.cpp:866-896 | the encoding of "foobar" given in section 10 of RFC 4648 |
| Base32Order.OneByte | dds/DCPS/FileSystemStorage.cpp:866-896 | the encoding of "f" given there |
| Base32Order.EncodingKeepsOrder | dds/DCPS/FileSystemStorage.cpp:866-896 | names of one length sort as their encodings do |
| Base32Hex.Encode | dds/DCPS/FileSystemStorage.cpp:866-896 | the accumulator loops compute the encoding |
| Base32Hex.EncodedStaysInTable | dds/DCPS/FileSystemStorage.cpp:907-915 | no encoding makes the decoder index its table of block lengths past its end |
| Base32Hex.Decode | dds/DCPS/FileSystemStorage.cpp:898-923 | the accumulator loops compute the decoding of every string that stays in the table |
| OverflowBuckets.ScanSeparates | dds/DCPS/FileSystemStorage.cpp:643-666 | the length test of the directory scan separates exactly the names shorter than 150 from the numbered long ones, and the short ones decode to their names |
| OverflowBuckets.DirBaseIsInjective | dds/DCPS/FileSystemStorage.cpp:659-680 | two directories share a physical name only if both are long, begin alike and have the same serial number |
| OverflowBuckets.DirBaseIsNoEncoding | dds/DCPS/FileSystemStorage.cpp:643-666 | the physical name of a directory is the encoding of no other name |
| OverflowBuckets.BucketReadsBack | dds/DCPS/FileSystemStorage.cpp:174-181 | every bucket number comes back from the physical paths in that bucket |
| OverflowBuckets.BucketDigits | dds/DCPS/FileSystemStorage.cpp:174-181 | the name of an overflow directory holds the four decimal digits of its number |
| OverflowBuckets.SerialsAreCounted | dds/DCPS/FileSystemStorage.cpp:656-672 | a creation takes the next serial number of that beginning in that bucket, and no other |
| NameSupply.Increment | dds/DCPS/FileSystemStorage.cpp:45-58 | the last character that can go up, other than the first, is one higher: the next name is above the old one with one less room; it fails exactly when there is no room |
| NameSupply.NamesFrom | dds/DCPS/FileSystemStorage.cpp:570-587 | names run out after exactly as many steps as there is room, each above all before it |
| Base32Order.LessIsLexicographic | dds/DCPS/FileSystemStorage.cpp:575-585 | the order of the names is the lexicographic one |
| Directories.DefaultRoom | dds/DCPS/FileSystemStorage.cpp:30-31 | the default file name leaves room for 1106 more |
| Directories.Directory.FindBucket | dds/DCPS/FileSystemStorage.cpp:696-725 | the loop finds the first bucket with room or else the first unused number |
| Directories.NextIsUnique | dds/DCPS/FileSystemStorage.cpp:689-736 | the bucket that a new entry goes into is determined by the counts |
| Directories.NextIsLowest | dds/DCPS/FileSystemStorage.cpp:696-725 | the next entry goes into the lowest bucket with room or, when none has, the lowest unused number |
| Directories.Directory.AddEntry | dds/DCPS/FileSystemStorage.cpp:689-736 | one more entry in the lowest bucket with room or the lowest unused number, counts at most 512, failing exactly when all 10000 buckets are full |
| Directories.Directory.MakeNewFile | dds/DCPS/FileSystemStorage.cpp:550-568 | the file is placed in its bucket under its encoded name, and every count is still the number of entries placed there |
| Directories.CreateInOrder | dds/DCPS/FileSystemStorage.cpp:550-568 | file i of files created one after the other is in bucket i / 512, for as many as there is room for |
| Directories.Directory.NextName | dds/DCPS/FileSystemStorage.cpp:575-585 | the new name is above every existing one, or the last one has no room |
| Directories.Directory.CreateNextFile | dds/DCPS/FileSystemStorage.cpp:570-587 | the next name is the default one or the last one incremented, out of range exactly when the last one has no room; otherwise the file is created exactly when no directory has its name and the buckets are not full, above all others; else nothing changes |
| Directories.Directory.MakeNewSubdir | dds/DCPS/FileSystemStorage.cpp:643-687 | the physical name with the serial number of a long one, and the new counter; it fails exactly for a name that is taken, for full buckets, or for a long name whose serial numbers in the next bucket are used up, and the counts are wrong in exactly the last case |
| Directories.SerialsRunOut | dds/DCPS/FileSystemStorage.cpp:664-687 | creating and removing a long name until its numbers are used up, after which a creation leaves one counted entry in an empty directory |
| Directories.Directory.Removing | dds/DCPS/FileSystemStorage.cpp:843-862 | the entry goes, its bucket is read back from its path, and the counts stay right |
| Directories.PathsAreDistinct | dds/DCPS/FileSystemStorage.cpp:550-687 | no two entries of a directory have the same physical path: files, subdirectories, or one of each |

## Left out

- DisjointSequences.DisjointSequence.InsertRange: the list of gaps that `insert_i` can return is not modelled; it does not agree with its description in general.
- DisjointSequences.DisjointSequence.InsertBitmap: needs a value of at least 1, fewer than 2^31 bits, no overflow past the largest number and stored ends within 2^32 of the value, since the code's unsigned offsets are only meaningful there; where it reads past the array, the word read is a parameter.
- DisjointSequences.DisjointSequence.ToBitmap: needs a span of at most 2^32, as offsets are unsigned 32-bit numbers.
- BitmapLaws.RoundTrip: the array is zeroed and the set has at least two ranges and ends below the largest number, as with fewer nothing is exported.
- SequenceNumbers.SequenceNumber.SetValue: values above the largest number are not modelled.
- AckProtocol.FilteringLeavesNoGap: links deliver in order and without loss, there is no durable resend, a step is atomic and sequence numbers do not wrap.
- AckProtocol.WaitIsOkIff: deadlines and the condition variable are not modelled, so a request may be answered at any later message and more than once; nor is the ack that a reader may send at the end of its own `add_association`.
- AckProtocol.WaitIsReliableIff: a reader is associated again only after `disassociate` was called for its last association, and each association starts with a fresh `WriterInfo` in the reader.
- HeaderReader.DataSampleHeader.Init: a field that fails to be read is left as it was; `Serializer` itself is not part of this model, only that it reads big- and little-endian numbers and stops at the end of the data.
- Fragmentation.Split: message blocks are values here, so sharing of data blocks between duplicates and their release are not captured; the payload must not be empty, and a cut inside the entries comes after their number, as the code assumes.
- Reassembly.FragmentAll: with less space than one entry or one byte of payload needs, a cut takes nothing off (`SplitMakesProgress`); whether later packets have more is not followed up.
- OwnershipManagers.OwnershipManager.LoseWriter: the instance and writer maps of a reader are plain maps; locks, deadlines and the rest of the instance state are not modelled, nor is `remove_owner(handle)`, which nothing calls.
- Base32Hex.Decode: a full block followed by `=` makes the code index its table of eight at 8; what it finds there is not modelled.
- FilterMeanings.FilterAgreesIff: the predicates of the condition are separate tests; filters that repeat a predicate may agree by chance.
- NameSupply.Increment: names are 7-bit, as the code intends; with a signed `char` the code also increments bytes above 127.
- Directories.Directory.MakeNewFile: failures of the file system after the entry was counted are not modelled; names are not empty.
- `create_next_dir`, which does for subdirectories what `create_next_file` does for files.
- Directory scanning, `_fullname` files and everything else that touches the file system.
- Value conversion, LIKE, floating point and parameters in filter expressions; ORDER BY; the parser itself.
- Coherent change messages, MultiTopic joins, partition matching, the durability cache, content of the transport framework.
- Discovery, QoS, listeners, locks, timers, allocators, monitors and logging.
