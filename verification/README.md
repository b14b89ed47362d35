# Verified models of CHIME and DEX

This project models, in Dafny, the index and memory protocols of two disaggregated-memory systems:
CHIME (a B+-tree with hopscotch leaves) and DEX (a B-link tree with a hierarchical lock, epoch-based
reclamation, and the SMART radix tree). Remote memory is reduced to atomic steps: reading a cache
line, writing a page or a line, compare-and-swap, fetch-and-add. Every claim below is a statement for
all inputs, all interleavings or all reachable states, proved by the Dafny verifier.

`dafny verify dfyconfig.toml` checks the whole project.

## What is in it

* **The hopscotch leaf** (`HopscotchLeaf`, `HopscotchInsert`, `HopscotchSearch`, `HopscotchSplit`,
  `KeySort`). A leaf is a circular array of `span` slots; a key sits fewer than `neighbor` slots after
  the slot it hashes to, and every slot has a bitmap of the offsets at which its own keys sit. `span`,
  `neighbor` and the hash are parameters. The insertion, the split-key computation and the split run on
  arrays and are proved against functions on sequences.
* **The lock word of a leaf** (`LeafLock`, `LeafRuns`): vacancy bitmap, partial reads, index of the
  largest key, over runs of inserts, updates and splits.
* **The leaf on the wire** (`Wire`, `TornRead`, `LeafLayout`, `LeafImage`, `LeafSegment`, `LeafCodec`,
  `LeafWrite`, `LeafReader`). `Wire` has the version byte in front of every 63 bytes after the first 64; `LeafLayout`
  has the metadata replica in front of every `n` entries and the offset arithmetic; `LeafSegment`
  puts the two layers together; `LeafWrite` writes a hop insertion back; `LeafReader` goes from the bytes
  that a reader fetches meanwhile to the answer of its search.
* **The B-link tree** (`BLinkPage`, `BLinkTree`, `BLinkRuns`, `BLinkOps`, `BLinkProgress`, `BLinkSettled`). Searches, stores, deletes,
  splits and pending parent insertions of any number of threads. The state keeps a history of the points
  at which operations take effect; the stored map is the replay of that history, and `BLinkOps` shows that
  every request enters it exactly once and as what it asked for.
* **Sibling-based validation** (`SiblingCheck`, `SiblingMap`, `SiblingSettled`): leaves without fence keys below
  cached parents of any age, the map that they hold, and that no leaf is lost.
* **The hand-over lock** (`HandOverLock`, `TicketOverflow`), **epoch reclamation**
  (`Epoch`, `EpochProgress`), **allocation** (`Allocator`).
* **The radix tree** (`Radix`, `RangePrune`): insertion through chains of nodes with bounded prefixes, and
  range queries.
* `Arith` has the facts about quotients and remainders that several modules need.

Sizes are parameters: the geometry and the layout of a leaf are arguments, and page capacities, key and
prefix lengths and the chunk size are constants without a value, so that the proofs hold for all of them.

Fields of the source that a thread updates in place are class fields or arrays here; a protocol between
threads is a state machine over values, with one action per visible step.

Some points where the model has to choose:

* A leaf's hop bitmap is the set of offsets whose bit is on. `LeafWrite.Bitmap` gives the machine word.
* In the B-link tree a page's lock is held from the write of the sibling to the write of the left page.
  An operation that locks, reads, changes and writes one page without a split is one step, because the
  lock keeps every other writer out in between and the write is what others can see.
* DEX asserts that it has a parent page when it loses the race to install a new root
  (dex/src/Tree.cpp:910-925); the model does what CHIME does (CHIME/src/Tree.cpp:1289-1301) and looks for
  the parent level from the new root, waiting until that level exists. `BLinkSettled.WaitingIsNotStuck`
  shows that there is always a thread that can make it exist.
* `SiblingCheck` keeps the range of each leaf although the stored leaf has none. That every leaf holds the
  key just below its range's end is an invariant that starts with the ghost key of CHIME/src/Tree.cpp:85-90.
* The chunk allocator of a directory starts at a multiple of the chunk size, and the memory of different
  directories of a node does not overlap (CHIME/src/Directory.cpp:17-22).
* A range query of the radix tree gives up at a leaf that it meets before it has followed all the bytes
  that the bounds have in common (dex/src/smart.cpp:1341-1343), although that leaf's key may be in the
  range. The model keeps this; `RangePrune.RangeQuery` has the exact condition and
  `RangePrune.SingleKeyIsMissed` an instance.
* The free list of the allocator does not know alignments (CHIME/include/LocalAllocator.h:37-46), so a reused
  block is aligned only if it was so where it was freed; `Allocator.AllocIsAligned` has the exact condition and
  `Allocator.ReuseMisaligns` a run.
* An insertion whose segment goes round the end and comes back into the bucket where it began sets the bit of
  that bucket only (CHIME/include/Metadata.h:48-52); the bitmap stays truthful, and `LeafLock.UpdatedExact`
  states the case.
* The raw image of a leaf is at least 64 bytes long, so that the first version byte stands at offset 64.

## Model

| member | source | states |
|---|---|---|
| HopscotchLeaf.MoveKeyInv | CHIME/src/Tree.cpp:627-629 | moving a key to an empty slot and moving its hop bit keeps every bitmap exact, every key in its neighbourhood, and the leaf's map unchanged |
| HopscotchLeaf.PlaceInv | CHIME/src/Tree.cpp:604-608 | placing an absent key in an empty slot of its neighbourhood keeps the invariant and adds exactly that pair |
| HopscotchInsert.CornerCase | CHIME/src/Tree.cpp:616-620 | wrapping `h - z` into the array and correcting it gives `h - z` back |
| HopscotchInsert.SlotIsModulo | CHIME/src/Tree.cpp:585-587 | the slot of a logical index is the source's remainder |
| HopscotchInsert.HopHomeExact | CHIME/src/Tree.cpp:614-626 | probing the bitmaps finds a home for the key at `h` exactly if the key's real home still reaches the hole |
| HopscotchInsert.NextHopLegal | CHIME/src/Tree.cpp:610-632 | the hop that is chosen is legal: its key's home lies after the hash slot and reaches the hole |
| HopscotchInsert.NextHopLowest | CHIME/src/Tree.cpp:610-632 | no key further down within reach could have moved |
| HopscotchInsert.HopRunCorrect | CHIME/src/Tree.cpp:598-634 | a successful run of hops ends with exact bitmaps and adds exactly `k -> v` |
| HopscotchInsert.HopInsertCorrect | CHIME/src/Tree.cpp:583-634 | the same for the whole attempt over the slots that were read, for an absent key |
| HopscotchInsert.HopInsertFootprint | CHIME/src/Tree.cpp:598-608 | only slots from the hash slot to the first empty slot change; the listed slots are distinct and are the only ones whose pair changes; the segment has no empty slot left |
| HopscotchInsert.ProbeHome | CHIME/src/Tree.cpp:614-625 | the probing loop computes the specified home |
| HopscotchInsert.FindEmpty | CHIME/src/Tree.cpp:590-598 | the scan finds the first empty slot of the range |
| HopscotchInsert.SetHopBit | CHIME/include/LeafNode.h:57-60 | sets one bit that was off |
| HopscotchInsert.UnsetHopBit | CHIME/include/LeafNode.h:61-64 | clears one bit that was on |
| HopscotchInsert.InsertInPlace | CHIME/src/Tree.cpp:583-634 | the hop loop on the records array computes the specified outcome, records and list of hopped slots, and ends because the hole moves down |
| HopscotchInsert.Insert | CHIME/src/Tree.cpp:554-557 | on a copy, all or nothing: success exactly if the attempt places the key, and then the copy holds the old map with `k -> v` and differs only within the segment |
| HopscotchSearch.LeafSearch | CHIME/src/Tree.cpp:1870-1891 | the scan of a neighbourhood computes found, not found or re-read |
| HopscotchSearch.SearchExact | CHIME/src/Tree.cpp:1870-1891 | on a leaf that nobody changes the search is exact and never re-reads |
| HopscotchSearch.InsertMovesOnePerHome | CHIME/src/Tree.cpp:602-632 | one insertion moves at most one key of any home and none of the home of `k` |
| HopscotchSearch.ShiftedKeyIsNotMissed | CHIME/src/Tree.cpp:1870-1891 | a reader that misses a key being moved sees a bitmap that disagrees with the keys |
| HopscotchSearch.PresentKeyIsNotMissed | CHIME/src/Tree.cpp:1870-1891 | in any slot-wise mixture of the leaf before and after one insertion, a key that was there before is found or the search re-reads |
| HopscotchSearch.TornSearchIsLinearizable | CHIME/src/Tree.cpp:1870-1891 | every definite answer over such a mixture is an answer of the leaf before or after the insertion |
| KeySort.MedianSeparates | CHIME/src/Tree.cpp:667-670 | whichever side of the upper median of distinct keys `k` falls on, another of the keys falls on the opposite side |
| HopscotchSplit.ReachesDown | CHIME/src/Tree.cpp:646-664 | if greedy hopping succeeds from a slot, it succeeds from every lower one: the good slots are closed downwards |
| HopscotchSplit.RunSucceedsIffReaches | CHIME/src/Tree.cpp:602-634 | an insertion that starts at a hole succeeds exactly if the trial hopping from that slot does |
| HopscotchSplit.StuckIff | CHIME/src/Tree.cpp:583-634 | an attempt over the whole leaf fails exactly if there is no empty slot or the first one does not reach the neighbourhood |
| HopscotchSplit.AnyWayReaches | CHIME/src/Tree.cpp:602-634 | the greedy choice of hops is the best one: if any sequence of hops brings the hole into the neighbourhood, greedy hopping does |
| HopscotchSplit.StuckIffNoWay | CHIME/src/Tree.cpp:583-634 | an attempt over the whole leaf fails if and only if no sequence of hops at all could bring the first empty slot to the neighbourhood |
| HopscotchSplit.GetSplitKey | CHIME/src/Tree.cpp:637-671 | the loops gather the critical keys and return the specified median |
| HopscotchSplit.SplitKeyHalves | CHIME/src/Tree.cpp:667-670 | half of the critical keys and the pending key, rounded down, lie below the split key |
| HopscotchSplit.HashCornerCase | CHIME/src/Tree.cpp:655-658 | correcting the hash of a key that sits in its neighbourhood gives its logical home |
| HopscotchSplit.PartInv | CHIME/src/Tree.cpp:738-753 | both sides of a split keep exact bitmaps |
| HopscotchSplit.PartContents | CHIME/src/Tree.cpp:738-753 | the sides hold exactly the pairs below and not below the split key |
| HopscotchSplit.VacatedSlotLetsKeyIn | CHIME/src/Tree.cpp:674-721 | if some critical key went to the other side, inserting the pending key on this side succeeds |
| HopscotchSplit.SplitThenInsertSucceeds | CHIME/src/Tree.cpp:637-757 | for every full or hop-stuck leaf without `k`, after a split at the computed key the side of `k` takes it in, and the other side is not empty |
| HopscotchSplit.MoveUpper | CHIME/src/Tree.cpp:738-753 | the in-place move of the upper keys and their bits produces both sides |
| HopscotchSplit.InsertLocally | CHIME/src/Tree.cpp:674-721 | the local insertion succeeds where the specification says so, so neither of its two assertions can fail; it returns the slot of the key |
| HopscotchSplit.MaxKeyIdx | CHIME/src/Tree.cpp:760-768 | the scan finds the first slot of the largest key |
| HopscotchSplit.SeparatorSeparates | CHIME/src/Tree.cpp:769-778 | the largest key on the left plus one still separates the halves |
| HopscotchSplit.SplitIs | CHIME/src/Tree.cpp:724-778 | for every full or hop-stuck leaf without `k`, the two leaves that the split makes are sound and not empty and share the old map and `k -> v` by the re-derived separator |
| HopscotchSplit.SplitAndInsert | CHIME/src/Tree.cpp:724-778 | the in-place split computes those two leaves, the separator and the slots of both largest keys |
| LeafLock.BucketsInvert | CHIME/include/Metadata.h:86-106 | slot-to-bucket and bucket-to-range are inverse, and no bucket is empty |
| LeafLock.Valock.UpdateVacancy | CHIME/include/Metadata.h:44-60 | the bit loops compute the specified bitmap |
| LeafLock.Valock.ReadEntryNum | CHIME/include/Metadata.h:62-76 | the loop computes the specified read length |
| LeafLock.Valock.UpdateMaxKeyIdx | CHIME/src/Tree.cpp:1018-1028 | if the largest key may have moved, the scan over the hopped slots finds its new slot |
| LeafLock.ReadNumFindsRoom | CHIME/include/Metadata.h:62-76 | with a sound bitmap the read length is the whole leaf, or a range that does not wrap and holds an empty slot |
| LeafLock.ReadNumIsNext | CHIME/include/Metadata.h:62-76 | the read ends with the first bucket known to have room that begins at or after the start, and is the whole leaf only if there is none or it is that long |
| LeafLock.UpdatedExact | CHIME/include/Metadata.h:44-60 | the bit of every bucket after an update: cleared by a reported empty slot, else kept without a slot in the segment, else set, but for a segment that comes back into its first bucket, which sets only that one |
| LeafLock.ReadRangeTakesMetadata | CHIME/src/Tree.cpp:422-432 | the widened range contains the first entry of a group, hence a metadata replica, and is not wider than a neighbourhood |
| LeafLock.VacancyAfterInsert | CHIME/src/Tree.cpp:1029-1041 | after an insertion every clear bit still stands for a bucket with an empty slot |
| LeafLock.VacancyAfterSplit | CHIME/src/Tree.cpp:790-799 | after a split a bit is clear exactly if its bucket has an empty slot |
| LeafLock.MaxIdxAfterInsert | CHIME/src/Tree.cpp:1018-1028 | after an insertion the index points at the largest key exactly if `k` is not the new largest one or the old position was written |
| LeafRuns.PartialReadSameOutcome | CHIME/src/Tree.cpp:433-444 | an insertion on a partly read, otherwise blank leaf does what it does on the whole leaf |
| LeafRuns.ReadSizeDecides | CHIME/src/Tree.cpp:538-566 | the part that the lock word asks for decides success or failure as the whole leaf would, so a failure always calls for a split |
| LeafRuns.InsertLeaf | CHIME/src/Tree.cpp:412-566 | the insertion, reading what the lock word asks for and updating the lock word, makes the insertion step or reports that a split is due |
| LeafRuns.SplitLeaf | CHIME/src/Tree.cpp:724-806 | the split on both leaves and both lock words makes the two split states |
| LeafRuns.SplitKeepsInv | CHIME/src/Tree.cpp:759-806 | both split states are sound; the right half takes over the end of the old range, and the old largest key is again its largest |
| LeafRuns.InitRoot | CHIME/src/Tree.cpp:80-101 | the creation of the root leaf with the ghost key and of its lock word makes the root state |
| LeafRuns.RootLeafInv | CHIME/src/Tree.cpp:80-101 | the root state is sound |
| LeafRuns.StepKeepsInv | CHIME/src/Tree.cpp:412-803 | every insert, every update and both halves of every split keep the leaf sound, every clear vacancy bit true, and the largest key where the lock word says and one below the end of the leaf's range |
| LeafRuns.RunKeepsInv | CHIME/src/Tree.cpp:80-803 | the same in every state of every run from the root leaf with its ghost key, following either half of each split |
| LeafRuns.StepContents | CHIME/src/Tree.cpp:412-803 | an insertion and an update put one pair in, and a split divides the pairs, the new one included, at the end of the left half's range |
| LeafRuns.RunContents | CHIME/src/Tree.cpp:80-803 | in every state of every run the leaf holds exactly the pairs that were put into it and that no split moved to its neighbour |
| LeafRuns.WriterTurnsExactly | CHIME/src/Tree.cpp:464-496 | in every state of every run a writer's test, from the slots it has read and the slot that the lock word names, turns right exactly if the key lies beyond the leaf's range |
| Wire.EncConcat | CHIME/include/LeafVersionManager.h:138-180 | encoding a part of an image at its own offset gives the same bytes as that part of the encoded whole |
| Wire.EncRoundTrip | CHIME/include/LeafVersionManager.h:138-228 | decoding an encoded part accepts it and returns the image |
| Wire.EncodeVersions | CHIME/include/LeafVersionManager.h:159-180 | the encoding loop, from any start, produces the specified bytes |
| Wire.DecodeVersions | CHIME/include/LeafVersionManager.h:183-211 | the decoding loop accepts exactly if every line's version byte agrees, and then returns the image |
| TornRead.EntryIsNotTorn | CHIME/include/LeafVersionManager.h:183-211 | in an accepted line-wise mixture of two encoded images, an object of at most 64 bytes whose version differs, or that differs in one byte at most, is wholly old or wholly new |
| TornRead.EntryIsNotTornAmong | CHIME/include/LeafVersionManager.h:183-211 | the same for lines from any number of images in each of which the object is wholly old or wholly new |
| TornRead.NodeIsNotTorn | CHIME/include/LeafVersionManager.h:32-65 | an accepted line-wise mixture of two images with different node versions is wholly one of them |
| LeafLayout.ScatterLength | CHIME/include/LeafVersionManager.h:102-107 | the length of a scattered segment is the difference of the positions of its ends |
| LeafLayout.NewLenIs | CHIME/include/MetadataManager.h:100-106 | the computed length is that difference, for every start and count |
| LeafLayout.OffsetInfoIs | CHIME/include/LeafVersionManager.h:99-134 | raw offset, raw length and first version offset are the specified ones |
| LeafLayout.GatherScatter | CHIME/include/MetadataManager.h:65-97 | taking the replicas out undoes putting them in |
| LeafImage.ObjectStartIs | CHIME/include/LeafVersionManager.h:161-175 | the arithmetic on groups and entries finds the object that a byte belongs to |
| LeafSegment.SegmentPlace | CHIME/include/LeafVersionManager.h:99-134 | an encoded segment has the computed raw length and stands at the computed raw offset |
| LeafSegment.OverlayExact | CHIME/src/Tree.cpp:1044-1076 | writing an encoded segment over the encoded leaf gives byte for byte the encoding of the leaf with those entries replaced |
| LeafSegment.TwoLayerRoundTrip | CHIME/include/MetadataManager.h:65-106 | decoding versions then metadata undoes encoding metadata then versions, for every start and count |
| LeafSegment.SegmentIsNotTorn | CHIME/include/LeafVersionManager.h:183-228 | every entry decoded from an accepted mixture of a segment is wholly old or wholly new |
| LeafSegment.SegmentIsNotTornAmong | CHIME/include/LeafVersionManager.h:183-228 | the same for lines from any number of states of the segment |
| LeafCodec.EncodeMetadata | CHIME/include/MetadataManager.h:87-97 | the loop puts a replica before every group |
| LeafCodec.DecodeMetadata | CHIME/include/MetadataManager.h:65-83 | the loop takes the replicas out, and says whether there was one and which |
| LeafCodec.SameNodeVersions | CHIME/include/LeafVersionManager.h:212-228 | the joint check accepts exactly if all objects have one node version |
| LeafCodec.BumpNodeVersions | CHIME/include/LeafVersionManager.h:69-80 | a write of the whole leaf gives all objects one new node version that differs from the old one, and changes no other byte |
| LeafWrite.BitmapExact | CHIME/include/LeafNode.h:57-64 | reading the bits of the machine word gives the set of offsets back |
| LeafWrite.BumpHopped | CHIME/include/LeafVersionManager.h:141-158 | the entry versions of exactly the hopped slots are bumped, once each |
| LeafWrite.InsertionDistinguishable | CHIME/src/Tree.cpp:1010-1100 | the write of one insertion changes an entry's version, or at most its bitmap byte, for neighbourhoods of at most eight slots |
| LeafWrite.InsertionAgreesOutside | CHIME/src/Tree.cpp:598-608 | the slots that an insertion does not write back keep their bytes |
| LeafWrite.WriteBackExact | CHIME/src/Tree.cpp:1044-1115 | writing the changed segment back, or the two segments when it goes round the end, takes the raw leaf through the raw forms of the old leaf, of the half-written one, and of the new leaf with the bumped versions, byte for byte |
| LeafReader.AcceptedReadIsSlotMix | CHIME/src/Tree.cpp:897-963 | a part fetched during the write-back, each cache line from any of those states of the memory, that passes the version check, decodes in every slot to the entry before or after the insertion |
| LeafReader.ParseBytes | CHIME/include/LeafNode.h:30-55 | parsing the bytes of an entry gives the entry back, for keys and values that fit their fields |
| LeafReader.BufferIsSlotMix | CHIME/src/Tree.cpp:897-963 | after one part, or two when the neighbourhood goes round the end, is fetched, accepted and parsed, the neighbourhood in the reader's buffer is that of a slot-wise mixture of the leaf before and after |
| LeafReader.ReaderIsLinearizable | CHIME/src/Tree.cpp:1813-1891 | from bytes to answer: the search over that buffer re-reads, or reports absent only a key that was absent before the insertion, or finds what the leaf holds after it |
| LeafReader.QuietReadIsAccepted | CHIME/src/Tree.cpp:949-963 | on a leaf that nobody writes to, what is fetched is accepted and decodes to its entries |
| LeafReader.QuietReaderIsExact | CHIME/src/Tree.cpp:1813-1891 | from bytes to answer on a leaf at rest: the reader accepts, never re-reads, and answers what the leaf holds |
| BLinkPage.InternalPageSearch | dex/src/Tree.cpp:760-780 | the scan finds the child of the last separator not above the key |
| BLinkPage.InternalPageStore | dex/src/Tree.cpp:836-864 | finding the place and shifting inserts the separator in order, or redirects it |
| BLinkPage.InternalPageSplit | dex/src/Tree.cpp:866-893 | the records are divided around the middle one, whose child becomes the sibling's leftmost |
| BLinkPage.LeafPageSearch | dex/src/Tree.cpp:782-792 | returns what the page's map holds for the key |
| BLinkPage.LeafPageStore | dex/src/Tree.cpp:979-1016 | the page's map gains the pair; the count is the number of records when the key is new, and the number up to the key's slot for an update |
| BLinkPage.LeafPageDelete | dex/src/Tree.cpp:1146-1156 | the page's map loses exactly the key |
| BLinkPage.SortRecords | dex/src/Tree.cpp:1027-1029 | a full page is brought into key order without changing its map |
| BLinkPage.LeafPageSplit | dex/src/Tree.cpp:1026-1059 | page and sibling hold the pairs below and from the split key, which lies strictly inside the page; half of the pairs stay |
| BLinkTree.Search | dex/src/Tree.cpp:450-503 | in every well-formed tree, also with parent insertions pending, the search from the root ends and returns what the stored map holds; the key is never below a page and no null pointer is followed |
| BLinkTree.RewriteOk | dex/src/Tree.cpp:979-1025 | a store, delete or separator insertion that leaves room keeps the tree well formed for the changed map |
| BLinkTree.CutOk | dex/src/Tree.cpp:1034-1072 | so does linking the sibling of a split of a leaf or an internal page |
| BLinkTree.GrowOk | dex/src/Tree.cpp:135-158 | so does a new root |
| BLinkTree.InsideIsUnmarked | dex/src/Tree.cpp:879-893 | a key strictly inside a page is neither a separator nor a boundary on any level above |
| BLinkRuns.SplitKeyInside | dex/src/Tree.cpp:1043-1046 | the split key lies strictly inside the page: the two assertions hold in every reachable state |
| BLinkRuns.ReadyChangeOk | dex/src/Tree.cpp:834-851 | a separator that reaches its page lies strictly inside it and is not there yet |
| BLinkRuns.SplitterOwes | dex/src/Tree.cpp:1069-1092 | after the left page is written the splitting thread owes a separator that no page above has |
| BLinkRuns.AnswerIsCurrent | dex/src/Tree.cpp:782-792 | a lookup returns what the stored map holds at that step |
| BLinkRuns.StepKeepsInv | dex/src/Tree.cpp:643-1166 | every step of every thread keeps the tree, all operations under way and the history consistent |
| BLinkRuns.RunInv | dex/src/Tree.cpp:643-1166 | so in every state of every interleaving the tree stands for the replay of the history, and every lookup in the history is right |
| BLinkRuns.SearchInRun | dex/src/Tree.cpp:450-503 | a search from the root of any reachable state returns the replayed map's value |
| BLinkOps.StepAdvances | dex/src/Tree.cpp:976-1157 | every step of a thread takes up its request, leaves it pending without a trace in the history, or completes exactly that request: one event, and the map becomes what the request asks for |
| BLinkOps.TakesEffectOnce | dex/src/Tree.cpp:450-1157 | over all runs: after a thread was asked for a lookup, store or removal, and until it is asked for something else, the request is pending and unseen, or exactly one step of the thread put exactly its event into the history |
| BLinkOps.EveryEventIsAsked | dex/src/Tree.cpp:450-1157 | over all runs: a step that changes the history completes what its thread was asked for |
| BLinkProgress.HalvesAreEven | dex/src/Tree.cpp:1026-1059 | a split keeps every pair and separator, half of them on each side; of an internal page the middle separator goes up and its child becomes the sibling's leftmost |
| BLinkProgress.MoveGetsCloser | dex/src/Tree.cpp:450-503 | every move of a walk leads a level down or to the right and never past the key, so walks end also beside concurrent splits |
| BLinkProgress.NotStuck | dex/src/Tree.cpp:643-1166 | in every reachable state an operation under way can take its next step, or the holder of the page lock it waits for can take the step that frees the page, or another thread can put the new root in place |
| BLinkProgress.RootDescentIsRecorded | dex/src/Tree.cpp:683 | over all runs: a thread that began at the root has recorded a page on every level above it, so after a split below the old root's level it goes to the page that it came through |
| BLinkSettled.StepLosesNone | dex/src/Tree.cpp:910-925 | every page but the root always has a parent entry or a thread that owes it one |
| BLinkSettled.RunLosesNone | dex/src/Tree.cpp:910-925 | over all runs; and a root that was split always has a thread about to put a new root above it |
| BLinkSettled.SettledDescentIsStraight | dex/src/Tree.cpp:760-780 | once no separator is owed, the root covers all keys and every child covers the keys that are sent to it: no search moves right |
| BLinkSettled.WaitingIsNotStuck | CHIME/src/Tree.cpp:1279-1303 | a thread that lost the race for the root can go on, or another thread can grow the root |
| SiblingCheck.SearchFromCache | CHIME/include/TreeCache.h:153-193 | the scan over a cached node returns the leaf and the sibling that the image implies |
| SiblingCheck.SiblingCheckExact | CHIME/src/Tree.cpp:1845-1851 | for a node image of any age, the leaf's sibling pointer equals the implied one exactly if the leaf has the range that the image gives it; then it covers the key |
| SiblingCheck.OldImageIsSafe | CHIME/src/Tree.cpp:1845-1851 | over all runs, for every image read earlier and every later moment |
| SiblingCheck.SearchChain | CHIME/src/Tree.cpp:1904-1913 | in any one state, walking right until the sibling pointer is the implied one ends, follows no null pointer, and finds the key exactly if some leaf holds it |
| SiblingCheck.WalkIsLinearizable | CHIME/src/Tree.cpp:1904-1913 | over all runs, with any steps of other threads between the reads of a walk: what it finds is there at that read, and if it ends without the key, no leaf held the key at some read of the walk |
| SiblingCheck.WalkStays | CHIME/src/Tree.cpp:1904-1913 | such a walk never follows a null pointer and does not go past the key before the key has been absent at some read |
| SiblingCheck.TurnRightExact | CHIME/src/Tree.cpp:464-500 | a writer's decision from the largest key turns right exactly if the leaf does not cover the key, and then there is a sibling |
| SiblingCheck.BoundInside | CHIME/src/Tree.cpp:769-778 | the re-derived separator lies strictly inside the leaf and both halves hold the key just below their end |
| SiblingCheck.SplitNodeOk | CHIME/src/Tree.cpp:1211-1246 | after a split of a level-1 node the left half repeats the right half's leftmost pointer, and both halves are sound |
| SiblingCheck.PendingInside | CHIME/src/Tree.cpp:1145-1151 | a pending separator lies strictly inside its node and is not there yet: the assertion holds |
| SiblingCheck.RunInv | CHIME/src/Tree.cpp:724-1303 | every step of every run keeps leaves, nodes, all images ever read and pending separators consistent |
| SiblingMap.HalvesKeepPairs | CHIME/src/Tree.cpp:738-757 | a leaf split loses no pair and puts none on both sides |
| SiblingMap.StepHolds | CHIME/src/Tree.cpp:412-803 | an insertion, with or without a split, changes what the leaves hold by exactly its pair; work on internal nodes changes nothing |
| SiblingMap.RunHolds | CHIME/src/Tree.cpp:412-1303 | over all runs the leaves hold exactly the map that the insertions make |
| SiblingMap.SearchInRun | CHIME/src/Tree.cpp:1813-1913 | a search in any state of a run, from any node image read by then, returns that map's value |
| SiblingMap.WalkAnswersFromMap | CHIME/src/Tree.cpp:1904-1913 | a search that walks while others insert and split answers from the map at some read of the walk |
| SiblingSettled.RunTidy | CHIME/src/Tree.cpp:724-1303 | over all runs every leaf has a record in the node that covers its start, or its record is pending; the leaves, and the nodes once there is one, divide all keys among them |
| SiblingSettled.KeyHasLeaf | CHIME/src/Tree.cpp:412-500 | in every state some leaf can take an insertion of any key |
| SiblingSettled.PendingCanBePlaced | CHIME/src/Tree.cpp:1119-1303 | a pending record can always be put in place, and that settles it and no other |
| SiblingSettled.SettledCheckPasses | CHIME/src/Tree.cpp:1845-1851 | when nothing is pending, a node just read sends every key to the leaf that covers it and the sibling check passes |
| HandOverLock.LocalLockNode.DrawTicket | dex/src/Tree.cpp:1242-1245 | one fetch-and-add gives the ticket and the turn |
| HandOverLock.LocalLockNode.TurnStarts | dex/src/Tree.cpp:1257-1259 | counts one more critical section and reports whether the remote word was handed over |
| HandOverLock.LocalLockNode.CanHandOver | dex/src/Tree.cpp:1262-1283 | the hand-over decision and its effect on flag and counter |
| HandOverLock.LocalLockNode.Release | dex/src/Tree.cpp:1285-1293 | the turn passes on |
| HandOverLock.StepKeepsInv | dex/src/Tree.cpp:214-338 | every step of every thread keeps tickets, local locks and the remote word consistent |
| HandOverLock.MutualExclusion | dex/src/Tree.cpp:214-273 | over all runs and nodes, two threads are never inside together, as long as tickets do not overflow |
| HandOverLock.NoOrphanedWord | dex/src/Tree.cpp:253-272 | a taken remote word belongs to a node with a holder inside or a waiter whose turn it is |
| HandOverLock.HandOverHasSuccessor | dex/src/Tree.cpp:1262-1283 | whoever hands over has the next ticket's thread waiting behind it |
| HandOverLock.BoundedHandOver | dex/src/Tree.cpp:1262-1283 | at most eight critical sections run on one successful swap of the remote word |
| HandOverLock.ExitPassesIff | dex/src/Tree.cpp:1262-1283 | a thread on its way out hands over if and only if a thread of its node waits with the next ticket, however many wait behind it, and fewer than eight critical sections have run on this swap |
| HandOverLock.SectionsAreEntries | dex/src/Tree.cpp:1257-1259 | the number that is bounded is the number of critical sections that the node has begun since its last swap |
| HandOverLock.SomeoneGoesOn | dex/src/Tree.cpp:214-338 | while a thread holds or waits for the lock, some such thread can take a step or a freeing write is about to land |
| TicketOverflow.DrawKeepsInvIff | dex/src/Tree.cpp:1242-1245 | a draw keeps the invariant if and only if the low half of the word does not overflow |
| TicketOverflow.OverflowStartsTurn | dex/src/Tree.cpp:1242-1255 | an overflowing draw starts the turn of the next waiter although the holder has not left |
| TicketOverflow.OverflowTurnIff | dex/src/Tree.cpp:1242-1259 | that turn puts two threads inside if and only if the holder is inside and the hand-over flag is up |
| TicketOverflow.AlternatingReachable | dex/src/Tree.cpp:214-272 | two threads of a node that alternate reach every ticket below the bound, by a run from the initial state |
| TicketOverflow.TicketOverflowBreaksExclusion | dex/src/Tree.cpp:1242-1259 | so a reachable state has a draw and a turn after which two threads are inside |
| Epoch.ComputeNewSafeToReclaimEpoch | dex/util/epoch.h:330-344 | the scan returns the largest epoch below the current one and every protected one |
| Epoch.ReserveEntry | dex/util/epoch.h:391-413 | one round takes a free entry and changes nothing else, or finds all entries taken |
| Epoch.StepKeepsGuard | dex/util/epoch.h:218-229 | one reader, one retired item, any step: the safe epoch and every bump under way stay below the item's stamp while the reader may hold it |
| Epoch.RunInv | dex/util/epoch.h:218-344 | over all runs with split protects, overlapping bumps and per-entry scans |
| Epoch.ReclamationIsSafe | dex/util/epoch.h:25-41 | an item that a reader may still hold is never safe to reclaim, and never freed |
| Epoch.SafeBelowCurrent | dex/util/epoch.h:318-329 | the safe epoch is always below the current one, so nothing is freed in the epoch in which it was retired |
| Epoch.EntriesAreOwn | dex/util/epoch.h:391-413 | no two threads own one table entry |
| EpochProgress.BumpIsExact | dex/util/epoch.h:318-344 | over all runs: a bump reads every entry, and publishes the largest number below the epoch it moved on from and below every protected epoch that it read |
| EpochProgress.LoadedWhen | dex/util/epoch.h:218-229 | over all runs: the epoch of a protected thread is the one that was current at its last load |
| EpochProgress.StampStays | dex/util/epoch.h:25-41 | over all runs: an item keeps the epoch in which it was retired until it is freed |
| EpochProgress.NoOldReaderFrees | dex/util/epoch.h:25-41 | over all runs: once the epoch has moved on, a bump that meets no reader from the item's epoch or before makes the item reclaimable |
| EpochProgress.ReaderKeepsItem | dex/util/epoch.h:25-41 | over all runs: while a thread that stored its epoch before an item was unlinked has not dropped it, the item is not freed and cannot be |
| EpochProgress.BumpGoesOn | dex/util/epoch.h:318-344 | a bump always has a next step |
| Radix.Search | dex/src/smart.cpp:1162-1268 | the descent computes the specified lookup |
| Radix.LookupExact | dex/src/smart.cpp:1162-1268 | lookup finds exactly the pairs that are stored in the tree, also below headers that are out of date |
| Radix.WriteChain | dex/src/smart.cpp:848-910 | the loop that fills the new nodes builds the specified chain, for any key length, prefix length and prefix bound |
| Radix.ChainHas | dex/src/smart.cpp:848-910 | a chain holds the new pair and what the old subtree held |
| Radix.ChainIsShort | dex/src/smart.cpp:853 | a chain has as many nodes as the source computes in advance, each taking all the bytes it can |
| Radix.CutHeaderFormed | dex/include/smart/Node.h:222-231 | dropping the bytes up to the difference, or not yet having dropped them, leaves the children reachable by the same bytes |
| Radix.InsertPreservesLookups | dex/src/smart.cpp:250-349 | insertion makes `k` map to `v` and leaves every other key's lookup unchanged, when complete and also between the write of the entry and the write of the header |
| Radix.InsertAllIsMap | dex/src/smart.cpp:73-349 | after any sequence of insertions lookups are those of the map that they build |
| RangePrune.SurvivesExact | dex/src/smart.cpp:1573-1636 | a prefix is not OUTSIDE on either side exactly if some key with that prefix lies in the range |
| RangePrune.HeaderState | dex/src/smart.cpp:1573-1597 | the header scan computes the next state |
| RangePrune.RangeQueryOnPage | dex/src/smart.cpp:1558-1652 | the survivors are exactly the entries below which some key of the range can lie, each with its right states |
| RangePrune.RangeQuery | dex/src/smart.cpp:1417-1556 | the query as it runs, from the entries at the common prefix of the bounds, returns exactly the stored pairs in the range if and only if the descent to that prefix does not end early at a leaf whose key is in the range; then it returns nothing |
| RangePrune.RangeQueryFromRoot | dex/src/smart.cpp:1452-1556 | started at the root, the level-by-level query is exact |
| RangePrune.SearchEntries | dex/src/smart.cpp:1286-1405 | the descent finds entries that hold every pair of the range, unless it ends at an early leaf |
| RangePrune.SingleKeyIsMissed | dex/src/smart.cpp:1341-1343 | a query for one key that sits in a leaf directly below the root ends at an early leaf |
| Allocator.GlobalAllocator.AllocChunk | CHIME/include/GlobalAllocator.h:31-53 | chunks are handed out in order, never chunk 0 |
| Allocator.LocalAllocator.Allocate | CHIME/include/LocalAllocator.h:22-50 | alignment, cut and first fit as specified |
| Allocator.LocalAllocator.SetChunck | CHIME/include/LocalAllocator.h:52-54 | starts a new chunk and keeps the free list |
| Allocator.LocalAllocator.Free | CHIME/include/LocalAllocator.h:56-58 | appends to the free list |
| Allocator.GrantSuffices | CHIME/include/DSM.h:245-256 | the retry after a new chunk succeeds for every size up to a chunk |
| Allocator.AllocIsFresh | CHIME/include/DSM.h:234-258 | what an allocation returns overlaps no live block and is live afterwards |
| Allocator.MallocExact | CHIME/include/LocalAllocator.h:22-50 | the chunk is used while it has room, from the first aligned position on and without a gap; then the first free block that fits; a chunk is asked for only if there is none |
| Allocator.AllocIsAligned | CHIME/include/LocalAllocator.h:26-45 | the block is aligned if and only if it is cut from a chunk or the reused block was aligned where it was freed |
| Allocator.ReuseMisaligns | CHIME/include/LocalAllocator.h:37-46 | a run in which a request for an even position gets an odd one from the free list |
| Allocator.AllocTouches | CHIME/include/DSM.h:234-258 | an allocation leaves other threads and directories alone, and takes the next chunk in order only if it must |
| Allocator.FreedIsReused | CHIME/include/LocalAllocator.h:37-58 | a freed block serves the next request that it fits, if no earlier one does and the chunk has no room |
| Allocator.StepKeepsInv | CHIME/include/DSM.h:234-262 | every allocation and every free of a live block, by any thread, keeps every byte with at most one owner |
| Allocator.LiveBlocksAreSafe | CHIME/include/DSM.h:234-262 | over all runs, live blocks are pairwise disjoint, lie in granted chunks and never touch chunk 0 |

## Left out

- RDMA verbs, queue pairs, connection setup, coroutines, memcached, huge pages, statistics: plumbing.
- The masked compare-and-swap fallback of CHIME/include/RdmaCompat.h: the locks are modelled as intended.
- The optimistic page validation of DEX (dex/src/Tree.cpp:695 and 730) does not give page snapshots in all cases; page reads of the B-link model are atomic. Front and rear versions and checksums of pages are not modelled.
- HopscotchInsert.HopInsertCorrect: stated for keys that the leaf does not hold, because an insert of CHIME used as an update on a partly read leaf (CHIME/src/Tree.cpp:546) sees only the part that was read.
- The loss of the root race in DEX, which can end in an assertion, is replaced by CHIME's retry.
- The library sort of a leaf page is written out as a selection sort; the order in which it compares is not modelled.
- Memory ordering weaker than sequential consistency in dex/util/epoch.h, nested protection by one thread, and the release of table entries, which the source leaves empty.
- Read delegation, write combining, and the caches' eviction and size accounting.
- The growth of radix node types, retries of concurrent radix insertions, reverse pointers and the radix cache.
- RangePrune.RangeQuery: does not start at cached entries, and takes the upper bound as inclusive, as the source does after subtracting one.
- Updating in place at pointer level in the radix tree: trees are values, and a step replaces a subtree.
- The floating-point division in the bucket computation of the lock word is an exact quotient.
- `free_chunk` of the chunk allocator, which nothing calls, and running out of chunks, which the source answers with an assertion.
- CHIME/include/VersionManager.h, the same layout without replicated metadata.
- Value 0 stands for an absent value in DEX and cannot be stored; keys are below the largest key.
- The output buffers of the wire codecs are sequences that grow, not memory that is overwritten.
- Scans, statistics and the Python experiments.
