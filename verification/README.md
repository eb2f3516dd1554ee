# Verified models of the cache, list, session and capture code

A Dafny 4.11 model of the parts of this repository that hold complete algorithms, with
proofs of what they promise. `dafny verify dfyconfig.toml` checks everything.

- **The LRU cache** (`GenerationCache.dfy`, `Recency.dfy`). The cache is a class over heap
  entries, threaded by `parent`/`child` from `mOldest` to `mYoungest` and indexed by `mCache`.
  `get`, `put`, `remove`, `removeOldest` and `clear` are proved to take one step each of a
  policy on plain sequences, and a ghost log ties the object to the run that produced it.
  About runs it is proved that the chain is always strictly ordered by last touch, that size
  stays within capacity, that every added pair is either cached or was notified exactly once,
  that an observer of additions and notifications knows the contents, and that a bounded
  cache holds exactly the most recently used keys of an unbounded one. A `put` of a cached
  key on a full cache evicts an entry before it looks at the key; exactly when that is
  harmless is proved. `addToCache`, `removeAt`, `attachToCache` and `detachFromCache` are
  public too; they have contracts of their own, and a caller that uses them directly leaves
  the runs behind.
- **The circular list** (`RingList.dfy`). Nodes on a ring through a sentinel, with deletion
  modelled: a deleted node's links may not be followed, a node cannot be deleted twice, and
  the list owns nothing but its ring. Insert, erase, `clear`, `distance`, the copy constructor and
  `operator=` are proved to be the sequence operations they stand for, on the same nodes. For
  a range insert on the list's own range both cases are proved on the nodes: it ends if the
  insertion point is not behind the start and up to the end of the range, and otherwise no
  number of rounds brings its cursor to the end.
- **The dongle session** (`Bytes.dfy`, `Framing.dfy`, `Wire.dfy`, `Reader.dfy`,
  `Recorder.dfy`). Three threads write header and payload under one lock, in any
  interleaving, and a write may raise or fall short; the bytes on the wire have been whole
  frames, in lock order, plus the lock holder's part all along exactly if every write was
  clean, a run shows what a torn frame does to the next, and every order of sends is
  possible. Headers, file payloads and audio messages are also stated byte by byte.
  `read_message` reassembles whatever the pieces are. The recorder's windows, gaps, buffers,
  files and status fields account for every arrival.
- **The start-code scanners** (`AnnexB.dfy`). Both are proved equal to one scan, which is
  sound and complete on arbitrary bytes and finds every unit of a stream that is legal under
  section 7.4.1 and Annex B of ITU-T H.264, but for one shape of ending.
- **Bit sets and the backtrace buffer** (`BitSet.dfy`, `Backtrace.dfy`). `BitSet32` refines a
  finite set; rank inverts the enumeration by `clearFirstMarkedBit`, so `getPosition` finds
  the packed position. The bounded address buffer refines a two-phase filter.

`Seqs.dfy` holds the sequence operations and `Wrappers.dfy` the option type.

## How the source is represented

- `KeyedVector` is a finite map from keys to entries, whose `add` replaces the value under an
  existing key; `clear` notifies in an order left open, which covers the sorted order of the
  index. `NULL` for a missing key is `None`.
- Ghost arguments such as `at`, `f`, `l` say where on the chain or ring a pointer is; the
  executable code never uses them.
- A 32-bit word of `BitSet32` is its 32 bits, most significant first. `0xffffffffUL` is wider
  than the set's value on a 64-bit host; the extra bits are masked away by the value.
- A `std` builtin such as `__builtin_clz` is a recursive function over the bits.
- A device is a script of pieces; a read of an exhausted script or of an oversized piece raises.
- Time is a real number supplied with each arrival and tick; it may go backwards.
- Each `dev.write` is one step that puts some first part of its bytes on the wire and returns
  or raises, as the run decides; `send` looks at neither how much was written nor whether the
  other end noticed. An exception ends the thread, after the lock is released.
- Branches and loops of longer functions are methods of their own: `DispatchVideo`,
  `DispatchAudio` with `Note` and `Pcm`, `DispatchStatus` with `Show`, and `NoteReset` for the
  receive loop, `WriteWavs` for the loop at shutdown, `OverwritePrefix` for the loop of
  `operator=`, `NotifyAll` for the loop of `clear`, `PutNew` for the end of `put` and `Unlink`
  for the links in `detachFromCache`.
- The recorder's history is every message received and every reset of the dongle, in order.

## Model

| member | source | states |
|---|---|---|
| Recency.RunKeepsInvariant | android/ext-libs/include/base/utils/GenerationCache.h:162-218 | after any run no key is cached twice and a bounded cache is within its capacity |
| Recency.RunIsOrderedByTouch | android/ext-libs/include/base/utils/GenerationCache.h:147-229 | after any run every cached entry has been touched, and the chain is strictly ordered by the last insertion or successful `get` |
| Recency.NextIsKeptThenTouched | android/ext-libs/include/base/utils/GenerationCache.h:117-218 | every call but `clear` keeps all entries but at most one, in their order, and adds at most the touched one behind them, under the key of the call; `contains` and a refused `put` without eviction change nothing |
| Recency.EvictionTakesLeastRecent | android/ext-libs/include/base/utils/GenerationCache.h:162-218 | `removeOldest` and eviction remove at most one entry, exactly when there is one and the call or the capacity demands it, and it was touched before everything else cached |
| Recency.PutOutcome | android/ext-libs/include/base/utils/GenerationCache.h:162-176 | `put` returns true exactly when the key was absent or was the one just evicted; the key is then present with the new value, and otherwise with the value it had |
| Recency.PutOfCachedKeyUnchanged | android/ext-libs/include/base/utils/GenerationCache.h:162-176 | a `put` leaves the cache as it was exactly when the key is cached and there is room, or the only entry is evicted and put back identical |
| Recency.PutOfCachedKeyEvicts | android/ext-libs/include/base/utils/GenerationCache.h:162-176 | the case where it does not: on a full cache of two that a run has produced, putting the younger key again loses the older entry and keeps the old value |
| Recency.RunConserves | android/ext-libs/include/base/utils/GenerationCache.h:117-218 | over any run the pairs added are, as a multiset, the pairs cached plus the pairs notified |
| Recency.RunIsObserved | android/ext-libs/include/base/utils/GenerationCache.h:117-218 | after any run a key is cached exactly when it was added and not notified since, with the value last added |
| Recency.AnswersAreObserved | android/ext-libs/include/base/utils/GenerationCache.h:132-218 | after any run `get` and `remove` answer with the value last added and not notified since, or nothing; `contains` agrees; `removeOldest` answers with the oldest entry's |
| Recency.BoundedIsSuffixOfUnlimited | android/ext-libs/include/base/utils/GenerationCache.h:147-184 | under look-up-then-load use a cache of capacity n holds exactly the n youngest entries of an unlimited one, in the same order |
| Recency.LargerCacheIncludesSmaller | android/ext-libs/include/base/utils/GenerationCache.h:147-184 | a larger cache never misses where a smaller one hits |
| GenerationCache.GenerationCache.LinkedIsInjective | android/ext-libs/include/base/utils/GenerationCache.h:220-251 | a linked chain is acyclic: no entry occurs in it twice |
| GenerationCache.GenerationCache.AttachToCache | android/ext-libs/include/base/utils/GenerationCache.h:220-229 | appends any entry to the chain; `parent` and `child` stay mutually inverse from end to end exactly when the entry was not on the chain and had no `child`, nor a `parent` on an empty cache |
| GenerationCache.GenerationCache.DetachFromCache | android/ext-libs/include/base/utils/GenerationCache.h:231-251 | takes exactly this entry out of the chain, mends the links and ends, and clears the entry's own links; for an entry that is not on the chain its neighbours are linked all the same, and the chain survives exactly when those links do not cut through it |
| GenerationCache.GenerationCache.AddToCache | android/ext-libs/include/base/utils/GenerationCache.h:178-184 | the entry becomes the youngest and is indexed under its key, in place of any entry already there; the cache stays valid exactly when the entry could be attached and the key was not cached |
| GenerationCache.GenerationCache.Get | android/ext-libs/include/base/utils/GenerationCache.h:147-160 | returns the stored value or none, moves only its own entry to the young end, and keeps chain and index in step |
| GenerationCache.GenerationCache.Put | android/ext-libs/include/base/utils/GenerationCache.h:162-176 | takes the policy's put step: evict if full, then add if absent; reports whether it added and notifies of the eviction only |
| GenerationCache.GenerationCache.RemoveAt | android/ext-libs/include/base/utils/GenerationCache.h:196-206 | notifies of the entry, then unlinks and unindexes it, and returns its value |
| GenerationCache.GenerationCache.Remove | android/ext-libs/include/base/utils/GenerationCache.h:186-194 | removes and returns a present key's entry, changes nothing for an absent key |
| GenerationCache.GenerationCache.RemoveOldest | android/ext-libs/include/base/utils/GenerationCache.h:208-218 | removes and returns the entry at the old end, nothing if the cache is empty |
| GenerationCache.GenerationCache.Clear | android/ext-libs/include/base/utils/GenerationCache.h:117-130 | empties chain and index; the listener hears of every entry once |
| GenerationCache.GenerationCache.Contains | android/ext-libs/include/base/utils/GenerationCache.h:132-135 | true exactly for cached keys, without refreshing them |
| GenerationCache.GenerationCache.Size | android/ext-libs/include/base/utils/GenerationCache.h:103-106 | the index is as large as the chain is long |
| GenerationCache.GenerationCache.ReachedFacts | android/ext-libs/include/base/utils/GenerationCache.h:117-251 | the results about runs hold of every cache object that `get`, `put`, `remove`, `removeOldest`, `clear` and the listener setter can produce |
| GenerationCache.GenerationCache.HearingContinues | android/ext-libs/include/base/utils/GenerationCache.h:112-206 | no call makes an attached listener miss a notification or hear one too many |
| GenerationCache.GenerationCache.ListenerConserves | android/ext-libs/include/base/utils/GenerationCache.h:108-130 | with a listener attached from the start, the pairs ever added are the pairs cached plus the pairs the listener was called with |
| RingList.List.constructor | android/ext-libs/include/base/utils/List.h:163-165 | an empty list is a ring of the sentinel alone |
| RingList.List.RingIsInjective | android/ext-libs/include/base/utils/List.h:297-302 | the ring runs through distinct nodes before it meets the sentinel |
| RingList.List.InsertNode | android/ext-libs/include/base/utils/List.h:211-219 | puts one fresh node in front of the position; every other node keeps identity, value and order |
| RingList.List.InsertRange | android/ext-libs/include/base/utils/List.h:222-225 | inserts the values of another list's range in order; ends, and leaves that list alone |
| RingList.List.InsertOwnRange | android/ext-libs/include/base/utils/List.h:222-225 | the same for a range of the list itself, when the insertion point is not behind its start and up to its end |
| RingList.List.InsertOwnRounds | android/ext-libs/include/base/utils/List.h:222-225 | in every other case, after any number of rounds of the loop the cursor is not at the end of the range, the list has grown by one node a round and is still a ring |
| RingList.OwnRangeEnds | android/ext-libs/include/base/utils/List.h:222-225 | the cursors of a range insert on the list itself ever meet exactly when the insertion point is not behind the start and up to the end of the range; `InsertOwnRange` and `InsertOwnRounds` tie the cursors to the nodes in the two cases |
| RingList.InsertMoves | android/ext-libs/include/base/utils/List.h:211-219 | an insertion moves the nodes behind it by one position and no other; what `InsertOwnRounds` follows its three nodes with |
| RingList.List.EraseNode | android/ext-libs/include/base/utils/List.h:228-235 | takes exactly this node off the ring, deletes it and returns its successor |
| RingList.List.EraseRange | android/ext-libs/include/base/utils/List.h:238-242 | removes exactly the range and deletes its nodes, never following a deleted node's link |
| RingList.List.Clear | android/ext-libs/include/base/utils/List.h:245-256 | deletes every node but the sentinel exactly once and leaves the empty ring |
| RingList.List.Destroy | android/ext-libs/include/base/utils/List.h:170-173 | the destructor leaves none of the list's nodes allocated |
| RingList.List.Distance | android/ext-libs/include/base/utils/List.h:273-282 | counts the steps from one position to another, once around the ring if need be, and ends |
| RingList.List.Size | android/ext-libs/include/base/utils/List.h:184-186 | the number of elements |
| RingList.List.SetAt | android/ext-libs/include/base/utils/List.h:110-111 | assignment through an iterator changes one value and no link |
| RingList.List.Copy | android/ext-libs/include/base/utils/List.h:166-169 | the copy has the same contents on fresh nodes |
| RingList.List.OverwritePrefix | android/ext-libs/include/base/utils/List.h:317-322 | walks both lists until either ends and takes over the values of the common prefix |
| RingList.List.Assign | android/ext-libs/include/base/utils/List.h:313-328 | makes the contents equal for all lengths, leaves the source alone, keeps the first nodes as the same objects, deletes the surplus, survives self-assignment, and ends |
| Bytes.UnpackPack | tools/session.py:103-103 | a packed 32-bit word unpacks to itself |
| Bytes.PackUnpack | tools/session.py:171-171 | four bytes are the packing of the word they unpack to |
| Bytes.WordsAreLittleEndian | tools/session.py:103-103 | packing puts the byte of weight 1 first and that of weight 2^24 last, and unpacking weighs them so |
| Bytes.ParseDecimalOfDecimal | tools/session.py:309-309 | parsing a printed natural number gives it back |
| Bytes.DecimalIsPositional | tools/session.py:309-309 | the digit of weight 10^k is the number's, and there is no leading zero |
| Framing.ParseOfHdr | tools/session.py:102-103 | a header parses to the magic word, length, type and check word it was made from |
| Framing.HeaderBytes | tools/session.py:102-103 | the 16 bytes of a header: AA 55 AA 55, then length and type with the low byte first, then the type's bytes inverted one by one |
| Framing.ParsedWords | tools/session.py:171-172 | each header field is the little-endian word at its place, and the magic word is right exactly for AA 55 AA 55 |
| Framing.ComplementOfType | tools/session.py:102-103 | the check word is the bitwise complement of the type |
| Framing.DecodeFrames | tools/session.py:111-115 | whole frames decode to exactly the messages they encode, whatever follows |
| Framing.DecodeOwed | tools/session.py:111-115 | a header without its payload is not yet a message |
| Framing.DecodeIsExact | tools/session.py:167-179 | any bytes are split into the frames they begin with, said in bytes, and a rest that begins with none |
| Framing.FileRoundTrip | tools/session.py:117-120 | the length prefixes of a file payload give back name and content |
| Framing.FileParsesOnlyPayloads | tools/session.py:117-120 | nothing but such payloads parses as a file |
| Framing.FileLayout | tools/session.py:117-120 | where name, NUL and content lie in a file payload, and that each length stands in front, the name's with its NUL |
| Wire.StepKeepsExclusive | tools/session.py:111-115 | only the lock holder is between the start and the end of a message |
| Wire.StepKeepsFramed | tools/session.py:111-115 | every step, also one that raises or falls short, keeps the wire a concatenation of whole frames plus what the lock holder has written, or plus everything since the first frame left incomplete |
| Wire.StepKeepsOrder | tools/session.py:125-165 | every step keeps the main thread's sends in program order, with at most its last one lost to an exception, and the other threads on their own message |
| Wire.RunKeepsInv | tools/session.py:106-165 | all of this holds at every moment of every interleaving |
| Wire.TornByUncleanRun | tools/session.py:111-115 | the model's record of a torn frame is set exactly when some write so far was short, or raised between the first byte of its frame and the last |
| Wire.UncleanStepBreaksFrames | tools/session.py:111-115 | after a write that is short, or raises inside its frame, the wire is no longer whole frames plus the lock holder's part |
| Wire.FramesBreakAtUncleanStep | tools/session.py:106-165 | in every run, the bytes on the wire have been whole frames in lock order plus the lock holder's part at every moment up to now exactly if every write so far was clean |
| Wire.TornFrameIsMisread | tools/session.py:111-165 | a run in which a heartbeat's header write raises half-way and the reconnect loop sends its header: the other end decodes a message that nobody sent |
| Wire.WireIsFramed | tools/session.py:106-165 | at every moment of every run: the wire has been whole frames all along exactly if every write was clean; while it is, it decodes to the messages in lock-acquisition order, plus at most one header whose payload is owed; after an unclean write it decodes to the messages in front of that frame and then to whatever the bytes since then are; the main thread's messages are the start of its program, the others' are their own |
| Wire.EveryOrderIsSent | tools/session.py:106-165 | every interleaving of the main thread's messages, in program order and up to its last, with the others' has a run that puts exactly these frames on the wire and leaves all threads ready |
| Wire.AnyoneMayBeNext | tools/session.py:111-165 | from every reachable moment, a thread that waits or is ready to send can be the next to get the lock |
| Wire.FramePartlyWritten | tools/session.py:111-115 | the lock holder may put any first part of its frame on the wire and go on or raise there; a message too long for its length field raises before the first byte |
| Wire.HolderReleases | tools/session.py:111-115 | the lock holder can always go on, without an exception unless the payload is too long for its length field; each of its steps brings it closer to releasing, an exception releases at once, and others do not hold it up |
| Wire.LostPayloadSwallowsNext | tools/session.py:113-115 | after a header whose payload was lost, the decoder takes the next bytes written as that payload, and goes on behind them |
| Reader.ReadMessage | tools/session.py:167-179 | the reading loop ends and computes the read step, including short headers, foreign magic words and raised errors |
| Reader.ReadReturnsWhatWasSent | tools/session.py:167-179 | for any list of messages and any pieces within the requested sizes, repeated reads return exactly that list |
| Reader.ReadIsExact | tools/session.py:167-179 | on arbitrary pieces a message is returned exactly when they begin with a frame of it, a 16-byte piece with magic word, length and type and then a chopping of the payload, and exactly that frame is consumed |
| Reader.NothingIsDroppedHeader | tools/session.py:168-173 | no message is reported exactly for a short header or a foreign magic word, and then only that piece is consumed |
| Reader.LargestPieces | tools/session.py:168-178 | a payload may come in one piece exactly if it has at most 16384 bytes; a larger piece, or a header piece of more than 16, raises |
| Recorder.DecodeTypeOfKey | tools/session.py:362-363 | a buffer's key is `d`, the decode type, `-a` and the audio type, and the decode type parsed back from it is the original |
| Recorder.AudioLayout | tools/session.py:305-318 | decode type, volume, audio type and body of an audio message lie in this order, four bytes each but the body; it is PCM exactly if the body has more than four bytes |
| Recorder.KeyIsInjective | tools/session.py:307-309 | two streams never share a buffer |
| Recorder.LatestNext | tools/session.py:278-348 | a status field that each announcing input overwrites holds what the last of them announced, or its initial value |
| Recorder.PhoneShown | tools/session.py:278-348 | a phone is shown exactly when the last input among plugged, unplugged, the two disconnect commands and a reset of the dongle is plugged, and then under its label |
| Recorder.SaidByBytes | tools/session.py:305-348 | what each kind of message says about phone, last command and last event, by its type and bytes |
| Recorder.ShownBehind | tools/session.py:278-348 | right behind an input the fields show what it says, and where it says nothing, what was shown before |
| Recorder.DisconnectsAreLabelled | tools/session.py:332-340 | the commands that clear the phone are exactly those labelled btDisconnected and wifiDisconnected; the known commands are 1002 to 1012 |
| Recorder.StrIsInjective | tools/session.py:315-315 | codes without a label are told apart by the number shown |
| Recorder.FormatsInOrder | tools/session.py:37-38 | the known decode types are 1 to 7; which sample rate each has, that 3, 5 and 6 are mono, and that all have 16 bits |
| Recorder.CommandsInOrder | tools/session.py:43-46 | the labels of commands 1002 to 1012 in order, and no others |
| Recorder.AudioCommandsInOrder | tools/session.py:39-42 | the labels of audio commands 1 to 13 in order, and numbers for all others |
| Recorder.PhonesInOrder | tools/session.py:47-47 | the phone names by their codes, and numbers for all others |
| Recorder.SignedIsTwosComplement | tools/session.py:312-312 | the code of an audio command is the signed reading of its byte |
| Recorder.CountsNext | tools/session.py:309-310 | every stream's counter stays the number of its audio messages, playable or not |
| Recorder.OneArrival | tools/session.py:298-331 | what one message adds to counts, byte totals, video file and PCM times, by its type and bytes |
| Recorder.HistoriesAdd | tools/session.py:298-331 | counts, byte totals, video file and PCM times of a history are the sums and concatenations over its parts, however it is cut |
| Recorder.OneInStream | tools/session.py:305-331 | what one message adds to a stream's counter and buffer: by the words at bytes 0 and 8, and the bytes from 12 on |
| Recorder.StreamsAdd | tools/session.py:305-331 | counter and buffer of a stream are the sum and the concatenation over the parts of a history |
| Recorder.Recorder.WindowTick | tools/session.py:66-79 | a window is closed after 5 seconds or when forced; its line gives its counts and its gap in whole milliseconds; closing keeps the account of all arrivals, though empty windows leave no line |
| Recorder.Recorder.Dispatch | tools/session.py:298-348 | every message keeps totals, per-stream counts, gaps, buffers, video file and the three status fields equal to what the whole history says |
| Recorder.Recorder.DispatchVideo | tools/session.py:298-304 | a video message is counted and its bytes behind the metadata are appended; nothing else changes |
| Recorder.Recorder.DispatchAudio | tools/session.py:305-331 | an audio message is counted for its own stream only; a PCM message also extends exactly its own stream's buffer, its window and its gap, and a one-byte one becomes the last event by its label |
| Recorder.Recorder.DispatchStatus | tools/session.py:332-348 | phone, last command and last event follow plugged, unplugged and known commands, with their labels; an unknown command or another message leaves no trace |
| Recorder.Recorder.NoteReset | tools/session.py:278-294 | a reset of the dongle clears the phone and becomes the last event; counts, windows, buffers and files are as before |
| Recorder.WriteWavs | tools/session.py:361-369 | a file is written for exactly the buffers whose decode type, parsed back from the key, has a known format and which hold bytes, in that format and with those bytes, and for no other name |
| Recorder.Recorder.Shutdown | tools/session.py:354-372 | after the forced tick the logged lines sum to all PCM messages, PCM bytes and video messages, the buffers hold all PCM bytes, and the largest logged gap is the largest gap between consecutive PCM arrivals; every stream of a known format with bytes, and no other, becomes a file of exactly its PCM bytes; the video file is kept exactly if a video message came |
| Recorder.LargestGap | tools/session.py:319-324 | the largest step between neighbouring arrivals, 0 if none is positive, and attained |
| Recorder.GapExtends | tools/session.py:319-324 | an arrival keeps the largest gap in the lines or the open window, also when the silence straddles windows |
| Recorder.StreamsExtended | tools/session.py:307-331 | extending one buffer leaves every buffer the concatenation of its stream, and the sizes adding up to all bytes |
| AnnexB.FindStartCodes | tools/capture_video.py:56-73 | computes the scan |
| AnnexB.StartCodes | tools/capture_video2.py:68-77 | computes the same scan, in bounds without the first scanner's extra check |
| AnnexB.ScanIsSound | tools/capture_video.py:56-73 | results are real start codes before the last four bytes, with their length and, as type, the low five bits of the byte behind, within the limit, in order, apart by at least the code and that byte |
| AnnexB.ScanIsComplete | tools/capture_video.py:56-73 | below the limit, every code that starts before the last four bytes is reported or lies in a reported code and its header byte |
| AnnexB.SmallerLimitIsPrefix | tools/capture_video.py:56-60 | a smaller limit returns the first of the same results |
| AnnexB.ScannerFindsUnits | tools/capture_video.py:56-73 | on a legal byte stream with any leading and trailing zero bytes the scanner reports each unit's offset, code length and type, exactly when the stream does not end in a one-byte unit behind a 3-byte code; then it misses that unit only |
| AnnexB.ShortEndingIsMissed | tools/capture_video.py:56-73 | such an ending: in the stream 00 00 01 65, one legal unit, nothing is found |
| AnnexB.NoCodeInUnit | tools/capture_video.py:60-72 | no start code is seen inside a legal unit, not even across its end |
| AnnexB.EscapedIsLegal | tools/capture_video.py:56-73 | every unit that an encoder has put through emulation prevention is legal, so the scanner finds it |
| AnnexB.MetadataStripped | tools/capture_video.py:147-150 | for every payload, searching for the code and skipping 20 bytes (tools/session.py line 302) write the same exactly when the scan meets no code inside the metadata, and one right behind it or none at all |
| AnnexB.WriteOffsetIsFirst | tools/capture_video.py:147-150 | writing begins at the first code that the scan meets, and at byte 20 if it meets none |
| AnnexB.MetadataBeforeLongCode | tools/capture_video.py:147-150 | if a 4-byte code follows the metadata, they write the same exactly when no 3-byte code lies inside the metadata, whatever zeros it ends in |
| AnnexB.CodeInMetadataIsWritten | tools/capture_video.py:147-150 | metadata that begins with a 3-byte code: the search writes the whole payload, the skip does not |
| BitSet.PopcountIsSize | android/ext-libs/include/base/utils/BitSet.h:41-42 | the count is the size of the set |
| BitSet.BitSet32.HasBit | android/ext-libs/include/base/utils/BitSet.h:50-51 | true exactly for marked indices |
| BitSet.BitSet32.IsFull | android/ext-libs/include/base/utils/BitSet.h:47-48 | true exactly when every index is marked |
| BitSet.BitSet32.MarkBit | android/ext-libs/include/base/utils/BitSet.h:53-54 | adds one index and no other |
| BitSet.BitSet32.ClearBit | android/ext-libs/include/base/utils/BitSet.h:56-57 | removes one index and no other |
| BitSet.BitSet32.FirstMarkedBit | android/ext-libs/include/base/utils/BitSet.h:59-61 | the least marked index |
| BitSet.BitSet32.LastMarkedBit | android/ext-libs/include/base/utils/BitSet.h:67-69 | the greatest marked index |
| BitSet.BitSet32.ClearFirstMarkedBit | android/ext-libs/include/base/utils/BitSet.h:71-77 | removes and returns the least marked index |
| BitSet.BitSet32.MarkFirstUnmarkedBit | android/ext-libs/include/base/utils/BitSet.h:79-85 | allocates the least free index |
| BitSet.BitSet32.ClearLastMarkedBit | android/ext-libs/include/base/utils/BitSet.h:87-93 | removes and returns the greatest marked index |
| BitSet.BitSet32.GetIndexOfBit | android/ext-libs/include/base/utils/BitSet.h:95-99 | the number of marked indices before the given one |
| BitSet.EnumerateIsSorted | android/ext-libs/include/base/utils/BitSet.h:71-77 | the order in which the first marked bit is cleared until none is left is increasing and runs through exactly the marked indices, as many as `count()` |
| BitSet.Drain | android/ext-libs/include/base/utils/BitSet.h:71-77 | the loop on a set object: calling `clearFirstMarkedBit` until it is empty returns all marked indices, once each and in increasing order |
| BitSet.RankGrows | android/ext-libs/include/base/utils/BitSet.h:95-99 | the rank never falls and rises exactly behind a marked index |
| BitSet.RankInvertsEnumerate | android/ext-libs/include/base/utils/BitSet.h:95-99 | the rank of the k-th visited index is k, so rank is an increasing bijection onto the positions below the count |
| BitSet.PositionFound | android/ext-libs/include/base/ui/Input.h:668-707 | for a marked id the packed lookup is in bounds and finds that pointer's position |
| BitSet.PositionOfUnmarked | android/ext-libs/include/base/ui/Input.h:699-707 | for any other id the index is the number of smaller marked ids: the place of the next larger marked id if there is one, and out of bounds exactly when all 16 places are taken by smaller ids |
| BitSet.PositionOutOfBounds | android/ext-libs/include/base/ui/Input.h:699-707 | such a lookup: a movement with ids 0 to 15 marked, for which id 16 has index 16 |
| Backtrace.BacktraceState.AddAddress | android/common/src/main/cpp/Backtrace.cpp:95-130 | refuses exactly when full; otherwise keeps the address, with bit 0 cleared on Thumb builds and as it is on others, unless it is null or a repeat behind another |
| Backtrace.BacktraceState.Collect | android/common/src/main/cpp/Backtrace.cpp:165-185 | the buffer holds the first addresses, up to its capacity, of what an unbounded buffer keeps of the whole stream, each with bit 0 cleared on Thumb builds only |
| Backtrace.KeptIsDropThenCollapse | android/common/src/main/cpp/Backtrace.cpp:108-129 | the filter drops nulls except a leading one and then collapses adjacent repeats |
| Backtrace.KeptElements | android/common/src/main/cpp/Backtrace.cpp:108-129 | every non-null address survives the filter, and none is made up |

## Left out

- The sorted order and binary search of `KeyedVector`, and with them `getKeyAt` and `getValueAt`: SortedVector is not part of this model.
- Reference counting of cache entries, and a listener that calls back into the cache.
- RingList.List.InsertOwnRange: requires the condition of `RingList.OwnRangeEnds`, because the source does not terminate otherwise, as `RingList.List.InsertOwnRounds` shows; nor does it cover a range that wraps around the sentinel, see `InsertRange`.
- RingList.List.InsertRange: does not cover a range that wraps around the sentinel, because the source would read the sentinel's raw storage as a value.
- RingList.List.EraseRange: does not cover a range that wraps around the sentinel, because the source would delete the sentinel and go on along its links.
- The replacement of the device while other threads send (tools/session.py line 291), which happens outside the lock; a run of `Wire` is one device.
- The concrete messages of `Session.init`, timing, the `stop` event and the guard of the reconnect loop: `Wire` allows any program of the main thread and more interleavings than the guards do.
- Device discovery, claiming, reopening after a reset, retries and timeouts; the text of the status file and of log lines other than the window lines; the header bytes of WAV files and the volume field, a float that is only logged.
- The NAL type histogram of the capture tools: it counts the scanner's results by type and nothing reads it back.
- `push_front`, `push_back` and `empty` of the list, and iterator decrement: they are one call of `insert` at an end, a comparison of the two ends and one step along `prev`, so nothing here rests on them.
- Floating-point rounding of times: gaps are exact real numbers, and the logged value is their floor in milliseconds.
- The least-squares estimator behind `addMovement`, whose body is not in the repository, and the unwinding library behind the collecting loop, which appears as a supplied sequence of addresses.
