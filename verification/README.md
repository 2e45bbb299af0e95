# cppmyth, modelled and proved in Dafny

cppmyth is a MythTV client library. This project models the parts of it whose correctness is not
evident from reading one function, and proves what they are for:

- **The reader/writer latch.** `LatchProtocol` is the latch as a step machine over any number of
  threads and any schedule: each stretch between `spin_lock` and `spin_unlock` is one step, a wait
  at a gate is a re-check that may happen at any time. `LatchNodes` and `LatchObject` are the same
  latch on the heap, with its doubly linked node list and free list, proved to take the protocol's
  steps; `LatchRuns` runs any schedule on it. `LatchGates` says what each call does in the callers' terms.
  `SpinLock` is the counter underneath.
- **The JSON parser (sajson).** `JsonGrammar` is a plain recursive parser of the language the code
  accepts. `JsonParser` is the code's own loop over one word array, with a stack growing up, finished
  values growing down and strings unescaped in place (`JsonCursor`); `JsonStore` says what a region
  of the array means to the accessors and `JsonFrames` what the stack holds. `JsonLocality` shows that
  what follows an accepted root does not matter. `JsonText` defines the texts and what they mean octet by
  octet, without a parser; `JsonReads` and `JsonSound` prove that the grammar accepts exactly these and
  finds exactly that, and `JsonShow` prints trees.
- **The playback stack.** `FileTransfer` (position, request and latch accounting of a transfer),
  `RingSpec` and `PacketRing` (the packet ring, as a value and on the heap), `PlaybackBuffer` (the ring
  and the packet at hand), `PlainFile` (what callers should see), `BufferedPlayback` (a recording read
  through the buffer), `LiveChain` (a chain of files as one stream) and `LivePlayback` (the chain read
  through the buffer).
- **The Myth protocol.** `DecimalText` (numbers as text), `TextBuffers` and `FieldSplitter` (cutting
  fields), `WireConnection` (frames), `ProgramInfo` (a program record written and read back) and
  `ProgramPlaces` (which field is which item).
- **Events and HTTP.** `EventWakeup` (the wake-up of subscription threads), `StreamSocket` (the
  buffered socket reader) and `HttpChunks` (chunked transfer coding).

Code that updates objects or arrays in place is modelled by classes and methods with loops; pure
code by functions. What the outside world does (threads' schedules, socket arrivals, poll results,
the backend's answers) is a parameter, so the contracts hold for every such behaviour they do not
name. Where the code does not do what it seems meant to do, the model follows the code, and lemmas or
contracts say when it goes right:

- `LiveTVPlayback::Seek(0, WHENCE_CUR)` takes the buffered bytes off twice (`LiveTVPlayback.Seek` says
  exactly when the report is right, `SeekByZeroMisreports` builds a case where it is not).
- A program record written in version 86 is refused by its own reader, because its last field is
  empty and an empty last field is never seen (`ProgramRoundTrip`).
- `string_to_int64` wraps from the twentieth digit on (`ParseExactly`, `RightExactly`), and the signed
  minimum does not survive printing and parsing (`SignedRoundTripExactly`).
- The separator matcher does not back up (`CutExactly`).
- The JSON parser takes `{"a":}` for an empty object (`KeyWithoutValue`), `-` for 0 (`BareMinus`), and a
  NUL byte for the end of the input (`NulEnds`); a lone trail surrogate becomes an ill-formed UTF-8
  sequence (`EscapeWellFormed`).
- The seek meant to recover the position after a failed block request never sends anything
  (`TransferRequestBlock`: on failure, what was granted and not received is still under way).
- Two readers that both ask for X block each other (`StuckExactly`), and nothing any thread does
  later gets either of them through (`CrossedForEver`).
- A LiveTV read that moves on into an empty last file compares the sizes reported for it with the position
  reached in the file before, and so overlooks smaller ones (`OverlooksExactly`, `ReportOverlooked`).
- A block request that is granted nothing ends with its feedback, even if bytes granted before are still
  under way and come after it (`TransferRequestBlock`).
- A failed `Seek` of a recording drops the buffered bytes, so that reading goes on further ahead.

Some conditions are the code's own demands on its input and appear as preconditions: a JSON text must
not make the parser read past the end, which it does only where it meets a number that is a lone `0`
in the last byte (`OverreadsExactly`), so never on a text with another last byte (`NeverOverreads`);
its length must fit the 61-bit value field; a frame's header
must have a space after its digits, because the buffer it is parsed from is not terminated.

`dafny verify dfyconfig.toml` checks the whole project.

## Model

| member | source | states |
|---|---|---|
| `LatchProtocol.StepKeepsInv` | cppmyth/src/private/os/threads/latch.cpp:176-398 | every atomic stretch of every call, and every wake-up at a gate, keeps the invariant of flag, wait count, owner, S nodes and sleepers |
| `LatchProtocol.ReachableInv` | cppmyth/src/private/os/threads/latch.cpp:176-398 | the invariant holds after any schedule of any number of threads, with or without X precedence |
| `LatchProtocol.ClientView` | cppmyth/src/private/os/threads/latch.cpp:176-398 | the counts a caller can keep from returned calls alone equal the latch's: `x_flag - 2` for the owner, the node count for S |
| `LatchProtocol.MutualExclusion` | cppmyth/src/private/os/threads/latch.cpp:176-398 | in the callers' terms only: a thread holding X is the only holder of X or S, in every run |
| `LatchProtocol.FlagMeaning` | cppmyth/src/private/os/threads/latch.cpp:176-281 | `x_flag - 2` is the owner's recursion depth, every S node is the owner's while X is owned, a handed-over latch has no S holder, at most one thread is pending |
| `LatchProtocol.XIsFreeExactly` | cppmyth/src/private/os/threads/latch.cpp:176-281 | the owner word is empty exactly when no caller holds X |
| `LatchProtocol.TrySharedMeaning` | cppmyth/src/private/os/threads/latch.cpp:374-398 | `try_lock_shared` succeeds exactly when X is the caller's own, or nobody owns it, waits for it or is pending |
| `LatchProtocol.StuckExactly` | cppmyth/src/private/os/threads/latch.cpp:185-356 | nobody can move exactly when readers crossed their upgrades: a pending writer waits for S holders that sleep inside `lock` |
| `LatchProtocol.SomebodyMoves` | cppmyth/src/private/os/threads/latch.cpp:185-356 | whenever no writer is pending, a sleeper's guard is true or an awake thread has something to release |
| `LatchProtocol.XGateHoldsNothing` | cppmyth/src/private/os/threads/latch.cpp:176-235 | if no caller asks for X while it holds only S, no thread at the X gate holds S, over whole runs |
| `LatchProtocol.NeverStuck` | cppmyth/src/private/os/threads/latch.cpp:176-398 | such a program is never stuck, in any run |
| `LatchProtocol.CrossedUpgradesStick` | cppmyth/src/private/os/threads/latch.cpp:176-235 | two readers that both ask for X do get stuck: the restriction is needed |
| `LatchProtocol.CrossedForEver` | cppmyth/src/private/os/threads/latch.cpp:176-372 | once a pending writer waits for a reader that asks for X itself, both wait in every continuation of the run |
| `LatchProtocol.NoNewReader` | cppmyth/src/private/os/threads/latch.cpp:283-323 | with X precedence, while X is asked for or held a new S holder can only be the X owner |
| `LatchProtocol.ReadersOnlyDrain` | cppmyth/src/private/os/threads/latch.cpp:283-323 | with X precedence the set of S holders never grows while the flag is 1, over any stretch of a run |
| `LatchGates.WakeMoves` | cppmyth/src/private/os/threads/latch.cpp:199-238 | whoever sleeps and can move leaves its gate when it wakes, from the S gate with X and from the shared gate with S; whoever cannot stays, and nothing changes |
| `LatchGates.LockExactly` | cppmyth/src/private/os/threads/latch.cpp:176-247 | in every run, in the callers' terms: the holder of X has it again at once; anybody else has it at once exactly if nobody holds X or is pending and nobody else holds S, is pending behind the readers if only they are in the way, and queues at the X gate otherwise |
| `LatchGates.WakeAtXExactly` | cppmyth/src/private/os/threads/latch.cpp:186-206 | in every run, the same test decides for whoever wakes at the X gate: with X free, nobody pending and no other reader it has X |
| `LatchGates.WakeAtSExactly` | cppmyth/src/private/os/threads/latch.cpp:222-238 | in every run, the pending thread has X when it wakes exactly if nobody else holds S |
| `LatchGates.UnlockExactly` | cppmyth/src/private/os/threads/latch.cpp:249-281 | in every run, one X less for its holder, nothing for anybody else, and no thread moves by itself |
| `LatchGates.LockSharedExactly` | cppmyth/src/private/os/threads/latch.cpp:283-333 | in every run, S at once exactly for the holder of X, or with X free: if nobody asks for X, or, a writer pending, if the caller has S already (with X precedence) or anybody has (without) |
| `LatchGates.WakeAtSharedExactly` | cppmyth/src/private/os/threads/latch.cpp:297-323 | in every run, the same test decides for whoever wakes at the shared gate |
| `LatchGates.TrySharedExactly` | cppmyth/src/private/os/threads/latch.cpp:374-398 | in every run, the call returns S exactly if X is neither owned nor asked for, or the caller's own, and never waits |
| `LatchGates.UnlockSharedExactly` | cppmyth/src/private/os/threads/latch.cpp:335-372 | in every run, one S less for its holder, and no thread moves by itself |
| `LatchNodes.NodeLists.FindNode` | cppmyth/src/private/os/threads/latch.cpp:46-54 | the node of a thread, or null exactly when the thread is not in the map the busy list stands for |
| `LatchNodes.NodeLists.NewNode` | cppmyth/src/private/os/threads/latch.cpp:56-84 | a node from the free list or a new one goes to the head of the busy list; every node stays in exactly one list |
| `LatchNodes.NodeLists.FreeNode` | cppmyth/src/private/os/threads/latch.cpp:86-110 | the node leaves the doubly linked busy list wherever it is and goes to the free list; no other node changes |
| `LatchNodes.NodeLists.Count` | cppmyth/src/private/os/threads/latch.cpp:325-330 | the thread's count in the map goes up by one, with a node registered for it if it had none; every other thread keeps its node |
| `LatchNodes.NodeLists.Register` | cppmyth/src/private/os/threads/latch.cpp:325-328 | a thread without a node gets one with nothing counted; every other thread keeps its node |
| `LatchNodes.NodeLists.Release` | cppmyth/src/private/os/threads/latch.cpp:341-356 | the count goes down by one, and at zero the thread leaves the map and its node goes to the free list; every other thread keeps its node |
| `LatchNodes.NodeLists.DropNode` | cppmyth/src/private/os/threads/latch.cpp:347-349 | the thread leaves the map; every other thread keeps its node |
| `LatchNodes.NodeLists.Alone` | cppmyth/src/private/os/threads/latch.cpp:208-216 | whether the map has no thread but the caller |
| `LatchObject.Latch.Lock` | cppmyth/src/private/os/threads/latch.cpp:176-247 | on the heap: one step of the protocol's lock, ending returned or at a gate |
| `LatchObject.Latch.PassXGate` | cppmyth/src/private/os/threads/latch.cpp:186-206 | on the heap: the protocol's test of the X gate by a counted request |
| `LatchObject.Latch.AwaitReaders` | cppmyth/src/private/os/threads/latch.cpp:208-221 | on the heap: the protocol's test whether readers other than the caller are left |
| `LatchObject.Latch.PassSGate` | cppmyth/src/private/os/threads/latch.cpp:222-238 | on the heap: the protocol's wake-up at the S gate, including the hand-over |
| `LatchObject.Latch.Unlock` | cppmyth/src/private/os/threads/latch.cpp:249-281 | on the heap: the protocol's unlock |
| `LatchObject.Latch.LockShared` | cppmyth/src/private/os/threads/latch.cpp:283-333 | on the heap: the protocol's lock_shared; the nodes other threads captured stay theirs |
| `LatchObject.Latch.PassSharedGate` | cppmyth/src/private/os/threads/latch.cpp:297-323 | on the heap: the protocol's wake-up at the shared gate, with the node captured before the wait; the nodes of others stay theirs |
| `LatchObject.Latch.UnlockShared` | cppmyth/src/private/os/threads/latch.cpp:335-372 | on the heap: the protocol's unlock_shared, with the hand-over by the last reader; the nodes other threads captured stay theirs |
| `LatchObject.Latch.TryLockShared` | cppmyth/src/private/os/threads/latch.cpp:374-398 | on the heap: the protocol's try_lock_shared and its answer; the nodes other threads captured stay theirs |
| `LatchRuns.Threads.WakeAt` | cppmyth/src/private/os/threads/latch.cpp:199-238 | a thread that slept at a gate goes on with the node it found before, which is still its node, and takes the protocol's step |
| `LatchRuns.Threads.Run` | cppmyth/src/private/os/threads/latch.cpp:176-398 | any schedule of any number of threads, run on the heap object, is the protocol's run of that schedule: same words, same sleepers, and the callers see exactly the events of the protocol's log |
| `SpinLock.SpinWordIsSafe` | cppmyth/src/private/os/threads/latch.h:88-98 | any interleaving of fewer than INT_MAX threads: at most one inside, the word is zero exactly when nobody is, and it never exceeds the number of threads, so the wrapping increment never wraps |
| `SpinLock.IncrementKeepsInv` | cppmyth/src/private/os/threads/latch.h:90-97 | a failed attempt adds one to the word and one thread to the yield loop, which it cannot leave before the word is zero |
| `SpinLock.FreeMeansNextIn` | cppmyth/src/private/os/threads/latch.h:88-98 | with nobody inside, any waiter's next attempt gets in |
| `JsonGrammar.StringAt` | cppmyth/src/private/sajson.h:1035-1192 | the decoded string and where it ends; the decoding is strictly shorter than what it takes |
| `JsonGrammar.Escape` | cppmyth/src/private/sajson.h:1128-1185 | an escape never decodes to more bytes than it takes after the backslash |
| `JsonGrammar.Utf8RoundTrip` | cppmyth/src/private/sajson.h:1090-1107 | a strict UTF-8 decoder (section 3 of RFC 3629) gives back the code point written, and rejects what is written for a surrogate half |
| `JsonGrammar.EscapeWellFormed` | cppmyth/src/private/sajson.h:1148-1181 | an accepted escape yields well-formed UTF-8 exactly when it is not a lone trail surrogate |
| `JsonGrammar.PairMeaning` | cppmyth/src/private/sajson.h:1158-1178 | a surrogate pair decodes to the code point whose UTF-16 form it is (section 7 of RFC 8259) |
| `JsonGrammar.NumberFits` | cppmyth/src/private/sajson.h:879-902 | the overflow guard is early enough: an integer result fits 32 bits |
| `JsonGrammar.KeyWithoutValue` | cppmyth/src/private/sajson.h:635-727 | an object closed right after a colon keeps only what it had, whatever the key, and after a comma is refused |
| `JsonGrammar.KeyWithoutValueExample` | cppmyth/src/private/sajson.h:635-727 | `{"a":}` is accepted as the empty object |
| `JsonGrammar.BareMinus` | cppmyth/src/private/sajson.h:862-904 | a minus sign that no digit, point or exponent follows is the integer 0 |
| `JsonLocality.NulEnds` | cppmyth/src/private/sajson.h:538-555 | any accepted document stays that document, with the same tree, when a NUL and anything else follow it |
| `JsonReads.DocumentReads` | cppmyth/src/private/sajson.h:594-747 | every text of an array or object, written octet by octet with any white space, escapes, digits in either case, numbers and keys, is read to the tree it was written for |
| `JsonSound.DocumentExactly` | cppmyth/src/private/sajson.h:594-747 | a text is accepted with a tree if and only if it is such a text and that is what it means, the liberties of the code included |
| `JsonShow.RoundTrip` | cppmyth/src/private/sajson.h:594-747 | any array or object without doubles, whose integers are below the overflow guard, printed and read is itself |
| `JsonGrammar.LoneTrailExample` | cppmyth/src/private/sajson.h:1148-1181 | DC00 alone is taken and written as octets that are not UTF-8 |
| `JsonGrammar.OverreadsExactly` | cppmyth/src/private/sajson.h:873-906 | a number is read past the end of the input if and only if it is a lone 0, with or without a minus, in the last byte |
| `JsonGrammar.NeverOverreads` | cppmyth/src/private/sajson.h:594-747 | no text that is empty or ends with another byte than 0 is ever read past its end |
| `JsonGrammar.OverreadExample` | cppmyth/src/private/sajson.h:873-906 | `[0` is |
| `JsonCursor.Cursor.PeekStructure` | cppmyth/src/private/sajson.h:538-555 | stops at the first byte that is not white space |
| `JsonCursor.Cursor.ParseStringSlow` | cppmyth/src/private/sajson.h:1109-1192 | unescapes in place: the bytes left are the functional decoding, the write pointer never passes the read pointer, nothing before the string changes |
| `JsonCursor.Cursor.ParseString` | cppmyth/src/private/sajson.h:1035-1067 | accepts exactly the strings of the grammar and leaves their decoding in the buffer |
| `JsonCursor.Cursor.Unescape` | cppmyth/src/private/sajson.h:1128-1185 | one escape, written behind the read pointer |
| `JsonCursor.Cursor.ReadCodePoint` | cppmyth/src/private/sajson.h:1148-1178 | `\u` escapes and surrogate pairs, with every error case of the grammar |
| `JsonCursor.Cursor.WriteUtf8` | cppmyth/src/private/sajson.h:1090-1107 | writes exactly the octets of the code point and nothing else |
| `JsonCursor.Cursor.ParseInteger` | cppmyth/src/private/sajson.h:875-902 | the exact value up to the overflow guard, else the flag for a double |
| `JsonCursor.Cursor.ParseNumber` | cppmyth/src/private/sajson.h:862-1000 | integer, double lexeme or error, exactly as the grammar says |
| `JsonKeys.KeyOrder` | cppmyth/src/private/sajson.h:157-169 | the (length, bytes) comparator is a strict total order: only equal keys are incomparable |
| `JsonKeys.KeyLessMeans` | cppmyth/src/private/sajson.h:157-169 | shorter keys come first, and of two of one length the one that is less at the first place where they differ |
| `JsonKeys.SortKeys` | cppmyth/src/private/sajson.h:1014-1020 | a permutation of the records that never goes down by the comparator |
| `JsonKeys.FindKey` | cppmyth/src/private/sajson.h:336-344 | on sorted keys, binary search finds a key that equals the query exactly when there is one |
| `JsonStore.RebaseKeepsTag` | cppmyth/src/private/sajson.h:1006-1025 | the re-base addition, wrapping as `size_t`, keeps the three type bits and moves the offset |
| `JsonStore.StoredFrame` | cppmyth/src/private/sajson.h:306-324 | what a walk from a value sees depends only on words above it and text before it |
| `JsonStore.StoredUnique` | cppmyth/src/private/sajson.h:306-324 | a walk through the accessors determines the tree up to member order |
| `JsonStore.StoredWords` | cppmyth/src/private/sajson.h:49-93 | what a stored tree is in raw words: the eight type numbers, type and offset of each element word, the bits of an integer, the bounds of strings and keys |
| `JsonStore.FindObjectKey` | cppmyth/src/private/sajson.h:336-344 | on an installed object: the index of a member with that key if there is one, the length otherwise |
| `JsonFrames.InstalledArray` | cppmyth/src/private/sajson.h:1002-1012 | after `install_array` the walk from the new payload yields the elements in order |
| `JsonFrames.InstalledObject` | cppmyth/src/private/sajson.h:1014-1033 | after `install_object` the walk yields the members in key order with their own values |
| `JsonFrames.StackFrame` | cppmyth/src/private/sajson.h:610-739 | writing payload between the stack and the finished region disturbs neither |
| `JsonFrames.PopFrames` | cppmyth/src/private/sajson.h:711-727 | closing a container leaves the ones around it as they were |
| `JsonFrames.PushElement` | cppmyth/src/private/sajson.h:738-738 | a finished value becomes the next element of the container on top |
| `JsonParser.Parser.InstallArray` | cppmyth/src/private/sajson.h:1002-1012 | copies downward through its own source without losing a word, each re-based |
| `JsonParser.Parser.InstallObject` | cppmyth/src/private/sajson.h:1014-1033 | sorts the records and copies them, values re-based, keys untouched |
| `JsonParser.Parser.ReadComma` | cppmyth/src/private/sajson.h:615-633 | exactly the comma rules of the grammar; the word budget after it |
| `JsonParser.Parser.ReadHead` | cppmyth/src/private/sajson.h:635-648 | key and colon, their two words inside the array |
| `JsonParser.Parser.ReadElement` | cppmyth/src/private/sajson.h:650-680 | a scalar: payload and element word inside the array, the stack as before |
| `JsonParser.Parser.OpenContainer` | cppmyth/src/private/sajson.h:682-695 | the marker remembers the container around, and the grammar goes on inside |
| `JsonParser.Parser.CloseContainer` | cppmyth/src/private/sajson.h:697-738 | the container moves to the finished region and becomes an element of its parent, or ends the document |
| `JsonParser.Parser.Parse` | cppmyth/src/private/sajson.h:594-747 | on every text on which the code does not read past the end: accepts exactly the documents of the recursive grammar; then the walk from the root yields exactly its tree; every array access is in bounds and no live word is overwritten on the way |
| `FileTransfer.Transfer.Flush` | cppmyth/src/proto/mythprototransfer.cpp:91-110 | drains what was requested and not read; exactly what arrives in time is taken off the socket, the position moves on regardless |
| `FileTransfer.Transfer.Open` | cppmyth/src/proto/mythprototransfer.cpp:49-68 | a closed transfer starts over with the size announced; an open one is left alone |
| `FileTransfer.Playback.TransferRequestBlock` | cppmyth/src/proto/mythprotoplayback.cpp:147-303 | delivered bytes are the file's next bytes, the position follows, what is requested is exactly what was granted, `0 <= requested - position < 2 * PROTO_TRANSFER_RCVBUF`, nothing outstanding, the latch as before on every path; it fails only if a needed request did not go out or the sockets reported trouble or fell silent, and does fail if a needed request did not go out or trouble or silence comes before anything else; then, whatever the answer to the recovering seek would be, what was granted and not received is still under way; it gives nothing only if the backend grants nothing more and either nothing was under way or the feedback came before any data, and gives the whole block when as much is granted and data comes with every poll until it is full |
| `FileTransfer.Playback.Collect` | cppmyth/src/proto/mythprotoplayback.cpp:184-285 | the loop ends well for every sequence of polls without trouble, and not well when trouble or silence comes first; it goes on until the block is full as long as data comes; only a grant of nothing ends it without a byte, and with bytes under way only if the feedback comes before them |
| `FileTransfer.Playback.ReceiveBlock` | cppmyth/src/proto/mythprotoplayback.cpp:227-257 | exactly the bytes that fit and are there are received and continue the file; a full buffer is not polled |
| `FileTransfer.Playback.ReceiveFeedback` | cppmyth/src/proto/mythprotoplayback.cpp:259-283 | a reply ends the request, releases the latch and adds the grant once, or ends the loop when nothing is granted and nothing came |
| `FileTransfer.Playback.HandlePoll` | cppmyth/src/proto/mythprotoplayback.cpp:186-285 | exactly the effect of each poll; latch held once exactly while a request is open, socket content is the file from the position to what was granted |
| `FileTransfer.TurnOnCourse` | cppmyth/src/proto/mythprotoplayback.cpp:184-285 | polls without trouble keep the loop going until feedback and data have come, and the next silent poll ends it |
| `FileTransfer.SmoothExample` | cppmyth/src/proto/mythprotoplayback.cpp:184-285 | data with the feedback, then silence, is without trouble |
| `FileTransfer.Playback.SendRequest` | cppmyth/src/proto/mythprotoplayback.cpp:305-325 | the bytes granted extend what is on its way |
| `FileTransfer.Playback.TransferSeek` | cppmyth/src/proto/mythprotoplayback.cpp:340-404 | every case: nothing to do, out of range, closed, unanswered (nothing changes), answered (position = requested = answer); afterwards nothing is in flight exactly when the flush got everything |
| `RingSpec.TotalUpdate` | cppmyth/src/private/ringbuffer.cpp:143-202 | replacing a slot changes the unread count by the difference of the sizes |
| `RingSpec.HoldsTotal` | cppmyth/src/private/ringbuffer.cpp:143-202 | the unread count is the number of bytes queued |
| `RingSpec.WriteAppends` | cppmyth/src/private/ringbuffer.cpp:166-183 | a write to a ring that is not full appends to the queue |
| `RingSpec.ReadTakesFirst` | cppmyth/src/private/ringbuffer.cpp:185-202 | a read takes the oldest packet and skips no slot |
| `RingSpec.FirstInFirstOut` | cppmyth/src/private/ringbuffer.cpp:166-202 | over any run of nonempty packets that never writes into a full ring, reads return the packets in write order and the rest is still there |
| `RingSpec.OverwriteReorders` | cppmyth/src/private/ringbuffer.cpp:166-202 | one write into a full ring breaks that order |
| `PacketRing.RingBuffer.MakeChunks` | cppmyth/src/private/ringbuffer.cpp:75-89 | the slots form one circle in vector order |
| `PacketRing.RingBuffer.NewPacket` | cppmyth/src/private/ringbuffer.cpp:159-164 | a packet large enough that nobody else has |
| `PacketRing.RingBuffer.NeedPacket` | cppmyth/src/private/ringbuffer.cpp:211-235 | the first of the pool exactly when it is large enough, else a new one |
| `PacketRing.RingBuffer.FreePacket` | cppmyth/src/private/ringbuffer.cpp:204-209 | the packet moves to the pool, nothing else moves |
| `PacketRing.RingBuffer.WritePacket` | cppmyth/src/private/ringbuffer.cpp:166-183 | the ring's write; an overwritten packet goes to the pool; every packet stays in exactly one of ring, pool, caller |
| `PacketRing.RingBuffer.SkipEmpty` | cppmyth/src/private/ringbuffer.cpp:192-193 | with unread bytes the skip loop ends at the first occupied slot within one turn |
| `PacketRing.RingBuffer.Read` | cppmyth/src/private/ringbuffer.cpp:185-202 | the ring's read, null exactly when nothing is unread; the packet moves to the caller |
| `PacketRing.RingBuffer.Clear` | cppmyth/src/private/ringbuffer.cpp:119-132 | every packet goes to the pool and reading goes on at the write slot |
| `PlaybackBuffer.Buffer.Deliver` | cppmyth/src/mythrecordingplayback.cpp:181-195 | as many of the buffered bytes as asked, in order; an emptied packet is recycled |
| `PlaybackBuffer.Buffer.Store` | cppmyth/src/mythrecordingplayback.cpp:196-208 | a block passes through the empty ring unchanged and is at hand; an unused packet is recycled |
| `PlaybackBuffer.Buffer.Discard` | cppmyth/src/mythrecordingplayback.cpp:258-264 | everything buffered is dropped |
| `PlaybackBuffer.Buffer.Unread` | cppmyth/src/mythrecordingplayback.cpp:246-247 | the bytes in the ring and the rest of the packet |
| `PlainFile.LikeFileMore` | cppmyth/src/mythrecordingplayback.cpp:173-290 | a session that was a plain file's stays one when the next call is |
| `PlainFile.LikeLonger` | cppmyth/src/mythlivetvplayback.cpp:511-778 | and while the file grows at its end |
| `BufferedPlayback.RecordingPlayback.Read` | cppmyth/src/mythrecordingplayback.cpp:173-212 | the file's bytes from the logical position, which moves on by as many: what is buffered first and then exactly as much as was fetched; it fails only for trouble with the network and gives nothing only at the known end or for a grant of nothing |
| `BufferedPlayback.RecordingPlayback.ReadTransfer` | cppmyth/src/mythrecordingplayback.cpp:214-240 | a block limited by what the file is known to have, unless reading ahead; the causes of failing and of nothing |
| `BufferedPlayback.RecordingPlayback.Fetch` | cppmyth/src/mythrecordingplayback.cpp:194-208 | a block passes through the buffer unchanged; the logical position stays; the same causes |
| `BufferedPlayback.RecordingPlayback.Seek` | cppmyth/src/mythrecordingplayback.cpp:242-276 | succeeds exactly when the target is where the transfer is, or inside the file on an open transfer with an answer; then position and result are the target; a failed seek drops the buffer; an offset from the end counts backward |
| `BufferedPlayback.RecordingPlayback.GetPosition` | cppmyth/src/mythrecordingplayback.cpp:278-290 | the position of the next byte a caller gets |
| `BufferedPlayback.RecordingPlayback.Session` | cppmyth/src/mythrecordingplayback.cpp:173-290 | over any run of reads and seeks, whatever the network does, every call gave what a plain file gives; a read gives nothing only at the known end or for a grant of nothing or, reading ahead, at the end of what is recorded or, within a block of that end, when the feedback comes before any data; after a last read ahead that gave nothing though something was granted, all of the recording is requested; the run stops early only at a call with a reason to fail, and untroubled runs are played to the end |
| `LiveChain.ContentOf` | cppmyth/src/mythlivetvplayback.cpp:502-509 | the stream has a file's bytes where that file starts |
| `LiveChain.ContentGrows` | cppmyth/src/mythlivetvplayback.cpp:587-622 | when a file after which all are empty gets longer, what the stream was is a prefix of what it is |
| `LiveChain.Chain.GetSize` | cppmyth/src/mythlivetvplayback.cpp:502-509 | the sum of the sizes |
| `LiveChain.Chain.GetPosition` | cppmyth/src/mythlivetvplayback.cpp:764-778 | the stream position of the current transfer less what is buffered |
| `LiveChain.Chain.SwitchChain` | cppmyth/src/mythlivetvplayback.cpp:309-323 | refuses exactly what is out of range or closed and cannot be opened; a closed transfer is opened at its start; an open one is left alone |
| `LiveChain.Chain.Append` | cppmyth/src/mythlivetvplayback.cpp:286-293 | a file whose transfer was never opened joins the chain at its end; the stream and the place in it stay |
| `LiveChain.Chain.FindForward` | cppmyth/src/mythlivetvplayback.cpp:718-737 | ends at the file that holds the target, and never runs off the chain |
| `LiveChain.Chain.FindBackward` | cppmyth/src/mythlivetvplayback.cpp:738-759 | likewise backward |
| `LiveChain.Chain.SeekIn` | cppmyth/src/mythlivetvplayback.cpp:722-729 | one file is sought and made the current one, or nothing changes; sizes stay and sockets stay in step |
| `LiveChain.Chain.SeekChain` | cppmyth/src/mythlivetvplayback.cpp:688-762 | with a backend that answers what it is asked, any target in the stream is reached; any other, or no answer, changes no transfer; the chain can be read on |
| `LiveChain.Chain.SwitchNext` | cppmyth/src/mythlivetvplayback.cpp:622-623 | the next file becomes the current one, opened with the size announced if it never was; it fails exactly when such a file is not announced; what the stream was is a prefix of what it is |
| `LiveChain.Chain.NextFile` | cppmyth/src/mythlivetvplayback.cpp:619-629 | the next file, opened if need be, is taken up at its start, which is where the stream stands |
| `LiveChain.Chain.PollSize` | cppmyth/src/mythlivetvplayback.cpp:588-600 | the first size reported that is past the position, or none exactly when no report is |
| `LiveChain.Chain.AwaitMore` | cppmyth/src/mythlivetvplayback.cpp:587-618 | the last file gets the first size reported past the position; in vain exactly when no such size is reported in time |
| `LiveChain.Chain.Settle` | cppmyth/src/mythlivetvplayback.cpp:565-639 | moves on over finished files, opening those never opened, without moving in the stream, which only grows at its end; every size is what it was, or what was announced at the opening, or for the last file the first size reported past the position the read started from; in vain if and only if all files ahead come up empty and no such size is reported; failing only before a file that is not announced |
| `LiveChain.Chain.Block` | cppmyth/src/mythlivetvplayback.cpp:641-659 | a block of the current file, asked for once, or ten times while reading ahead; it gives nothing only if every attempt was granted nothing, and fails only at an attempt in trouble after attempts granted nothing; with nothing under way, if the first requests are granted nothing and the next one brings the whole block, it gives that block |
| `LiveChain.Chain.ReadChain` | cppmyth/src/mythlivetvplayback.cpp:552-660 | the stream's bytes from where it stands, across file changes, files opened on the way and growing files, whose new sizes are the ones announced and reported; it fails only without a file, before a file that is not announced or for trouble with the network; it gives nothing only at the known end with no size reported past the end of the file the read started in, or for a grant of nothing, by each of the ten requests while reading ahead; if the first of the ten are granted nothing and the next one brings the whole block, it gives that block |
| `LivePlayback.LiveTVPlayback.Read` | cppmyth/src/mythlivetvplayback.cpp:511-550 | the stream's bytes from the caller's position: what is buffered first, else a block of the chain; the same causes of failing and of nothing, and the same ten requests while reading ahead |
| `LivePlayback.LiveTVPlayback.SeekByZero` | cppmyth/src/mythlivetvplayback.cpp:668-673 | nothing moves, and the buffered bytes are taken off twice |
| `LivePlayback.LiveTVPlayback.Seek` | cppmyth/src/mythlivetvplayback.cpp:662-686 | a seek to a place or by a nonzero distance takes the caller there; a seek by zero reports the caller's position if and only if the buffer is empty or holds more than lies before it; an offset from the end counts forward; reading can go on |
| `LivePlayback.LiveTVPlayback.GetPosition` | cppmyth/src/mythlivetvplayback.cpp:764-778 | the position of the next byte a caller gets |
| `LivePlayback.LiveTVPlayback.Session` | cppmyth/src/mythlivetvplayback.cpp:275-778 | over any run of reads and seeks (but seeks by zero), with exactly the given files joining the chain in between, the chain is one plain file that grows, to sizes that were announced or reported during the run; a read gives nothing only at the known end or for a grant of nothing, and a last read that gave nothing though something was granted has come to the end of the last file that joined, with no size reported beyond that of the last file with bytes or of an empty one after it; the run stops early only at a call with a reason to fail, and untroubled runs are played to the end |
| `LivePlayback.SeekByZeroMisreports` | cppmyth/src/mythlivetvplayback.cpp:668-673 | a playback built from one file: after ten bytes are read the position is 10 and a seek by zero returns 6 |
| `LiveChain.OverlooksExactly` | cppmyth/src/mythlivetvplayback.cpp:563-616 | a read that moves on into files that come up empty waits in vain, although more of the last one is reported, if and only if the largest size reported is not past the position it had in the file it started in |
| `LivePlayback.ReportOverlooked` | cppmyth/src/mythlivetvplayback.cpp:563-616 | 10 bytes of one file are read; the next read opens a second, empty file and gives nothing although 5 bytes of it are reported; the read after it, told the same, gives some |
| `DecimalText.DigitsValue` | cppmyth/src/private/builtin.c:284-318 | the numeral has the value, and no leading zero |
| `DecimalText.UintToStrdec` | cppmyth/src/private/builtin.c:284-354 | the in-place digit loop and reversal leave the numeral, cut to the last digits or padded as asked |
| `DecimalText.ShownExample` | cppmyth/src/private/builtin.c:284-354 | 305 in wide, narrow and padded buffers, octet by octet |
| `DecimalText.StringToUnsigned` | cppmyth/src/private/builtin.c:131-160 | the loop is the parser with its 64-bit accumulator |
| `DecimalText.StringToSigned` | cppmyth/src/private/builtin.c:29-101 | likewise with a sign |
| `DecimalText.ParseMeaning` | cppmyth/src/private/builtin.c:29-160 | where wrapping is excluded (32-bit limits, or at most 19 digits) digits parse to their value exactly when within the limit |
| `DecimalText.OnlyDigitsParse` | cppmyth/src/private/builtin.c:131-160 | no other word parses |
| `DecimalText.BlanksAround` | cppmyth/src/private/builtin.c:46-60 | white space before a number does not matter, and white space or a NUL ends it |
| `DecimalText.SignedMeaning` | cppmyth/src/private/builtin.c:29-101 | a printed number of any size is parsed to itself exactly when within a limit of 32 bits, else refused |
| `DecimalText.ParseExactly` | cppmyth/src/private/builtin.c:29-160 | for digits of any length and any limit: a range error if and only if some prefix is past the limit modulo 2^64, otherwise the value modulo 2^64 |
| `DecimalText.RightExactly` | cppmyth/src/private/builtin.c:29-160 | for digits of any length: right if and only if the value is within the limit or some prefix is past it modulo 2^64 |
| `DecimalText.TwentyDigits` | cppmyth/src/private/builtin.c:29-64 | `string_to_int64` on up to twenty significant digits: right if and only if n fits, or n / 10 does not, or n modulo 2^64 does not |
| `DecimalText.LongNumeralWraps` | cppmyth/src/private/builtin.c:46-60 | `string_to_int64` takes 2^64 for 0 |
| `DecimalText.UnsignedRoundTrip` | cppmyth/src/private/builtin.c:131-160 | print then parse is the identity |
| `DecimalText.SignedRoundTripExactly` | cppmyth/src/private/builtin.c:29-101 | print then parse is the identity exactly on what is not the signed minimum |
| `FieldSplitter.CutExactly` | cppmyth/src/proto/mythprotobase.cpp:133-190 | a field is cut off right if and only if no separator is seen in it and none is half matched at its end |
| `FieldSplitter.NoBracketScan` | cppmyth/src/proto/mythprotobase.cpp:133-190 | so is every field without '[' |
| `FieldSplitter.BracketGlues` | cppmyth/src/proto/mythprotobase.cpp:133-190 | the field "[" is not |
| `FieldSplitter.FieldsOfJoin` | cppmyth/src/proto/mythprotobase.cpp:133-190 | fields joined and cut again are the fields, but an empty last one is lost |
| `FieldSplitter.TwoFields` | cppmyth/src/proto/mythprotobase.cpp:133-190 | two fields without '[' with "[]:[]" between them, octet by octet, are those two fields |
| `TextBuffers.TextBuffer.Take` | cppmyth/src/proto/mythprotobase.cpp:143-170 | the buffer never overflows, whatever the bytes, and loses none of a text without NUL |
| `WireConnection.HeaderParses` | cppmyth/src/proto/mythprotobase.cpp:222-244 | the left-aligned length header parses to the length |
| `WireConnection.HeaderExample` | cppmyth/src/proto/mythprotobase.cpp:91-121 | a command of twelve bytes goes out after `12` and six spaces |
| `WireConnection.Connection.ReadField` | cppmyth/src/proto/mythprotobase.cpp:133-190 | the first field of what is left of the message, of any length across the buffer, and exactly its bytes consumed |
| `WireConnection.Connection.FlushMessage` | cppmyth/src/proto/mythprotobase.cpp:202-220 | exactly the rest of the message is dropped |
| `WireConnection.Connection.RcvMessageLength` | cppmyth/src/proto/mythprotobase.cpp:222-244 | reads the header only at the head of a message |
| `WireConnection.Connection.SendCommand` | cppmyth/src/proto/mythprotobase.cpp:91-121 | sends one frame; afterwards the current message is the next frame from its first byte, whatever was left unread |
| `WireConnection.Connection.NextField` | cppmyth/src/proto/mythprotobase.cpp:133-190 | fields come from the current frame only |
| `WireConnection.Connection.Converse` | cppmyth/src/proto/mythprotobase.cpp:91-244 | over any run of commands whose callers read as they please, what is sent are the commands, one frame each and in order, and the k-th caller gets fields of the k-th frame only |
| `ProgramInfo.TablesAgree` | cppmyth/src/proto/mythprotobase.cpp:564-1627 | what `MakeProgramInfo` writes at each place is what `RcvProgramInfo` reads there, in every version |
| `ProgramInfo.WholeNumeral` | cppmyth/src/private/builtin.h:106-125 | the digit buffers are wide enough |
| `ProgramInfo.FieldRoundTrip` | cppmyth/src/proto/mythprotobase.cpp:1310-1544 | every transmissible item printed and parsed is itself |
| `ProgramInfo.LastWriter` | cppmyth/src/proto/mythprotobase.cpp:1546-1627 | the last field is empty from version 86 on and never before |
| `ProgramInfo.ProgramRoundTrip` | cppmyth/src/proto/mythprotobase.cpp:564-1627 | a record comes back with every item transmitted if and only if the version is below 86 |
| `ProgramInfo.Receive` | cppmyth/src/proto/mythprotobase.cpp:564-722 | on the connection: the record of the current frame, the later frames untouched |
| `ProgramPlaces.ReceivedExactly` | cppmyth/src/proto/mythprotobase.cpp:564-1234 | a message is read to a record if and only if it has the fields of its version and each item is what the field at its place says, by a list of places, number ranges and category texts of its own; any other message is refused |
| `ProgramPlaces.MadeExactly` | cppmyth/src/proto/mythprotobase.cpp:1310-1627 | what is written at each place: the text of the item that belongs there, or the 0 or nothing that fills it |
| `ProgramPlaces.OutOfRangeRefused` | cppmyth/src/private/builtin.c:29-160 | a printed number outside the type of its item is refused, whatever its size, and one inside is taken |
| `EventWakeup.NextKeepsInv` | cppmyth/src/mytheventhandler.cpp:107-147 | every step of posters, `Stop` and the thread keeps: messages posted = handled + in hand + queued, and an unseen message has its notification or a poster about to give it |
| `EventWakeup.HandledInOrder` | cppmyth/src/mytheventhandler.cpp:121-147 | messages are handled once each, in post order, in every run |
| `EventWakeup.NoLostWakeup` | cppmyth/src/private/os/threads/event.h:50-67 | a thread asleep with a nonempty queue or a stop request has a notifier under way whose step wakes it |
| `EventWakeup.QuietMeansDone` | cppmyth/src/mytheventhandler.cpp:107-147 | where nothing is left to do, everything posted was handled, or the thread has stopped |
| `EventWakeup.NothingAfterStop` | cppmyth/src/mytheventhandler.cpp:121-147 | once `Stop` has raised the flag the thread handles no message but the one it has taken or is about to take, in any continuation of the run |
| `EventWakeup.EveryRunDelivers` | cppmyth/src/mytheventhandler.cpp:107-147 | however they are interleaved, posters in progress, `Stop` and the thread come to rest in bounded many steps, with two more for each spurious wake-up, and then all is handled or the thread is out of its loop |
| `StreamSocket.TcpSocket.ReceiveData` | cppmyth/src/private/socket.cpp:385-482 | the next bytes of the stream through the buffered and the direct path, none lost, repeated or out of order; as many as asked unless the stream ends or a wait fails |
| `HttpChunks.ReadHeaderLine` | cppmyth/src/private/wsresponse.cpp:86-137 | a line within the limit comes back whole and what follows stays in the stream |
| `HttpChunks.ChunkSizeRoundTrip` | cppmyth/src/private/wsresponse.cpp:401-404 | a size line of hexadecimal digits, each in either case, with leading zeros or not, with or without extensions after a semicolon, gives the value of the digits |
| `Bytes.HexDigitExactly` | cppmyth/src/private/wsresponse.cpp:401-404 | a byte is a digit of a value exactly if a sender writes that value so, in one of the cases |
| `HttpChunks.EncodedOctets` | cppmyth/src/private/wsresponse.cpp:388-424 | a chunk, the end and a trailer, octet by octet |
| `HttpChunks.Limits` | cppmyth/src/private/wsresponse.cpp:86-137 | the limits of a line and of a chunk |
| `HttpChunks.ChunkReader.NextChunk` | cppmyth/src/private/wsresponse.cpp:388-424 | the size line, the buffer for the chunk, or the trailers and the end |
| `HttpChunks.ChunkReader.ReadChunk` | cppmyth/src/private/wsresponse.cpp:385-441 | the four pointers stay in order for any input; for a well-formed body the next decoded bytes, nothing exactly at the end |
| `HttpChunks.ChunkReader.ReadAll` | cppmyth/src/private/wsresponse.cpp:385-441 | any sequence of caller buffers: the results together are the decoded body, and the stream is left right after it |

## Left out

- JSON doubles: the value of a double is an opaque function of its lexeme; the accumulation of digits, the table of powers and the overflow of the `int` exponent are not modelled.
- JSON errors: that a text is refused is modelled, the message, line and column are not.
- JSON integers: a stored integer is the low half of its word; the upper half, which the union leaves indeterminate, is arbitrary.
- `std::sort` and `std::lower_bound` are modelled by an insertion sort on the order of the records and a binary search of this project; the records are then permuted in place.
- Latch: `unlock_shared` by a thread without S is an assertion failure in the code and a step that is passed over in the model (`LatchRuns` too); `unlock` by a thread that is not the owner does nothing, as in the code. The guard objects `ReadLock` and `WriteLock` are left out as easy.
- Latch and event waits: condition variables and mutexes themselves are foreign; memory ordering is taken to be sequentially consistent.
- LiveChain.Chain.ReadChain: while the last file is still empty the code also polls the chain for a new file and jumps to it; in the model only sizes reported for that file end the wait. The result of the seek to the start of the next file is ignored by the code, so the contract asks for a backend that answers it.
- LiveChain.Chain.Append: `HandleChainUpdate` also closes a predecessor that is known to be empty, so that reading back across it opens it again; the switch to a new file at once needs a size that a new transfer never has, and the one on a size event is left out; so is a size reported for a file before it is opened, or while nobody waits for it. `IsChained`, `InitChain` and `ClearChain` only search or empty the list.
- FileTransfer.Playback.TransferRequestBlock: the early exit on an invalid socket is left out; the loop ends when the list of poll results does, as a poll error; nothing is said about how long the peer may take.
- LivePlayback.LiveTVPlayback.Session: seeks by zero are not among its calls, because what they report is wrong in the way `LiveTVPlayback.Seek` states.
- BufferedPlayback.RecordingPlayback.Seek: `WHENCE_END` is read as the code's own range check reads it, the file size less the offset.
- PacketRing: order after a write into a full ring is not a guarantee of the code; `RingBuffer::write`, which copies into a packet and then does what `writePacket` does, is left out.
- ProgramInfo: version 75, whose record has fewer fields, is left out; `stars` is carried as its printed text, since printing and parsing doubles are library calls.
- WireConnection: what a message with NUL bytes yields is left out, only that it is consumed in step; the log-in, announcement and all other commands are left out.
- HttpChunks: a chunk size beyond 32 bits, undefined in `sscanf`, is read as its value and refused; decompression, redirects and content without chunks are left out.
- Integer widths: positions, sizes and counters are unbounded except where the width is the point (the tagged words, the spin word, the number parsers); buffer sizes passed to `Read` are taken to fit an `int`.
- Socket connection, UDP, TLS, zlib, date and time conversion, URI handling, enumeration tables other than the category types, the thread pool and the web service client are left out: foreign calls, or easy.
