# Verified core of tarm-io

A Dafny model of the parts of tarm-io, and of the libuv it stands on, that are hardest to get right,
with proofs over all inputs and all runs. `dafny verify dfyconfig.toml` checks everything.

* `Sequences.dfy`: what several of the models need.
* `Words.dfy`, `VariableLengthSize.dfy`, `MessageFraming.dfy`: length-prefixed messages. The size
  codec is proved at the level of its two 64-bit words; the receiver rebuilds messages from chunks
  cut anywhere.
* `Backlog.dfy`, `BacklogRuns.dfy`: the backlog with timeout, a wheel of halving timers. Runs may
  refresh timestamps behind its back and delay timers.
* `LinkedHeap.dfy`, `Timers.dfy`, `IntrusiveQueue.dfy`, `ThreadPool.dfy`: libuv's pointer-linked heap,
  the timers on it, its queues, and the worker pool as a state machine with one step for each stretch
  of code under a mutex.
* `PathElements.dfy`, `PathNormal.dfy`: POSIX paths as strings: iterating, appending, taking apart and
  normalising them.
* `FileReader.dfy`, `RemoveDir.dfy`: reading a file through four shared buffers, and removing a
  directory tree with an explicit stack.
* `InetAddress.dfy`, `InetGrammar.dfy`, `Utf8Facet.dfy`: printing and parsing IPv6 and IPv4 addresses
  (section 2.2 of RFC 4291, section 4.2 of RFC 5952), and the six-octet UTF-8 conversion (section 2 of
  RFC 2279).

Where the original updates objects, buffers or links in place, the model is a class or a method over
arrays, proved against functions; what the original promises is proved about those functions. Clocks,
the file system, what the system answers to a read, thread scheduling and what user callbacks do are
parameters or steps of a run.

What the model found out about the code as it is, each with its exact condition, and an input where an
example is named:

* After the size decoder has failed on its eighth byte, the receiver goes on copying, that byte
  included. Its copies leave the buffer if and only if at least as many bytes follow as the buffer
  holds (`MessageFraming.LeavesBufferExactly`, `MessageFraming.LeavesBufferExample`).
* A chunk boundary shows after such a failure: it is reported again with every further chunk
  (`MessageFraming.CutAnywhere`, `MessageFraming.CutExample`).
* A message that a user keeps changes when the next one arrives, unless that starts like it
  (`MessageFraming.MessageReceiver.KeptChunk`, `MessageFraming.KeptChunkExample`).
* A backlog item whose timestamp is ahead of the clock expires at the next visit of its bucket
  (`Backlog.ExpiryExactly`, `Backlog.AheadOfTheClock`).
* A file closed while a read is in flight keeps the flag of that read; after it has come back, no
  later session of the same object reads anything (`FileReader.StaleExactly`, `FileReader.StallExample`).
* Scheduling the removal of a file that is being closed and has no buffer in use never returns
  (`FileReader.RemovalReturnsExactly`, `FileReader.RemovalExample`).
* A file is handed over to be deleted more than once if and only if its removal is scheduled when it was
  scheduled before, the file is closed and no buffer is in use (`FileReader.HandedOverAgainExactly`,
  `FileReader.HandedOverTwice`).
* Iterating a path backward does not reverse iterating it forward if and only if it starts with three
  separators or is two separators alone (`PathElements.ReversesExactly`, `PathElements.ReverseExample`).
* Normalising leaves a name of two characters with a dot among them, such as `a.`, before `..` if and
  only if the path has such a name, then elements that cancel out, and then `..`
  (`PathNormal.NormalPathKeepsDotName`, `PathNormal.DotNameExample`).
* Encoding what was decoded gives the octets back if and only if none of them start an overlong
  character, which is decoded like any other
  (`Utf8Facet.EncodesBackExactly`, `Utf8Facet.OverlongExample`).

## Model

| member | source | states |
|---|---|---|
| VariableLengthSizes.AfterAnyBytes | source/io/core/VariableLengthSize.cpp:136-184 | After any byte sequence the decoder holds exactly the accepted bytes; it has failed exactly if the first eight bytes all carry the marker, is complete exactly if one of the first eight does not, and then nothing changes it any more |
| VariableLengthSizes.RoundTrip | source/io/core/VariableLengthSize.cpp:17-61 | Decoding the bytes of any value up to 2^56-1 followed by anything consumes exactly those bytes and gives the value back |
| VariableLengthSizes.DecodesPrefix | source/io/core/VariableLengthSize.cpp:136-184 | Every sequence of at most eight bytes whose last byte alone lacks the marker decodes to itself, whatever follows it |
| VariableLengthSizes.AddAllInPortions | source/io/core/VariableLengthSize.cpp:170-184 | Bytes may arrive in any portions; a finished decoder consumes nothing |
| VariableLengthSizes.DigitsSpec | source/io/core/VariableLengthSize.cpp:17-36 | What is encoded has the value it was encoded from and is marked as a prefix code |
| VariableLengthSizes.DigitsLength | source/io/core/VariableLengthSize.cpp:17-36 | A value below 128^n takes at most n bytes |
| VariableLengthSizes.EncodeExamples | source/io/core/VariableLengthSize.cpp:17-36 | The most significant digit comes first, at three values |
| VariableLengthSizes.NextEncoded | source/io/core/VariableLengthSize.cpp:136-168 | Shifting a byte into the encoded word, bit by bit, is appending it to the accepted bytes, for the open and for the finished layout |
| VariableLengthSizes.NextDecoded | source/io/core/VariableLengthSize.cpp:136-168 | The shifts and masks on the decoded word give the count nibble, the base-128 value and the flags of the bytes accepted after it |
| VariableLengthSizes.MarkersOfWord | source/io/core/VariableLengthSize.cpp:103-125 | For a complete size the marker bits of the word are exactly those of all bytes but the last; for one begun and not complete they are none of the patterns counted |
| VariableLengthSizes.VariableLengthSize.constructor | source/io/core/VariableLengthSize.h:59 | A fresh object represents no bytes |
| VariableLengthSizes.VariableLengthSize.Of | source/io/core/VariableLengthSize.cpp:38-91 | Constructed from any 64-bit value, signed or not, it holds that value's bytes, or nothing if the value is negative or above 2^56-1 |
| VariableLengthSizes.VariableLengthSize.EncodeImpl | source/io/core/VariableLengthSize.cpp:17-36 | The packing loop leaves exactly the encoded bytes in the word, the first to be sent lowest |
| VariableLengthSizes.VariableLengthSize.Reads | source/io/core/VariableLengthSize.cpp:95-101 | The flag and value reads on the words are those of the abstract decoder |
| VariableLengthSizes.VariableLengthSize.BytesCount | source/io/core/VariableLengthSize.cpp:103-125 | The comparison of marker masks counts the bytes of a complete size, and is 0 otherwise |
| VariableLengthSizes.VariableLengthSize.BytesAreThePrefix | source/io/core/VariableLengthSize.cpp:132-134 | Read least significant byte first, the word is the byte sequence that was accepted |
| VariableLengthSizes.VariableLengthSize.Reset | source/io/core/VariableLengthSize.cpp:127-130 | Back to the fresh state |
| VariableLengthSizes.VariableLengthSize.AddByte | source/io/core/VariableLengthSize.cpp:136-168 | Refines adding a byte to the abstract decoder, and says whether it was taken |
| VariableLengthSizes.VariableLengthSize.AddBytes | source/io/core/VariableLengthSize.cpp:170-184 | Refines adding bytes until complete or failed, and returns how many were used |
| MessageFraming.SentIsReceived | source/io/net/GenericMessageOrientedClientBase.h:36-92 | For every list of messages (the last one not empty) and every cutting of the sent bytes into chunks, a fresh receiver makes exactly the expected calls in order and ends where it started |
| MessageFraming.WithinLimitAllDelivered | source/io/net/GenericMessageOrientedClientBase.h:44-91 | For messages within the limit the expected calls are the messages themselves |
| MessageFraming.CutAnywhere | source/io/net/GenericMessageOrientedClientBase.h:44-91 | Feeding a and then b gives the state of feeding a+b, and the same callbacks exactly unless the size had failed by the end of a non-empty a and b is not empty |
| MessageFraming.CutExample | source/io/net/GenericMessageOrientedClientBase.h:59-63 | Eight marked bytes and one more: cut in two they are reported twice, in one chunk once |
| MessageFraming.CopyStays | source/io/net/GenericMessageOrientedClientBase.h:73-79 | One pass of the loop copies within the buffer if and only if the size has not failed or all that is left fits |
| MessageFraming.AfterFailure | source/io/net/GenericMessageOrientedClientBase.h:44-91 | What a fresh receiver makes of eight marked bytes and anything after them |
| MessageFraming.LeavesBufferExactly | source/io/net/GenericMessageOrientedClientBase.h:77-80 | After any messages, eight marked bytes make the copies leave the buffer if and only if at least as many bytes follow as the buffer holds |
| MessageFraming.StreamThen | source/io/net/GenericMessageOrientedClientBase.h:44-91 | Frames of any messages, empty ones included, and then something: each is reported once and the rest comes to a fresh receiver |
| MessageFraming.LeavesBufferExample | source/io/net/GenericMessageOrientedClientBase.h:77-80 | Eight bytes 0xFF and as many as the buffer holds do it |
| MessageFraming.ChunksDoNotMatter | source/io/net/GenericMessageOrientedClientBase.h:44-91 | While the size decoder does not fail, any chunking gives the same callbacks and state as one byte at a time |
| MessageFraming.StreamOfFrames | source/io/net/GenericMessageOrientedClientBase.h:44-91 | A stream of frames, zero-length and over-limit ones among them, gives each frame's report once and leaves the later ones intact |
| MessageFraming.FrameStretch | source/io/net/GenericMessageOrientedClientBase.h:44-91 | One frame followed by anything gives its report and then what the rest gives |
| MessageFraming.SizeStretch | source/io/net/GenericMessageOrientedClientBase.h:47-69 | Bytes given to the size part are consumed as the size decoder consumes them, with one report when the size is complete and too large, or fails |
| MessageFraming.BodyStretch | source/io/net/GenericMessageOrientedClientBase.h:71-90 | Bytes given to the message part are kept or skipped up to the announced size, and delivered when it is reached |
| MessageFraming.FailureStays | source/io/net/GenericMessageOrientedClientBase.h:44-91 | Once the size has failed nothing is delivered any more |
| MessageFraming.SendData | source/io/net/GenericMessageOrientedClientBase.h:120-167 | Exactly empty messages are refused as invalid and over-limit ones as too long; any other is sent as its size followed by its bytes if and only if a size can announce it, otherwise without a size |
| MessageFraming.MessageReceiver.constructor | source/io/net/GenericMessageOrientedClientBase.h:29-33 | A fresh receiver |
| MessageFraming.MessageReceiver.OnDataReceive | source/io/net/GenericMessageOrientedClientBase.h:36-92 | The loop terminates and makes the calls, and leaves the state, of the reference receiver, for every chunk; a copy has left the buffer if and only if the size has failed and more bytes followed than it holds |
| MessageFraming.MessageReceiver.TakeSizeBytes | source/io/net/GenericMessageOrientedClientBase.h:47-69 | The part of the loop body that reads the size, against the reference receiver |
| MessageFraming.MessageReceiver.CopyMessageBytes | source/io/net/GenericMessageOrientedClientBase.h:71-90 | The part that copies, skips or delivers, against the reference receiver; exactly when its copy does not stay in the buffer |
| MessageFraming.MessageReceiver.Copy | source/io/net/GenericMessageOrientedClientBase.h:77-79 | Bytes of a message within the limit, or after a failed size, are copied behind those before them if they fit, and leave the buffer otherwise; nothing behind them changes |
| MessageFraming.MessageReceiver.Deliver | source/io/net/GenericMessageOrientedClientBase.h:83-90 | A whole message within the limit is delivered from the buffer, and the receiver starts over |
| MessageFraming.MessageReceiver.KeptChunk | source/io/net/GenericMessageOrientedClientBase.h:84-89 | A user who keeps the last message delivered sees it unchanged if and only if what has arrived of the next one starts like it |
| MessageFraming.KeptChunkExample | source/io/net/GenericMessageOrientedClientBase.h:71-90 | A receiver given the message [1, 1] and the first byte of another one, 2, has that message changed to [2, 1] |
| Backlog.LastPeriod | source/io/BacklogWithTimeout.h:74-94 | The shortest period is 2 or 3 ms exactly if the timeout is at least 2 ms; otherwise there is one timer with the timeout itself |
| Backlog.Periods | source/io/BacklogWithTimeout.h:74-94 | The periods start with the timeout, each is half of the one before rounded down, and they go on as long as that is above one |
| Backlog.PlacementExactly | source/io/BacklogWithTimeout.h:181-196 | The bucket for a time left is the first one exactly if no more whole milliseconds are used up than the shortest period or there is no other, and otherwise that of the longest later period that fits into the time left, or the last one |
| Backlog.FreshPlacement | source/io/BacklogWithTimeout.h:181-196 | An item with all its time left goes to the first bucket |
| Backlog.Placement | source/io/BacklogWithTimeout.h:181-196 | The period of the chosen bucket never exceeds the time left by more than the shortest period |
| Backlog.ExpiryExactly | source/io/BacklogWithTimeout.h:157-168 | With 64-bit wrap-around, an item expires early if and only if its timestamp lies in the future by no more than 2^64 less the timeout; for any other it expires exactly from its deadline on |
| Backlog.AheadOfTheClock | source/io/BacklogWithTimeout.h:157-168 | A visit that reports an item whose timestamp is one nanosecond ahead of the clock |
| Backlog.StartTimers | source/io/BacklogWithTimeout.h:80-93 | The halving loop starts one timer per period |
| Backlog.BacklogWithTimeout.constructor | source/io/BacklogWithTimeout.h:74-94 | Empty buckets, one per period |
| Backlog.BacklogWithTimeout.BucketIndexFromTime | source/io/BacklogWithTimeout.h:181-196 | The search finds exactly that bucket |
| Backlog.BacklogWithTimeout.AddItem | source/io/BacklogWithTimeout.h:96-121 | Refused if the timestamp is ahead or the backlog stopped, reported if expired, stored in the bucket for its time left otherwise; and nothing else changes |
| Backlog.BacklogWithTimeout.RemoveItem | source/io/BacklogWithTimeout.h:123-134 | Takes out the first occurrence in the first bucket that has one, and says whether there was one |
| Backlog.BacklogWithTimeout.Stop | source/io/BacklogWithTimeout.h:136-143 | No timers and no items are left |
| Backlog.BacklogWithTimeout.OnTimer | source/io/BacklogWithTimeout.h:146-179 | One visit: each item in order reported, moved to the bucket of its time left, or kept, up to a stop from inside a report |
| Backlog.SweepIs | source/io/BacklogWithTimeout.h:146-179 | A visit that no report stops reports exactly the items that expire, in order, and appends every other one to the bucket for its time left, in order |
| BacklogRuns.NeverEarlyNeverLateNeverLost | source/io/BacklogWithTimeout.h:74-196 | After every run of adding, removing, refreshing timestamps and firing timers with bounded delay: no item left is overdue by more than the shortest period plus the delay, no timer report was early or later than that, and each item was added as often as it is stored, reported and removed together |
| BacklogRuns.StoppedByReport | source/io/BacklogWithTimeout.h:157-168 | When, after any run, a report stops the backlog in the middle of a visit: that visit's reports were neither early nor late, and what is dropped is what was added and neither reported nor removed |
| BacklogRuns.EveryAddCounts | source/io/BacklogWithTimeout.h:96-121 | In every run each item asked to be added is counted as added, and one reported at that moment was expired |
| BacklogRuns.NextKeepsInv | source/io/BacklogWithTimeout.h:96-196 | Each step keeps every item's deadline, plus the shortest period, no earlier than the next visit of its bucket, timestamps moved forward included |
| BacklogRuns.VisitKeepsTime | source/io/BacklogWithTimeout.h:146-179 | Halfway through a visit, what is moved or kept will be visited in time and what is reported is due |
| BacklogRuns.NextConserves | source/io/BacklogWithTimeout.h:96-196 | Each step conserves the number of every item |
| BacklogRuns.ItemConserved | source/io/BacklogWithTimeout.h:146-179 | A visited item is kept, moved or reported exactly once |
| BacklogRuns.RunKeeps | source/io/BacklogWithTimeout.h:74-196 | The invariants over whole runs |
| LinkedHeap.ExchangeRelinks | thirdparty/libuv-1.30.1/src/heap-inl.h:72-104 | The links after exchanging two nodes are those of a complete tree with the two in each other's place |
| LinkedHeap.RootIsLeast | thirdparty/libuv-1.30.1/src/heap-inl.h:67-69 | In a heap-ordered tree nothing is below the root, for any strict weak order |
| LinkedHeap.SiftUpStep | thirdparty/libuv-1.30.1/src/heap-inl.h:143-147 | One exchange upwards keeps everything ordered but the moved node against its new parent |
| LinkedHeap.SiftDownStep | thirdparty/libuv-1.30.1/src/heap-inl.h:216-229 | One exchange with the lesser child keeps everything ordered but around the moved node |
| LinkedHeap.WalkBack | thirdparty/libuv-1.30.1/src/heap-inl.h:122-124 | A bit of the node number is a step of the way from the root |
| LinkedHeap.Heap.constructor | thirdparty/libuv-1.30.1/src/heap-inl.h:62-65 | The empty heap |
| LinkedHeap.Heap.MinIsLeast | thirdparty/libuv-1.30.1/src/heap-inl.h:67-69 | The minimum is empty exactly for the empty heap, and otherwise a member that no member is below |
| LinkedHeap.Heap.SwapLinks | thirdparty/libuv-1.30.1/src/heap-inl.h:72-104 | What the pointer assignments leave in the two nodes and each of their neighbours |
| LinkedHeap.Heap.ExchangeNodes | thirdparty/libuv-1.30.1/src/heap-inl.h:72-104 | The links of every node of the tree after the exchange |
| LinkedHeap.Heap.NodeSwap | thirdparty/libuv-1.30.1/src/heap-inl.h:72-104 | The linked tree stays complete and well linked, with the two nodes exchanged |
| LinkedHeap.Heap.PathTo | thirdparty/libuv-1.30.1/src/heap-inl.h:119-124 | The bits collected lead from the root to the wanted place |
| LinkedHeap.Heap.FindSlot | thirdparty/libuv-1.30.1/src/heap-inl.h:126-136 | Following them ends at the field that holds, or will hold, the node there, and its parent's |
| LinkedHeap.Heap.SiftUp | thirdparty/libuv-1.30.1/src/heap-inl.h:143-147 | Restores the order from one node too low, keeping the nodes |
| LinkedHeap.Heap.SmallestOfThree | thirdparty/libuv-1.30.1/src/heap-inl.h:220-227 | The lesser child if one is below the node, else the node |
| LinkedHeap.Heap.SiftDown | thirdparty/libuv-1.30.1/src/heap-inl.h:216-229 | Restores the order below one node, keeping the nodes |
| LinkedHeap.Heap.Attach | thirdparty/libuv-1.30.1/src/heap-inl.h:138-141 | The new node hangs in the first free place |
| LinkedHeap.Heap.Insert | thirdparty/libuv-1.30.1/src/heap-inl.h:106-148 | Completeness, links and order are kept, for any strict weak order, and exactly that node is added |
| LinkedHeap.Heap.UnlinkLast | thirdparty/libuv-1.30.1/src/heap-inl.h:163-193 | The last node is cut off |
| LinkedHeap.Heap.ReplaceLinks | thirdparty/libuv-1.30.1/src/heap-inl.h:195-214 | What the assignments leave in the neighbours of the replaced node |
| LinkedHeap.Heap.ReplaceNode | thirdparty/libuv-1.30.1/src/heap-inl.h:195-214 | The links of every node of the tree after the replacement |
| LinkedHeap.Heap.Replace | thirdparty/libuv-1.30.1/src/heap-inl.h:195-214 | The tree with the last node in place of the removed one |
| LinkedHeap.Heap.Remove | thirdparty/libuv-1.30.1/src/heap-inl.h:150-237 | Completeness, links and order are kept and exactly that member is removed; an empty heap stays empty |
| LinkedHeap.Heap.Dequeue | thirdparty/libuv-1.30.1/src/heap-inl.h:239-241 | Exactly the minimum is removed |
| Timers.TimerOrder | thirdparty/libuv-1.30.1/src/timer.c:38-60 | Comparing by timeout and then by start number is a strict weak order |
| Timers.TimerLoop.constructor | thirdparty/libuv-1.30.1/src/timer.c:29-35 | No timers |
| Timers.TimerLoop.TimerInit | thirdparty/libuv-1.30.1/src/timer.c:63-68 | A new handle is known and inactive |
| Timers.TimerLoop.TimerStart | thirdparty/libuv-1.30.1/src/timer.c:71-99 | The handle is active under the time now and its timeout together, or the largest time if that is beyond it, and the next start number, restarted if it was active; no other timer changes |
| Timers.TimerLoop.StartStopped | thirdparty/libuv-1.30.1/src/timer.c:80-98 | The same for a handle that is not in the heap |
| Timers.TimerLoop.TimerStop | thirdparty/libuv-1.30.1/src/timer.c:102-112 | The handle is inactive and out of the heap; active handles are exactly the nodes of the heap |
| Timers.TimerLoop.TimerAgain | thirdparty/libuv-1.30.1/src/timer.c:115-125 | A repeating timer is restarted, due after its repeat, any other is left as it is |
| Timers.TimerLoop.NextTimeout | thirdparty/libuv-1.30.1/src/timer.c:138-156 | -1 without timers, 0 if one is due, otherwise the time to the earliest, cut at the largest int |
| Timers.TimerLoop.TakeDue | thirdparty/libuv-1.30.1/src/timer.c:163-173 | The earliest timer if it is due, stopped and restarted if it repeats, before all other active ones; if none is due, none is taken and nothing changes |
| Timers.TimerLoop.RunTimers | thirdparty/libuv-1.30.1/src/timer.c:159-176 | Whatever timers the callbacks initialise, start, stop, restart or close, every call is that of the active timer that is due and before all others, under its key, and the timers between two calls are exactly those that the taking and the callback leave; when it returns no active timer is due |
| Timers.CalledInOrder | thirdparty/libuv-1.30.1/src/timer.c:159-176 | Callbacks come in strictly increasing order of due time and start number, and never before they are due |
| Timers.CalledIfDue | thirdparty/libuv-1.30.1/src/timer.c:159-176 | A timer active at the start that no callback touches is called if and only if it is due when the loop returns |
| Timers.WaitsOrCalled | thirdparty/libuv-1.30.1/src/timer.c:159-176 | At every moment such a timer waits as it did or has been called under its key |
| Timers.TimerLoop.PerformOn | thirdparty/libuv-1.30.1/src/timer.c:71-130 | Each call on a known handle, on the heap, does to the timers what it means |
| Timers.DoIs | thirdparty/libuv-1.30.1/src/timer.c:63-130 | What each of these calls does to its timer, due times included, and that it changes no other |
| Timers.TookIs | thirdparty/libuv-1.30.1/src/timer.c:172-173 | Once called, a timer is active again exactly if it repeats, and then due after its repeat |
| Timers.StartedNotEarly | thirdparty/libuv-1.30.1/src/timer.c:83-88 | A timer that a callback starts, and nothing touches after that, is not called before the time of its start and its timeout together, or the end of time |
| Timers.RepeatedNotEarly | thirdparty/libuv-1.30.1/src/timer.c:115-125 | A timer that nothing touches is called again only if it repeats, and not before its repeat has passed |
| IntrusiveQueue.Init | thirdparty/libuv-1.30.1/src/queue.h:45-49 | The empty queue |
| IntrusiveQueue.IsEmpty | thirdparty/libuv-1.30.1/src/queue.h:39-40 | True exactly for the empty queue |
| IntrusiveQueue.Head | thirdparty/libuv-1.30.1/src/queue.h:42-43 | The first element |
| IntrusiveQueue.InsertHead | thirdparty/libuv-1.30.1/src/queue.h:83-90 | Puts an element in front |
| IntrusiveQueue.InsertTail | thirdparty/libuv-1.30.1/src/queue.h:92-99 | Appends an element |
| IntrusiveQueue.Remove | thirdparty/libuv-1.30.1/src/queue.h:101-106 | Takes an element out from anywhere; its own links stay |
| IntrusiveQueue.Split | thirdparty/libuv-1.30.1/src/queue.h:61-70 | Everything from an element on goes to another queue |
| IntrusiveQueue.Move | thirdparty/libuv-1.30.1/src/queue.h:72-81 | Everything goes to another queue, also if there is nothing |
| IntrusiveQueue.ElementsAreLinked | thirdparty/libuv-1.30.1/src/queue.h:39-40 | The emptiness test on an element of a queue fails |
| ThreadPool.EveryRequestOnce | thirdparty/libuv-1.30.1/src/threadpool.c:57-315 | In every interleaving each request is in exactly one place until its done callback, which comes once and at its loop; its function runs at most once, and the callback reports cancellation exactly if it never ran |
| ThreadPool.SlowWorkIsCapped | thirdparty/libuv-1.30.1/src/threadpool.c:45-160 | In every reachable state the slow-work counter is the number of workers on slow work, twice that is at most the number of threads and one, and pending slow work is announced in the queue and waits only if twice that is at least the number of threads |
| ThreadPool.NoWorkIsStranded | thirdparty/libuv-1.30.1/src/threadpool.c:57-160 | No wakeup is lost: if the wait condition is false and a worker sleeps, another is on its way; if all sleep, nothing is waiting |
| ThreadPool.EveryRequestIsDone | thirdparty/libuv-1.30.1/src/threadpool.c:57-315 | From every reachable state, with nothing more submitted or cancelled and no spurious wake-up, every scheduling comes to rest within a bound, and then every request has had its done callback |
| ThreadPool.AsSubmitted | thirdparty/libuv-1.30.1/src/threadpool.c:256-266 | In every run, from its submission on, a request waits for its done callback and is called back only at the loop it was submitted with, and runs as work of the kind it was submitted as |
| ThreadPool.CancelsExactly | thirdparty/libuv-1.30.1/src/threadpool.c:269-292 | Cancelling takes effect if and only if the work has not been started, and changes nothing otherwise |
| ThreadPool.CancelledNeverRuns | thirdparty/libuv-1.30.1/src/threadpool.c:269-315 | In every run a request so cancelled never runs, and its done callback is called once at most, at its loop, with the cancelled status |
| ThreadPool.StartedInOrder | thirdparty/libuv-1.30.1/src/threadpool.c:80-160 | In every run, once the later of two requests of one kind has been started, the earlier one no longer waits |
| ThreadPool.CalledInOrder | thirdparty/libuv-1.30.1/src/threadpool.c:295-315 | From every reachable state, done callbacks of a loop come in the order of its queue, unless the earlier one is cancelled in between |
| ThreadPool.OwnStepCosts | thirdparty/libuv-1.30.1/src/threadpool.c:57-315 | Each step the pool and the loops make by themselves decreases that bound, the message put back to the end of the queue included |
| ThreadPool.AtRestAllDone | thirdparty/libuv-1.30.1/src/threadpool.c:57-315 | Where no such step is possible all workers sleep, all queues are empty and every request is done |
| ThreadPool.OwnRunIsShort | thirdparty/libuv-1.30.1/src/threadpool.c:57-315 | The bound over whole runs |
| ThreadPool.NextSchedules | thirdparty/libuv-1.30.1/src/threadpool.c:45-160 | Each step keeps the scheduling invariant, with a worker on its way for every entry that can be taken while any sleeps |
| ThreadPool.NextTracks | thirdparty/libuv-1.30.1/src/threadpool.c:57-315 | Each step keeps every request in one place, with its work pointer saying which |
| ThreadPool.NextAtHome | thirdparty/libuv-1.30.1/src/threadpool.c:57-315 | Each step keeps every result, and every done callback, at the loop of its request |
| ThreadPool.NextSorted | thirdparty/libuv-1.30.1/src/threadpool.c:57-160 | Each step keeps slow work in its own queue and running as such |
| ThreadPool.NextOneCancel | thirdparty/libuv-1.30.1/src/threadpool.c:269-292 | At most one cancellation is half done per loop |
| ThreadPool.SubmitSchedules | thirdparty/libuv-1.30.1/src/threadpool.c:142-160 | Posting work wakes a worker if one sleeps |
| ThreadPool.TakeSchedules | thirdparty/libuv-1.30.1/src/threadpool.c:80-117 | Taking work, slow work behind its message included, keeps the scheduling invariant |
| ThreadPool.CancelTracks | thirdparty/libuv-1.30.1/src/threadpool.c:269-292 | Cancelling moves a request that has not started |
| ThreadPool.RunKeeps | thirdparty/libuv-1.30.1/src/threadpool.c:57-315 | The invariants over whole runs |
| PathElements.ForwardVisitsElements | source/io/fs/Path.cpp:679-755 | For every path, incrementing visits exactly its elements, a network name and its root included, at strictly rising positions, ending at the end |
| PathElements.ElementsAre | source/io/fs/Path.cpp:679-755 | The elements of a path without a network name are the last of its leading separators, exactly its longest stretches without separators, and a dot exactly if a separator ends it |
| PathElements.NetElementsAre | source/io/fs/Path.cpp:679-755 | The same behind a network name and its root |
| PathNormal.PositionsRise | source/io/fs/Path.cpp:709-755 | The positions of the elements rise |
| PathElements.BackwardVisitsElements | source/io/fs/Path.cpp:757-790 | Decrementing from the end visits the same elements and positions in reverse, for every path without three leading separators other than two separators alone |
| PathElements.ReversesExactly | source/io/fs/Path.cpp:699-790 | Decrementing reverses incrementing if and only if the path does not start with three separators and is not two separators alone |
| PathElements.ReverseExample | source/io/fs/Path.cpp:757-790 | In a path of three separators and a name the root stands at 2 going forward and at 0 going backward |
| PathElements.NothingFromBehind | source/io/fs/Path.cpp:757-790 | Two separators alone are an element whose text is empty when reached from the end |
| PathElements.NetStepsBack | source/io/fs/Path.cpp:757-790 | Behind a network name too, stepping back undoes stepping forward |
| PathElements.RootSeparator | source/io/fs/Path.cpp:457-482 | The backward loop decides whether a separator is a root separator |
| PathElements.FirstElement | source/io/fs/Path.cpp:564-624 | Position and length of the first element without extra separators |
| PathElements.Iterator.constructor | source/io/fs/Path.cpp:679-689 | Starts at the first element |
| PathElements.Iterator.Increment | source/io/fs/Path.cpp:699-755 | The in-place step forward is the specified one |
| PathElements.Iterator.Decrement | source/io/fs/Path.cpp:757-790 | The in-place step backward is the specified one |
| PathElements.BackToName | source/io/fs/Path.cpp:757-790 | From the separators after a name, a step back goes to that name |
| PathElements.BackToDot | source/io/fs/Path.cpp:757-790 | From the end after trailing separators, a step back goes to the dot |
| PathNormal.NormalKeepsThePlace | source/io/fs/Path.cpp:371-440 | For every path without a network name: the normal form resolves to the same place from every directory, has dots only at its ends and no parent step after a name it would take away, stays as it is when normalised again, and keeps a leading separator single |
| PathNormal.NormalPathKeepsThePlace | source/io/fs/Path.cpp:371-440 | The same for every path: a network name stays in front, and what follows it is normalised, resolves to the same place and stays as it is when normalised again |
| PathNormal.KeepsDotNameExactly | source/io/fs/Path.cpp:389-423 | The normal form has a name of two characters with a dot among them before a parent step if and only if such a name is followed by elements that cancel out and then by a parent step |
| PathNormal.NormalPathKeepsDotName | source/io/fs/Path.cpp:389-423 | The same for every path |
| PathNormal.KeptAtTurn | source/io/fs/Path.cpp:389-423 | After every turn: if and only if such a name was the last one kept at a turn for a parent step |
| PathNormal.DotDotBehind | source/io/fs/Path.cpp:394-407 | A name followed by a parent step stays exactly if it is one or two dots or has two characters with a dot among them; otherwise a dot is left |
| PathNormal.DotNameExample | source/io/fs/Path.cpp:394-407 | The path a./.. stays as it is, ab/.. becomes a dot |
| PathNormal.LexicallyNormal | source/io/fs/Path.cpp:371-440 | The loop over iterators and strings computes the normal form of every path |
| PathNormal.Turn | source/io/fs/Path.cpp:380-435 | One turn of that loop is one turn on the list of elements |
| PathNormal.NormalTextsAre | source/io/fs/Path.cpp:371-440 | The loop leaves what is left when dots, and names with a parent step right behind them, are left out, with a first and a last dot kept and a dot for nothing at all |
| PathNormal.LeftOut | source/io/fs/Path.cpp:380-435 | Dots, and names with a parent step right behind them, can be left out anywhere without changing what is left |
| PathNormal.NothingLeftOut | source/io/fs/Path.cpp:380-435 | Where there are none of them, all is left |
| PathNormal.NormalPathIs | source/io/fs/Path.cpp:371-440 | So for the elements of every path and of its normal form |
| PathNormal.LastDotStays | source/io/fs/Path.cpp:424-430 | A last dot behind something else is kept, and then a dot stands before it for nothing at all |
| PathNormal.TrailingSeparatorStays | source/io/fs/Path.cpp:424-430 | Normalising a path with separators at its end appends a dot to the normal form without them |
| PathNormal.TrailExample | source/io/fs/Path.cpp:424-430 | The path foo/../ becomes ./. and foo/ becomes foo/. |
| PathNormal.NormalTextsMean | source/io/fs/Path.cpp:371-440 | On element lists, normalising keeps where they lead |
| PathNormal.NormalTextsTwice | source/io/fs/Path.cpp:371-440 | On element lists, normalising is idempotent |
| PathNormal.ParentAndFilename | source/io/fs/Path.cpp:295-312 | For every path, parent path and filename appended have the elements of the path |
| PathNormal.ComputeParentPathEnd | source/io/fs/Path.cpp:274-293 | The loop finds the end of the parent path |
| PathNormal.JoinElements | source/io/fs/Path.cpp:98-116 | Appending texts one by one and iterating the result gives the texts back |
| PathNormal.JoinTakenApart | source/io/fs/Path.cpp:274-312 | Filename and parent of a path appended from texts are the last text and the path of the others |
| PathNormal.JoinShape | source/io/fs/Path.cpp:98-116 | What a path appended from texts looks like: never two leading separators, ending in a name unless it is the root |
| PathNormal.EndInName | source/io/fs/Path.cpp:274-312 | Filename and parent of any path that ends in a name |
| PathNormal.EndInSeparators | source/io/fs/Path.cpp:274-312 | Filename and parent of any path that ends in separators after a name |
| PathNormal.OnlySeparators | source/io/fs/Path.cpp:274-312 | Filename and parent of a path of separators, two of them included |
| PathNormal.NetEndInName | source/io/fs/Path.cpp:274-312 | Filename and parent of a path that starts with a network name and ends in another one |
| PathNormal.NetEndInSeparators | source/io/fs/Path.cpp:274-312 | Filename and parent of a network name followed by separators |
| PathNormal.NetTexts | source/io/fs/Path.cpp:679-755 | A path that starts with a network name has that as its first element and then those of the rest |
| FileReader.EveryRun | source/io/fs/File.cpp:140-577 | In every state of every run: at most one read in flight, never into a buffer a user holds, whose contents stay as handed over; one loop block per busy buffer; a reader that could go on is reading or all four buffers are busy; the chunks are the front of the file at the offsets they say and the end came only after all of it; removal is carried out only when closed with no buffer busy and no read in flight |
| FileReader.NothingAfterTheEnd | source/io/fs/File.cpp:510-557 | In every run, once the end or an error has been reported no read is under way and the user is not called until the file is opened or asked to be read again |
| FileReader.ReadsOnlyOpen | source/io/fs/File.cpp:318-330 | No event starts a read of a file that is closed, being closed or to be removed |
| FileReader.RunKeeps | source/io/fs/File.cpp:140-577 | The whole invariant, which also says that a removal asked for is never forgotten, over all runs |
| FileReader.NextKeeps | source/io/fs/File.cpp:140-577 | Each event keeps it, whatever the user does inside callbacks |
| FileReader.StaleExactly | source/io/fs/File.cpp:510-522 | The in-progress flag outlives its read exactly if the read came back to a closed file, and nothing clears it afterwards |
| FileReader.StalledSession | source/io/fs/File.cpp:318-356 | A session opened with that flag left over never reads; in any other the flag says whether a read is in flight |
| FileReader.StallExample | source/io/fs/File.cpp:318-356 | A run in which it happens: a reopened file that was asked to read, with four free buffers, is not read |
| FileReader.RemovalReturnsExactly | source/io/fs/File.cpp:140-182 | Through the calls it makes (marking, closing, the callback called at once, the next request), a removal request returns within some depth if and only if no close is under way or a buffer is in use; when it does, it has done what the step of a run does |
| FileReader.RemovalNests | source/io/fs/File.cpp:140-182 | Otherwise no depth of calls is enough |
| FileReader.CallbackReturns | source/io/fs/File.cpp:144-151 | Called when the close has completed, the callback returns |
| FileReader.RemovalExample | source/io/fs/File.cpp:140-182 | A run in which it happens: opened, closed, and asked to be removed before the close has completed |
| FileReader.HandedOverAtMost | source/io/fs/File.cpp:637-643 | In every run a file is handed over to be deleted at most as often as that was asked for, so at most once for one request |
| FileReader.HandedOverAgainExactly | source/io/fs/File.cpp:637-643 | In every run a file is handed over more than once if and only if a removal is asked for when one was asked for before, the file is closed and no buffer is in use |
| FileReader.HandsOverAgain | source/io/fs/File.cpp:137-159 | A file that was handed over is handed over again by every further request and by no other event |
| FileReader.HandedOverTwice | source/io/fs/File.cpp:637-643 | Two requests for a file that was never opened hand it over twice |
| FileReader.NextHeld | source/io/fs/File.cpp:140-577 | No event touches a buffer that someone holds, other than the one copied or released |
| FileReader.ScheduleReadKeeps | source/io/fs/File.cpp:318-391 | Starting a read keeps the invariant and leaves no reader idle that could read |
| FileReader.BufferFreedKeeps | source/io/fs/File.cpp:366-388 | So does the deleter of a buffer, including a removal that waited for it |
| FileReader.ChunkKeeps | source/io/fs/File.cpp:547-553 | Handing over a chunk keeps the session in order |
| FileReader.EndKeeps | source/io/fs/File.cpp:536-543 | So does the end, called with the whole file handed over |
| FileReader.File.constructor | source/io/fs/File.cpp:122-126 | A fresh reader keeps the invariant |
| FileReader.File.HasReadBuffersInUse | source/io/fs/File.cpp:403-411 | True exactly if some buffer is busy |
| FileReader.File.ScheduleNextRead | source/io/fs/File.cpp:318-356 | The conditions and the search for a free buffer: the invariant is kept, a reader that could read is reading or has no buffer left, and nobody's buffer is touched |
| FileReader.File.Promises | source/io/fs/File.cpp:318-411 | Whenever the object is between two calls: at most one read in flight, none into a held buffer, held buffers as handed over, one block per busy buffer, chunks in order, and no removal before its time |
| FileReader.File.Handle | source/io/fs/File.cpp:140-577 | Any event keeps the invariant, does what a step of a run does, and touches nobody's buffer but the one copied or released |
| FileReader.File.OnBufferFreed | source/io/fs/File.cpp:366-388 | The deleter restores the invariant from a buffer that nobody holds, touching no held one |
| FileReader.File.ResetRequest | source/io/fs/File.cpp:510-557 | A request that lets go restores the invariant, its buffer going to its users or being freed |
| FileReader.File.RemoveLater | source/io/fs/File.cpp:140-161 | The invariant is kept, the removal remembered, and carried out if and only if the file is closed and no buffer in use |
| FileReader.File.CopyChunk | source/io/fs/File.cpp:548-553 | Keeping a chunk keeps the invariant |
| FileReader.File.ReleaseChunk | source/io/fs/File.cpp:366-388 | One holder fewer, the invariant kept, and all other chunks as they are |
| FileReader.File.StartReading | source/io/fs/File.cpp:236-251 | Afterwards the invariant holds and a reader that could read is reading or has no buffer left; a closed file reports that it is not open |
| FileReader.File.CloseFile | source/io/fs/File.cpp:167-205 | The invariant is kept, an open file is being closed and any other is as it was, and no buffer changes |
| FileReader.File.CloseCompleted | source/io/fs/File.cpp:560-577 | The invariant is kept and the file closed; a removal is carried out if and only if it asked for the close and no buffer is in use, and otherwise waits for the buffers |
| FileReader.File.OpenCompleted | source/io/fs/File.cpp:217-234 | A session starts at the beginning, buffers still held from the one before included |
| FileReader.File.ReadCompleted | source/io/fs/File.cpp:510-551 | The invariant is kept and the user called exactly once: with as many of the next bytes of the file as were read, at their offset, with the end if none were, with an error if the read failed or the file is closed |
| FileReader.File.CallbackReturned | source/io/fs/File.cpp:543-556 | The invariant is kept and a reader that could read is reading or has no buffer left |
| RemoveDir.RemoveDirectory | source/io/fs/Dir.cpp:634-666 | Terminates for every tree; succeeds exactly if the root is a directory and nothing in it is blocked; then everything in it is gone and each of its directories was removed once, none before one inside it; otherwise it names something blocked, or the root if that is no directory; in no case is anything outside touched |
| RemoveDir.Pass | source/io/fs/Dir.cpp:641-664 | One turn of the loop keeps the stack invariant and makes the set of directories left, or of those not visited, smaller |
| RemoveDir.RemoveDirEntry | source/io/fs/Dir.cpp:581-632 | One visit: exactly files directly in the directory go, its subdirectories are pushed once each, and a failure names what is blocked |
| RemoveDir.PushKeepsStack | source/io/fs/Dir.cpp:623-625 | Pushing subdirectories keeps every directory above its processed parent, none twice, and uses up an unvisited one |
| RemoveDir.PopKeepsStack | source/io/fs/Dir.cpp:647-663 | Removing the top keeps the stack in order and uses up a directory |
| RemoveDir.DirectoryProgress | source/io/fs/Dir.cpp:647-663 | A directory is logged only after everything inside it |
| RemoveDir.AllGone | source/io/fs/Dir.cpp:634-666 | With the root gone, all of its subtree is gone and the log lists exactly its directories |
| InetAddress.RoundTrip6 | thirdparty/libuv-1.30.1/src/inet.c:67-147 | Parsing the printed form of any sixteen bytes gives them back, whichever run of zeros is left out, at the front, in the middle or at the end, and with an IPv4 tail |
| InetAddress.Ntop6 | thirdparty/libuv-1.30.1/src/inet.c:67-147 | The printing loop writes an IPv4-mapped or IPv4-compatible address with its IPv4 part, any other in groups with the leftmost longest run of at least two zero groups left out; in lower case, without leading zeros, in fewer than 46 characters, and it parses back |
| InetAddress.PrintedForm | thirdparty/libuv-1.30.1/src/inet.c:125-137 | Which addresses are printed with an IPv4 address at the end, on the groups alone |
| InetAddress.Text6Tidy | thirdparty/libuv-1.30.1/src/inet.c:104-147 | Every address is printed in lower case and without leading zeros |
| InetAddress.FindBest | thirdparty/libuv-1.30.1/src/inet.c:88-111 | One pass finds the leftmost longest run of zeros, or none shorter than two |
| InetAddress.BestIsUnique | thirdparty/libuv-1.30.1/src/inet.c:88-111 | There is only one such run |
| InetAddress.GatherWords | thirdparty/libuv-1.30.1/src/inet.c:85-87 | The byte loop assembles the eight groups |
| InetAddress.TextFits | thirdparty/libuv-1.30.1/src/inet.c:67-147 | No printed address is longer than 45 characters |
| InetAddress.Pton6 | thirdparty/libuv-1.30.1/src/inet.c:218-302 | The parsing loop, in place, accepts and stores what the reference parser does |
| InetGrammar.Parses6Exactly | thirdparty/libuv-1.30.1/src/inet.c:218-302 | A text is accepted as an address if and only if it is one of its texts: groups of one to four digits in either case joined by colons, perhaps an IPv4 address for the last two, perhaps once two colons for one or more groups of zeros |
| InetGrammar.AcceptsForm | thirdparty/libuv-1.30.1/src/inet.c:218-302 | Every such text is accepted, with the octets it stands for |
| InetGrammar.AcceptsOnlyForms | thirdparty/libuv-1.30.1/src/inet.c:218-302 | Whatever is accepted, from any point of the text on, is what is left of such a text |
| InetGrammar.AcceptsOnlyTexts | thirdparty/libuv-1.30.1/src/inet.c:218-302 | Whatever is accepted from the beginning is such a text |
| InetAddress.ShiftRight6 | thirdparty/libuv-1.30.1/src/inet.c:287-296 | The hand-made move puts the zeros back in the middle |
| InetAddress.FinishAddress | thirdparty/libuv-1.30.1/src/inet.c:282-301 | A left-out run is filled in, and an incomplete address refused |
| InetAddress.RunPutBack | thirdparty/libuv-1.30.1/src/inet.c:282-297 | Filling in the zeros gives the address the run was left out of |
| InetAddress.ReadsJoinedThen | thirdparty/libuv-1.30.1/src/inet.c:236-265 | Groups joined by colons are read as these groups |
| InetAddress.ReadsV4 | thirdparty/libuv-1.30.1/src/inet.c:266-273 | An IPv4 tail is read as its four bytes |
| InetAddress.ParsesExactly4 | thirdparty/libuv-1.30.1/src/inet.c:179-215 | An IPv4 text is accepted exactly if it is what printing the result gives |
| InetAddress.AcceptsOnlyPrinted4 | thirdparty/libuv-1.30.1/src/inet.c:179-215 | Whatever is accepted, from any point of the text on, is what printing gives |
| InetAddress.RoundTrip4 | thirdparty/libuv-1.30.1/src/inet.c:53-64 | Parsing a printed IPv4 address gives it back |
| InetAddress.Pton4 | thirdparty/libuv-1.30.1/src/inet.c:179-215 | The parsing loop, in place, against the reference parser |
| Utf8Facet.RoundTrip | source/io/fs/path_impl/Utf8CodecvtFacet.cpp:45-180 | Decoding the encoding of any sequence of values up to 0x7FFFFFFF gives it back, all octets used |
| Utf8Facet.EncodesBackExactly | source/io/fs/path_impl/Utf8CodecvtFacet.cpp:45-180 | Encoding what a call without error has decoded gives the octets it used if and only if no two neighbours of them start an overlong character |
| Utf8Facet.OneBack | source/io/fs/path_impl/Utf8CodecvtFacet.cpp:45-180 | One character is encoded as it came, or starts differently, exactly as its first two octets are overlong |
| Utf8Facet.BeforeError | source/io/fs/path_impl/Utf8CodecvtFacet.cpp:45-119 | What a call puts out before an error is what the octets before the bad character come to by themselves, and it stops exactly at the bad octet |
| Utf8Facet.HowItEnds | source/io/fs/path_impl/Utf8CodecvtFacet.cpp:45-119 | A call ends with all input used, with the room filled, at a character that is cut off, or at a bad octet, and says which |
| Utf8Facet.OverlongExample | source/io/fs/path_impl/Utf8CodecvtFacet.cpp:45-100 | 0xC1 0x81 decodes to 0x41, which is one octet |
| Utf8Facet.InResumed | source/io/fs/path_impl/Utf8CodecvtFacet.cpp:45-120 | Unless the first call met an error, resuming where it stopped, with room of its own and maybe more input, comes to what one call with the room together does: status, input used and output |
| Utf8Facet.OutResumed | source/io/fs/path_impl/Utf8CodecvtFacet.cpp:122-180 | The same for encoding |
| Utf8Facet.OutIs | source/io/fs/path_impl/Utf8CodecvtFacet.cpp:122-180 | A call puts out whole characters only, as many as fit, and is done exactly if all fitted |
| Utf8Facet.OutAll | source/io/fs/path_impl/Utf8CodecvtFacet.cpp:122-180 | With room for all, everything is put out |
| Utf8Facet.DecodesOne | source/io/fs/path_impl/Utf8CodecvtFacet.cpp:45-120 | The octets of a character, whatever follows, decode to it |
| Utf8Facet.DecodedFits | source/io/fs/path_impl/Utf8CodecvtFacet.cpp:45-120 | No decoded character exceeds 31 bits, overlong forms included |
| Utf8Facet.LeadBack | source/io/fs/path_impl/Utf8CodecvtFacet.cpp:212-278 | The first octet is valid and tells how many follow and the high bits |
| Utf8Facet.GroupsBack | source/io/fs/path_impl/Utf8CodecvtFacet.cpp:150-166 | The six-bit groups put together give the character |
| Utf8Facet.DoOut | source/io/fs/path_impl/Utf8CodecvtFacet.cpp:122-180 | The encoding loop over a buffer, against the reference |
| Utf8Facet.PutCharacter | source/io/fs/path_impl/Utf8CodecvtFacet.cpp:147-172 | The octets of one character, as far as there is room |
| Utf8Facet.DoIn | source/io/fs/path_impl/Utf8CodecvtFacet.cpp:45-120 | The decoding loop over a buffer, against the reference, with its error positions |
| Utf8Facet.TakeCharacter | source/io/fs/path_impl/Utf8CodecvtFacet.cpp:80-103 | The octets after the first, up to an invalid one or the end |

## Left out

- Sockets, TLS, DTLS, DNS, the event loop, timers and reference-counting wrappers: they pass calls on to libraries that are not modelled.
- Other utilities (status codes, loggers, version, hashing, locale conversion, IDNA, file polling): they would only add easy members.
- MessageFraming.MessageReceiver.OnDataReceive: what a copy that leaves the buffer does to other memory is not modelled, only that it happens; the receive callback is taken to be set, and fewer than 2^64-1 bytes are taken to follow a failure.
- Message framing: the branch that passes on a connection error, and the send callbacks.
- MessageFraming.SentIsReceived: a message list that ends in an empty message is excluded, since that one is delivered only when the next byte arrives; the sender refuses empty messages.
- BacklogRuns.NeverEarlyNeverLateNeverLost: runs end where a report stops the backlog, which is BacklogRuns.StoppedByReport; reports that add or remove items of the same backlog are not modelled.
- ThreadPool.CalledInOrder: excludes a cancellation of the earlier request, which takes its result out of the queue and puts it back at the end.
- Thread pool: starting the threads, forking and the exit message.
- Timers: the wrap-around of the 64-bit start counter; what closing a handle does besides stopping its timer.
- Timers.TimerLoop.RunTimers: a run is followed for as many callbacks as its script describes, so that runs that never end are covered by all their beginnings.
- IntrusiveQueue: concatenation and iteration, which would only add easy members.
- Paths: Windows branches.
- PathElements.BackwardVisitsElements: excludes the paths for which it is false, which PathElements.ReversesExactly names.
- PathNormal.TrailingSeparatorStays: leaves out a dot or nothing but a network name before the separators; PathNormal.NormalPathIs is about all paths.
- PathNormal.NormalKeepsThePlace: is about paths without a network name; PathNormal.NormalPathKeepsThePlace is about all.
- FileReader.EveryRun: opening is one step, and happens only when no read of an earlier session is in flight and no removal has been asked for; callbacks are taken to be given.
- File reading: reading single blocks, file information, errors reported at once by the system, and the Windows way of opening.
- RemoveDir.RemoveDirectory: a listing is a snapshot that does not fail; nothing else changes the tree meanwhile; the failing operations are fixed for a run.
- InetAddress.Ntop6: the copy into the caller's buffer and its error for too little room, and the zone suffix of scoped addresses.
- Utf8Facet.EncodesBackExactly: is about calls that end without an error; Utf8Facet.BeforeError reduces the others to it.
- Utf8Facet.DoOut: negative wide characters and 16-bit wide characters; measuring the length of input without converting it.
