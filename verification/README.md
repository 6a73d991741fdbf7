# A verified model of libhv's hard parts

The application in this repository runs on the networking library libhv, which it carries under
`src-libhv/`. This project models the data structures, codecs and protocols of that library whose correctness is
not apparent from reading one function, and proves what the code promises about them, for every input, every
split of a stream and every interleaving of threads. `dafny verify dfyconfig.toml` checks all of it.

| files | what they model |
|---|---|
| `RbShape`, `RbInsert`, `RbErase`, `RbSlots`, `RbMeaning`, `RbTree`, `Rudp` | the red-black tree with parent pointers and the map from addresses to entries built on it |
| `HeapShape`, `MinHeap`, `Timers` | the pointer heap addressed by the bits of its size, and the timers it holds |
| `Dispatch` | pending events, dispatch by priority, deferred deletion |
| `PermuteArgs` | the block exchange in situ by gcd cycles |
| `WsFrame`, `WsParser`, `WsMessages`, `WsChannel`, `WsExamples` | WebSocket framing, masking, fragmentation and reassembly; the frames of section 5.7 of RFC 6455 |
| `MpMatch`, `Multipart`, `MpForm`, `MpRoundTrip`, `MpExact`, `MpFiles` | the multipart scanner, multipart forms and file parts |
| `UnpackSpec`, `UnpackSafety`, `UnpackRuns`, `Unpack`, `UnpackFrames` | cutting a stream into packages |
| `HttpBody`, `HttpBegin` | HTTP/1.1 bodies: none, Content-Length, chunked, until end of connection, and which header leads to which |
| `UrlSpec`, `Spans`, `Url` | the URL splitter and its two automata |
| `UrlGrammar`, `UrlMeaning`, `UrlSite`, `UrlAccepts` | the URLs it takes and their fields, as a grammar over bytes |
| `WriteQueue` | the sliding queue, partial writes and deferred close |
| `PostEvent`, `ThreadPool` | posting events across threads; waiting for a thread pool |
| `RingBuf` | the FIFO ring allocator |
| `Bytes`, `Numbers`, `Sequences`, `Sets` | what the others share |

Code that updates objects in place is modelled by classes and methods. A ghost abstraction (the in-order sequence of
a tree, the slots of a heap, the stream read so far) or a function of the old state specifies each method, and
lemmas about those specifications state the laws. Streaming parsers are proved equal to a fold over single bytes,
from which independence of the split follows. Protocols between threads are state machines over the steps between
synchronisation points; their invariants hold in every run.

## What the code does not do

Some promises hold only under a condition. The model keeps the code as it is, states exactly when the promise holds,
and gives an input on which it does not.

* A control frame inside a fragmented WebSocket message breaks reassembly. On legal streams the parser agrees with
  section 5.4 of RFC 6455 exactly when there is none (`WsMessages.FaithfulIff`; `WsMessages.PingInside` is an
  example). `WebSocketChannel::send` with `fin` false still finishes a message of more than 65535 bytes
  (`WsChannel.LongMessageCloses`).
* The multipart scanner gives up bytes it holds back without looking for a later start among them. It finds every
  delimiter exactly when each further CR of CRLF+boundary begins a suffix that is also a prefix
  (`MpMatch.FindsIff`), as is the case when the boundary has no CR; otherwise `Multipart.DelimiterMissed` gives an
  input whose delimiter is overlooked.
* With a boundary that has no CR, a form comes back from `dump_multipart` and `parse_multipart` exactly when it is
  not empty, every name has 1 to 246 bytes without NUL, CR, `;` and `=`, and no content holds the delimiter
  (`MpExact.RoundTripIff`). Quotes in names turn out to be harmless. The empty form is refused
  (`MpRoundTrip.EmptyRefused`).
* `rudp_get` stores only the address bytes that belong to the address family. The address it was called with is
  found again exactly when its remaining bytes are zero, and otherwise the table stays in order exactly when no entry
  lies between the stored address and that one (`Rudp.Table.Get`, `Rudp.MisplacedIff`); `Rudp.EntriesDoubled` calls
  it twice and ends with two entries under one address.
* A length field can announce a package of length zero modulo 2^32, on which the unpacking loop never ends. For a
  setting, a limit and a starting size of the buffer, some run of reads hangs exactly when the buffer can take the
  fixed part of a header, at once or after growing within the limit, and a header that fits can announce length zero;
  or one that does not fit yet, but does once packages within the limit have made the buffer grow
  (`UnpackRuns.HangsIff`). Four-byte fields always can (`UnpackRuns.FixedWidthHangsIff`), varints as soon as five
  bytes of them fit (`UnpackRuns.VarintHangs`). `Unpack.Caught` hangs the recommended setting with five bytes.
* With varint lengths the read buffer can fill up with the beginning of a header that is never complete; the next
  read then asks for no bytes, which is taken for the end of the connection. Some run of reads fills the buffer exactly
  when, at the size it has once it can take the body offset, it does not hold the field offset and ten bytes
  (`UnpackRuns.FillsIff`). `Unpack.FullBuffer` is such a run, and so is `Unpack.FullAfterGrowth`, in which the buffer
  grows first.
* The table `unhex` is written out only for bytes below 128, so higher bytes in a chunk size count as the digit zero.
  `HttpBody.SizeTakenIff` says exactly which bytes are taken as a size, and as which, and `HttpBegin.UnhexDigit` and
  `HttpBegin.UnhexOnly` what each byte counts.
* The URL splitter refuses a `#` directly behind the authority, which section 3 of RFC 3986 allows, and takes several
  `#` in front of a fragment, which it does not. `UrlGrammar.IsUrl` says what is taken, and `UrlAccepts.AcceptsIff`
  that nothing else is.
* A chunk that is not followed by CR loses the part of its data that arrived in the same call, and nothing else is
  ever lost (`HttpBody.Parser.Execute`; `HttpBody.ChunkDropped` is an example).
* A failed send in `hloop_post_event` leaves a functor without its event; later events run the functors in order,
  and as many functors stay behind as sends have failed (`PostEvent.AllRun`). The one left behind need not be the one
  whose send failed (`PostEvent.LeftBehind`).
* Resetting a timer that is linked as pending breaks the pending list, and only then (`Dispatch.ResetIff`). If a
  callback resets such a timer and deletes it, it is freed while linked (`Dispatch.FreedWhileLinked`);
  `Dispatch.TwoDueReached` and `Dispatch.WalkMeetsFreed` are a run in which the walk then comes to the freed event.
* A timer with repeat zero is never used up: lowering it wraps to the value that stands for endless
  (`Timers.Loop.ExpireRoot`).
* `hio_close` called again while the first call waits for the write queue drops what is queued. A close without error
  has sent everything exactly when it was not repeated in that way (`WriteQueue.Io.Close`, `WriteQueue.Drive`);
  `WriteQueue.SecondCloseDrops` is such a run.

## Model

| member | source | states |
|---|---|---|
| RbTree.Tree.RotateLeft | src-libhv/base/rbtree.c:41-62 | the links of the tree become those of the shape turned left at the node; every parent link agrees, the in-order sequence is the same |
| RbTree.Tree.RotateRight | src-libhv/base/rbtree.c:64-85 | the mirror image |
| RbTree.Tree.InsertColour | src-libhv/base/rbtree.c:87-150 | from a tree that is right but for one red node whose parent may be red, the loop restores a valid red-black tree with the same in-order sequence; grandparent and uncle are never missing where they are read |
| RbInsert.Grandparent | src-libhv/base/rbtree.c:91-99 | a red parent has a parent, and it is black |
| RbInsert.RecolourKeeps | src-libhv/base/rbtree.c:93-110 | the red-uncle case keeps the loop invariant two levels up |
| RbTree.Tree.EraseColour | src-libhv/base/rbtree.c:152-230 | from a tree in which one place lacks a black node, the loop restores a valid red-black tree with the same in-order sequence; the sibling is never missing |
| RbTree.Tree.LinkNode | src-libhv/base/rbtree.h:198-205 | the node becomes a red leaf at the free link, between its in-order neighbours |
| RbTree.Tree.Insert | src-libhv/base/rbtree.c:87-150 | after linking and repair the tree is valid and its in-order sequence is the old one with exactly that node inserted at the gap |
| RbTree.Tree.Erase | src-libhv/base/rbtree.c:232-297 | for every member node the tree is valid again and its in-order sequence is the old one without exactly that node |
| RbTree.Tree.SwapOut | src-libhv/base/rbtree.c:238-273 | the successor takes the place, colour and links of a node with two children |
| RbTree.Tree.First | src-libhv/base/rbtree.c:370-380 | the first node of the in-order sequence |
| RbTree.Tree.Last | src-libhv/base/rbtree.c:382-392 | the last node of the in-order sequence |
| RbTree.Tree.Next | src-libhv/base/rbtree.c:394-420 | the next node of the in-order sequence, or none at the end |
| RbTree.Tree.Prev | src-libhv/base/rbtree.c:422-444 | the previous node of the in-order sequence, or none at the beginning |
| RbMeaning.RedBlackMeans | src-libhv/base/rbtree.h:131-145 | what valid means in textbook terms: the inductive tree below the root has the in-order sequence of all nodes, equal numbers of black nodes on all paths, no red node below a red one and a black root |
| RbMeaning.Populous | src-libhv/base/rbtree.h:131-145 | a subtree of black height b has at least 2^b - 1 nodes |
| RbMeaning.Shallow | src-libhv/base/rbtree.h:131-145 | no path is longer than twice the black height, plus one for a red top |
| Rudp.Table.Search | src-libhv/event/rudp.c:72-90 | returns the map's entry for the address or none, after at most 2h comparisons with 2^h <= n+1 |
| Rudp.Table.FindSlot | src-libhv/event/rudp.c:47-66 | the descent ends at the entry of the address or at the free link where it belongs in the order |
| Rudp.Table.Insert | src-libhv/event/rudp.c:45-70 | adds the entry under its address exactly when the address is not taken; the map is otherwise unchanged |
| Rudp.Table.Get | src-libhv/event/rudp.c:104-137 | returns the old entry or makes one, whose address is the copied bytes followed by zeros; afterwards the address is found if and only if it was there before or its bytes beyond the copied ones are zero; after making one the table is a sorted map if and only if no other entry lies from the stored address up to the one asked for |
| Rudp.LessIff | src-libhv/event/rudp.c:54-62 | addresses are in order as their first different bytes are |
| Rudp.MisplacedIff | src-libhv/event/rudp.c:104-137 | an entry linked where one address belongs but stored under an earlier one leaves the sequence sorted if and only if no other entry lies between |
| Rudp.EntriesDoubled | src-libhv/event/rudp.c:104-137 | an address with a byte beyond the copied ones gets two entries under one stored address from two calls |
| Rudp.Table.Remove | src-libhv/event/rudp.c:92-102 | the map loses exactly that address and the entry is returned |
| Rudp.Table.Cleanup | src-libhv/event/rudp.c:33-43 | every entry is taken out once and the table is empty |
| Rudp.InsertEntries | src-libhv/event/rudp.c:45-70 | inserting at the cut of a sorted sequence is insertion into the finite map |
| Rudp.RemoveEntries | src-libhv/event/rudp.c:92-102 | leaving a sorted sequence is removal from the finite map |
| HeapShape.PathTo | src-libhv/base/heap.h:79-86 | the bits of n, followed from the root, lead to the n-th node |
| HeapShape.SwapIsTrade | src-libhv/base/heap.h:45-74 | in a complete tree the assignments of heap_swap trade two slots and change nothing else |
| HeapShape.ReplaceIsTrade | src-libhv/base/heap.h:29-43 | the last node put in the place of another is linked as that one was |
| MinHeap.Heap.Swap | src-libhv/base/heap.h:45-74 | parent and child trade slots; all links are those of the complete tree |
| MinHeap.Heap.Descend | src-libhv/base/heap.h:87-96 | the bit path ends at the parent of the slot that is to be filled or emptied |
| MinHeap.Heap.Insert | src-libhv/base/heap.h:76-107 | a complete binary tree in heap order with exactly that node more |
| MinHeap.Heap.Remove | src-libhv/base/heap.h:109-166 | for every member, root and last node included, a complete binary tree in heap order with exactly that node less |
| MinHeap.Heap.Dequeue | src-libhv/base/heap.h:168-170 | exactly the root leaves |
| HeapShape.UpStep | src-libhv/base/heap.h:101-106 | a swap with the parent moves the only disorder one level up |
| HeapShape.DownStep | src-libhv/base/heap.h:150-161 | a swap with the least child moves the only disorder one level down |
| HeapShape.RootLeast | src-libhv/base/heap.h:7-20 | the root has a least key |
| Timers.CatchUp | src-libhv/event/hloop.c:72-76 | the result is the least instant after now that is congruent to the old one modulo the period |
| Timers.TickIsLeast | src-libhv/event/hloop.c:72-76 | no instant after now that is congruent to the old one and not before it comes earlier |
| Timers.Loop.ExpireRoot | src-libhv/event/hloop.c:56-85 | the due root: a count from 2 to 2^32-2 goes down by one and the timer moves to its next tick; one leaves the heap marked; zero and 2^32-1 become 2^32-1; the timer is pending, once |
| Timers.Loop.ProcessTimers | src-libhv/event/hloop.c:51-88 | exactly the timers due at the start are expired, each once: a count between 1 and 2^32-1 goes down by one, zero wraps to endless; the timer is marked and out of the heap when one becomes zero and is moved to the next tick otherwise; it is pending once; all others are untouched and the heap holds nothing due |
| Timers.Loop.ProcessAll | src-libhv/event/hloop.c:51-88 | over any sequence of calls, a timer of count k expires at exactly the first k of them at which it is due; until the last of those it is in the heap with what is left of its count, and then it is out of the heap and marked |
| Timers.ExpiresOften | src-libhv/event/hloop.c:56-76 | over any instants, the expiries of a timer and what is left of its count add up to the count |
| Timers.ExpiresEachTime | src-libhv/event/hloop.c:56-76 | at calls that are a period apart from the first due one on, a timer expires each time until its count is used up |
| Timers.Loop.Add | src-libhv/event/hloop.c:511-529 | a timer of any repeat and positive period enters the heap at its first timeout, and no other changes; none is made for period zero |
| Timers.Loop.Unlink | src-libhv/event/hloop.c:577-582 | the timer leaves the heap and is marked, once; ntimers stays the size of the heap |
| Timers.Loop.Reset | src-libhv/event/hloop.c:531-552 | the timer is in the heap again at its new timeout, whether or not it was before |
| Timers.Loop.FirstTimeout | src-libhv/event/hloop.c:519-524 | the first timeout is now plus the period, and for round periods from one second on the last multiple of 100 ms up to that, still after now |
| Dispatch.Safe | src-libhv/event/hloop.c:99-127 | over every run of add, delete, expire and dispatch with callbacks that delete themselves or others: pending events are linked once and allocated, no event is freed twice or met after, callbacks of a round are of different events from high to low priority, nactives and npendings are right |
| Dispatch.CallsActive | src-libhv/event/hloop.c:104-122 | in every run: when the walk comes to an event, the event is pending and its callback is made exactly if it is active, at its priority; no other step makes a callback |
| Dispatch.ExpireCounts | src-libhv/event/hloop.c:56-81 | an expiry makes the timer pending with one time less, marks it after the last one, and leaves endless ones and those of count zero endless |
| Dispatch.DeleteFrees | src-libhv/event/hevent.h:245-251 | an active event that is deleted is freed if it is not linked and otherwise marked and no longer active; deleting an inactive one does nothing |
| Dispatch.AllFreed | src-libhv/event/hloop.c:114-120 | when nothing is pending, every deleted event has been freed |
| Dispatch.LinkedEnlist | src-libhv/event/hevent.h:226-235 | making an event pending links it once at its priority |
| Dispatch.LinkedLeave | src-libhv/event/hloop.c:107-122 | the event the walk leaves is unlinked and nothing else is |
| Dispatch.FreedOnceKept | src-libhv/event/hevent.h:245-251 | no step frees an event twice |
| Dispatch.CountedActivesKept | src-libhv/event/hevent.h:214-224 | every step keeps nactives equal to the number of active events |
| Dispatch.ResetIff | src-libhv/event/hevent.h:253-258 | resetting a timer keeps the lists right if and only if it is not linked |
| Dispatch.FreedWhileLinked | src-libhv/event/hevent.h:245-258 | a callback that resets and then deletes a pending timer has it freed while it is linked |
| Dispatch.TwoDueReached | src-libhv/event/hloop.c:99-127 | the run from the initial state in which two timers are due and the callback of the first is being made |
| Dispatch.WalkMeetsFreed | src-libhv/event/hloop.c:104-122 | from that state, resetting and deleting the other timer in the callback leads the walk to a freed event |
| PermuteArgs.Gcd | src-libhv/misc/win32_getopt.h:160-173 | the loop computes Euclid's gcd |
| PermuteArgs.Bezout | src-libhv/misc/win32_getopt.h:160-173 | it divides both numbers and is a combination of them |
| PermuteArgs.CyclesExchange | src-libhv/misc/win32_getopt.h:190-209 | all gcd-many cycles of swaps together exchange the two blocks |
| PermuteArgs.EachSlotOnce | src-libhv/misc/win32_getopt.h:195-201 | every slot of the region is visited by exactly one move of exactly one cycle |
| PermuteArgs.Cycle | src-libhv/misc/win32_getopt.h:196-208 | the inner loop performs the swaps of one cycle |
| PermuteArgs.Permute | src-libhv/misc/win32_getopt.h:180-210 | the array is its part in front, the second block, the first block and its part behind, each as it was |
| WsFrame.Unmasks | src-libhv/http/websocket_parser.c:182-189 | masking twice gives the data back |
| WsFrame.MaskedInPieces | src-libhv/http/websocket_parser.c:173-180 | data masked in pieces with the offset carried over is the data masked whole |
| WsFrame.MaskInto | src-libhv/http/websocket_parser.c:182-189 | each byte written has, of its eight binary digits, exactly those set that are set in one of the data byte and the mask byte at that offset and not in the other; the next offset is returned |
| WsFrame.CrossedIff | src-libhv/http/websocket_parser.c:174-177 | a byte is the exclusive or of two others if and only if each of its eight digits is set exactly when it is set in one and not the other |
| WsFrame.MaskedIs | src-libhv/http/websocket_parser.c:182-189 | masked data, digit by digit |
| WsFrame.MaskedOnly | src-libhv/http/websocket_parser.c:182-189 | no other bytes are that, digit by digit |
| WsFrame.BuildFrame | src-libhv/http/websocket_parser.c:207-249 | writes exactly the frame of the format, of the computed size, and nothing behind it |
| WsFrame.EncodedSize | src-libhv/http/wsdef.c:23-34 | the size of every frame is ws_calc_frame_size: 2 bytes, 4 or 10 from 126 and 65536 bytes of payload on, 4 more with a mask, and the payload |
| WsParser.SplitIndependent | src-libhv/http/websocket_parser.c:53-171 | feeding a stream in any chunks is feeding it at once |
| WsParser.RunFrame | src-libhv/http/websocket_parser.c:53-171 | the parser reads back every frame that was built, masked or not, of any length for which room can be reserved, and hands its payload to reassembly |
| WsParser.Step | src-libhv/http/websocket_parser.c:59-167 | one byte keeps the parser's invariant: lengths fit 64 bits, what is required is positive |
| WsParser.Parser.Execute | src-libhv/http/websocket_parser.c:53-171 | the loop over stretches equals the fold over single bytes and consumes the whole input |
| WsParser.Parser.Decode | src-libhv/http/websocket_parser.c:173-180 | unmasks a stretch of the input in place: each digit of each byte is set exactly when it is set in one of the byte and its mask byte |
| WsExamples.HelloDelivered | src-libhv/http/websocket_parser.c:53-180 | the clear, the masked and the fragmented "Hello" of section 5.7 of RFC 6455 are delivered as that text |
| WsExamples.LongHeaders | src-libhv/http/websocket_parser.c:207-237 | the headers of the 256-byte and the 65536-byte message of section 5.7 of RFC 6455 |
| WsParser.Parser.FrameHeader | src-libhv/http/WebSocketParser.cpp:8-26 | the opcode is kept for continuations; the message starts anew after a finished one |
| WsParser.Parser.FrameBody | src-libhv/http/WebSocketParser.cpp:28-37 | the unmasked bytes are appended to the message |
| WsParser.Parser.FrameEnd | src-libhv/http/WebSocketParser.cpp:39-50 | a final frame delivers the message with its opcode |
| WsMessages.Reassembles | src-libhv/http/WebSocketParser.cpp:8-50 | the fragments of a message come back as one message with the first opcode |
| WsMessages.FragmentsAre | src-libhv/http/WebSocketChannel.h:41-64 | fragments have the asked size but for the last, which is not longer and not empty; only the last is final and only the first has the opcode |
| WsMessages.RoundTrip | src-libhv/http/WebSocketChannel.h:41-81 | any messages, fragmented at any sizes, masked or not, cut into any chunks, are delivered once each, in order, with opcode and bytes intact |
| WsMessages.FaithfulIff | src-libhv/http/WebSocketParser.cpp:8-50 | on legal streams the deliveries are those of RFC 6455 if and only if no control frame interrupts a message |
| WsMessages.PingInside | src-libhv/http/WebSocketParser.cpp:8-50 | a ping inside a message: what is delivered and what should be |
| WsChannel.Ceil2e | src-libhv/base/hmath.h:15-24 | the least power of two that is not below the argument |
| WsChannel.Channel.SendFrame | src-libhv/http/WebSocketChannel.h:67-81 | writes exactly the encoded frame; its mask bit is set exactly when the channel is a client's |
| WsChannel.Channel.SendFragmented | src-libhv/http/WebSocketChannel.h:41-64 | writes the fragments of the message, one frame each |
| WsChannel.Channel.Send | src-libhv/http/WebSocketChannel.h:28-34 | long messages are fragmented at 65535 bytes |
| WsChannel.LongMessageCloses | src-libhv/http/WebSocketChannel.h:28-34 | a long message is delivered whether or not fin was asked for |
| MpMatch.FindsIff | src-libhv/http/multipart_parser.c:223-262 | the single pass notices the delimiter on all inputs if and only if the delimiter is bordered |
| MpMatch.Finds | src-libhv/http/multipart_parser.c:223-262 | with a bordered delimiter it is noticed exactly when it occurs |
| MpMatch.Misses | src-libhv/http/multipart_parser.c:223-262 | otherwise an input contains it unnoticed |
| Multipart.PartEndsAtDelimiter | src-libhv/http/multipart_parser.c:216-262 | for every content and every split, the part ends with the first CRLF+boundary and the bytes passed on are exactly those before it; until then nothing is lost |
| Multipart.DelimiterMissed | src-libhv/http/multipart_parser.c:223-262 | for any other boundary an input after whose delimiter the parser is still inside the part |
| Multipart.StepScans | src-libhv/http/multipart_parser.c:223-262 | one byte keeps: bytes passed on, collected and held back are the bytes read |
| Multipart.NameByteIff | src-libhv/http/multipart_parser.c:156-176 | in a header name exactly letters and hyphens are taken; a colon ends it and a CR ends the headers |
| Multipart.EpilogueIgnored | src-libhv/http/multipart_parser.c:294-296 | whatever follows the closing boundary is taken and causes no callback |
| Multipart.Parser.Execute | src-libhv/http/multipart_parser.c:111-306 | the loop with its mark, lookbehind buffer and re-read bytes equals the byte-wise specification, callbacks and return value included |
| Multipart.Parser.OnBoundary | src-libhv/http/multipart_parser.c:249-262 | the lookbehind buffer holds what has matched and gives it back on a mismatch |
| MpForm.DumpMultipart | src-libhv/http/http_content.cpp:70-108 | the text of the form |
| MpFiles.FieldDumped | src-libhv/http/http_content.cpp:70-108 | the very bytes that a form of one field is dumped as |
| MpForm.ParseMultipart | src-libhv/http/http_content.cpp:214-234 | success and the resulting form |
| MpForm.UserData.HeaderDone | src-libhv/http/http_content.cpp:131-152 | the disposition header sets name and filename |
| MpForm.UserData.DataDone | src-libhv/http/http_content.cpp:154-164 | a named part is stored |
| MpForm.Unquoted | src-libhv/cpputil/hstring.cpp:165-178 | a pair of quotes of either kind is taken off |
| MpFiles.FileStored | src-libhv/http/http_content.cpp:131-234 | a part with name, filename and a Content-Type header, whatever the case of the disposition header's name, is stored under its name with its content and that file name |
| MpRoundTrip.NameParsed | src-libhv/http/http_content.cpp:133-149 | the name parameter that was written is read back, cut to the buffer, whatever quotes are in it |
| MpRoundTrip.CleanForm | src-libhv/http/http_content.cpp:70-234 | a form of clean names and contents is read with all input used, and is stored under the names that are read back |
| MpRoundTrip.EmptyRefused | src-libhv/http/multipart_parser.c:121-147 | the dump of the empty form is refused |
| MpExact.StepTame | src-libhv/http/multipart_parser.c:111-306 | every byte keeps: what is stored is good, and inside a part the bytes since its beginning are accounted for |
| MpExact.ParsedGood | src-libhv/http/http_content.cpp:131-234 | for any text the names stored have no NUL, CR, `;` or `=` and are not empty, and no content stored holds the delimiter |
| MpExact.NoLongName | src-libhv/http/http_content.cpp:80-92 | names that were cut off cannot make up a form between them |
| MpExact.RoundTripIff | src-libhv/http/http_content.cpp:70-234 | a form comes back exactly, with all input used, if and only if it is not empty and every name has 1 to 246 bytes without NUL, CR, `;` and `=` and no content holds the delimiter |
| UnpackSpec.SplitMore | src-libhv/event/unpack.c:22-176 | cutting a stream piece by piece with the rest carried over is cutting it whole |
| UnpackSpec.SplitKeeps | src-libhv/event/unpack.c:22-176 | packages and rest make up the stream |
| UnpackSpec.VarintDecode | src-libhv/base/hmath.h:42-66 | size and value of a varint, or that it is incomplete or too long |
| UnpackSpec.VarintRoundTrip | src-libhv/base/hmath.h:28-66 | what is encoded is decoded |
| UnpackSpec.ZeroLength | src-libhv/event/unpack.c:120-154 | a length field that announces a package of length zero |
| UnpackFrames.FrameLength | src-libhv/event/unpack.c:120-147 | a package whose length field, big-endian, little-endian or varint, holds the length of its body less the adjustment is announced with its own length |
| UnpackFrames.FixedPackages | src-libhv/event/unpack.c:31-39 | pieces of the fixed length are the packages, and what is shorter stays |
| UnpackFrames.DelimitedPackages | src-libhv/event/unpack.c:61-83 | pieces that end with the first delimiter in them are the packages, and what has none stays |
| UnpackFrames.Beginning | src-libhv/event/unpack.c:107-154 | every beginning of a stream of such packages is cut into whole ones and the beginning of one, and is not refused |
| UnpackSafety.KnownAnnounced | src-libhv/event/unpack.c:120-147 | a length that is read can be announced within the bytes there are |
| UnpackSafety.HeaderFor | src-libhv/event/unpack.c:120-147 | what can be announced within a size is announced by a header of that size |
| UnpackRuns.RunSafe | src-libhv/event/unpack.c:107-176 | in every run: the sizes of the buffer are its first size or larger ones within the limit, it is full only and the call hangs only under the conditions |
| UnpackRuns.StretchesOn | src-libhv/event/unpack.c:156-172 | a buffer that a package has made grow can be made to grow again, until five bytes of varint or the limit are reached |
| UnpackRuns.HangsIff | src-libhv/event/unpack.c:107-176 | some run of reads hangs if and only if length zero can be announced in the buffer at its first size, or the buffer can be made to grow and length zero can be announced within the limit |
| UnpackRuns.FixedWidthHangsIff | src-libhv/event/unpack.c:107-176 | with a fixed-width field some run hangs if and only if a header can be read and the field can hold the length that makes the package empty, which four bytes always can |
| UnpackRuns.VarintHangs | src-libhv/event/unpack.c:107-176 | with varints some run hangs as soon as five bytes of them fit |
| UnpackRuns.FillsIff | src-libhv/event/unpack.c:107-176 | in some run of reads the buffer is full with the connection open if and only if the lengths are varints, the buffer can take the body offset or may grow so far, and its size is then less than the field offset and ten bytes |
| Unpack.Reader.CutFixed | src-libhv/event/unpack.c:31-39 | the packages of the buffer by fixed length |
| Unpack.Reader.CutDelimiter | src-libhv/event/unpack.c:61-83 | the packages up to each delimiter, with the search begun behind the old bytes |
| Unpack.Reader.CutField | src-libhv/event/unpack.c:120-154 | the packages by length field and how the loop ends: more input needed, an endless varint, or a package of length zero, on which it goes round for ever |
| Unpack.Reader.UnpackFixed | src-libhv/event/unpack.c:22-50 | packages delivered, rest moved to the front, room left; the buffer and its contents are those of `UnpackRuns.After` |
| Unpack.Reader.UnpackDelimiter | src-libhv/event/unpack.c:52-105 | the same, growing the buffer to twice its size within the limit, or closing exactly when it is full at the limit |
| Unpack.Reader.UnpackField | src-libhv/event/unpack.c:107-176 | the same, with the size to which the buffer grows; hangs exactly on a package of length zero, closes exactly for a package or header over the limit or at an endless varint |
| Unpack.Reader.Receive | src-libhv/event/unpack.c:7-20 | after any reads, what has been delivered is the split of the whole stream and the buffer holds the rest; the size of the buffer, its contents, and whether the connection is closed or the call hangs are exactly those of `UnpackRuns.Next` |
| Unpack.Reader.ReceiveAll | src-libhv/event/nio.c:285-325 | a sequence of reads takes the connection exactly where the run of `UnpackRuns` goes |
| UnpackFrames.ReceiveFrames | src-libhv/event/unpack.c:107-176 | packages framed in big-endian, little-endian or varint lengths, sent one behind the other and read in pieces of any sizes, are delivered exactly as they were framed, and nothing is left over |
| Unpack.Caught | src-libhv/event/unpack.c:107-176 | the recommended setting hangs on five bytes |
| Unpack.FullBuffer | src-libhv/event/unpack.c:107-176 | a setting and 8192 bytes after which no space is left |
| Unpack.FullAfterGrowth | src-libhv/event/unpack.c:107-176 | 8192 bytes and 11808 more after which a buffer that has grown to 20000 is full |
| Unpack.Reader.constructor | src-libhv/event/hevent.c:533-563 | an empty buffer of the size for the mode |
| HttpBody.ReadExact | src-libhv/http/http_parser.c:1528-1556 | decimal and hexadecimal lengths are accepted exactly within the guard and then are exact, do not wrap and are not ULLONG_MAX |
| HttpBody.StepOk | src-libhv/http/http_parser.c:1872-2044 | the assertions on nread and content_length cannot fail |
| HttpBody.BeginOk | src-libhv/http/http_parser.c:1825-1870 | for every header the body state is entered with a length that fits it, or the message is complete |
| HttpBody.Kinds | src-libhv/http/http_parser.c:1825-1870 | from the fields of the header: which messages complete at once, are chunked, have a known length, or go on to the end of the connection |
| HttpBegin.AtOnceIff | src-libhv/http/http_parser.c:1825-1865 | a message completes without taking a byte if and only if it is a tunnel or skipped, has Content-Length zero, or has neither length nor chunking and is a request or a response that has no body |
| HttpBegin.ByLengthIff | src-libhv/http/http_parser.c:1846-1857 | exactly the Content-Length is taken if and only if there is one, not zero, and the body is neither chunked nor ruled out |
| HttpBegin.ByCloseIff | src-libhv/http/http_parser.c:1858-1865 | every byte is delivered and the message never completes if and only if it is a response that is neither 1xx, 204, 304, skipped nor an upgrade, and has neither length nor chunking |
| HttpBegin.InChunksIff | src-libhv/http/http_parser.c:1840-1846 | the body is read in chunks if and only if the header says chunked and the body is not ruled out |
| HttpBody.NothingFed | src-libhv/http/http_parser.c:1858-1865 | a message without body takes no byte of any input and completes once |
| HttpBody.CloseFed | src-libhv/http/http_parser.c:2088-2107 | a response without length and chunking delivers every byte of every split and does not complete |
| HttpBody.RunAppend | src-libhv/http/http_parser.c:1825-2044 | the split of the input makes no difference |
| HttpBody.IdentityBody | src-libhv/http/http_parser.c:1872-1922 | from the header fields: exactly Content-Length bytes are delivered and the message completes once with the last of them |
| HttpBody.ChunkedBody | src-libhv/http/http_parser.c:1915-2044 | from the header fields: well-formed chunks deliver their data joined, each is announced and ended once, and the message completes once with the last byte |
| HttpBody.SizeTakenIff | src-libhv/http/http_parser.c:1915-1975 | bytes are taken as a chunk size if and only if each is a hexadecimal digit or 128 or more and their value, the latter counted as zero, is within the guard; and then that value is the size |
| HttpBegin.UnhexDigit | src-libhv/http/http_parser.c:224-233 | the value of each of the sixteen digits, in either case |
| HttpBegin.UnhexOnly | src-libhv/http/http_parser.c:224-233 | no other byte below 128 is a digit, and those from 128 on count as zero |
| HttpBegin.WrittenSize | src-libhv/http/http_parser.c:1940-1965 | a size written in hexadecimal, in letters of any case, is read as that size |
| HttpBody.OverLimit | src-libhv/http/http_parser.c:154-161 | in the framing of chunks no byte is taken beyond the limit for headers |
| HttpBody.Parser.Execute | src-libhv/http/http_parser.c:1872-2044 | the loop over stretches with its mark equals the fold over bytes; marked bytes are dropped if and only if the byte that is refused stands behind the data of a chunk, and they are those of this call |
| HttpBody.Feed | src-libhv/http/http_parser.c:1872-2044 | calls one after the other, up to the first that is not used up, are one run over all the input |
| HttpBody.IdentityFed | src-libhv/http/http_parser.c:1872-2044 | for every header with a Content-Length and a body: however the body and what follows are split over calls, exactly the body is delivered and the message completes once |
| HttpBody.ChunkedFed | src-libhv/http/http_parser.c:1872-2044 | for every header that says chunked and has a body: however chunks and what follows are split over calls, their data is delivered joined and the message completes once with their last byte |
| HttpBody.ChunkDropped | src-libhv/http/http_parser.c:2006-2035 | a chunk of one byte that is not followed by CR is dropped |
| HttpBody.Parser.OnBody | src-libhv/http/http_parser.c:1872-1906 | a stretch of body of the right size is taken at once |
| HttpBody.Parser.OnSize | src-libhv/http/http_parser.c:1940-1975 | a chunk-size byte is a digit, ends the size or is refused |
| Url.FirstPass | src-libhv/http/http_parser.c:2343-2399 | the loop: fields are exactly the runs of the automaton's labels, in order; other bytes are separators; refused exactly when the automaton dies |
| Url.ParseHost | src-libhv/http/http_parser.c:2239-2319 | the same within the authority, accepted exactly when it ends in a final state |
| Url.ReadPort | src-libhv/http/http_parser.c:2432-2443 | accepted exactly up to 65535, with the decimal value |
| Url.ParseUrl | src-libhv/http/http_parser.c:2326-2447 | accepted if and only if the text is a URL by the grammar: letters in front of `://`, user information, host name or address, a port up to 65535, a path, a query behind the first `?` and a fragment behind the next `#`, each of the bytes it may have; the fields are those parts, at their places, and the port is their number |
| UrlAccepts.AcceptsIff | src-libhv/http/http_parser.c:2326-2447 | the two automata accept exactly the texts that can be put together from good parts |
| UrlAccepts.UrlAccepted | src-libhv/http/http_parser.c:2326-2447 | a text put together from good parts is accepted, and its fields are those parts |
| UrlAccepts.OneWay | src-libhv/http/http_parser.c:2326-2447 | no text is a URL in two ways |
| UrlMeaning.WalkUrl | src-libhv/http/http_parser.c:490-636 | the first automaton reads scheme, authority, path, query and fragment as they are put together |
| UrlMeaning.Shaped | src-libhv/http/http_parser.c:490-636 | what the first automaton accepts can be taken apart in that way |
| UrlSite.WalkSite | src-libhv/http/http_parser.c:2157-2236 | the second automaton reads user information, host name or bracketed address with its zone, and port as they are put together |
| UrlSite.SiteOf | src-libhv/http/http_parser.c:2157-2236 | what the second automaton accepts can be taken apart in that way |
| UrlGrammar.PortWritten | src-libhv/http/http_parser.c:2432-2443 | a port written in decimal has that value |
| Url.Progress | src-libhv/http/http_parser.c:490-636 | a byte skips a separator, continues its field or begins a later one |
| Url.HostProgress | src-libhv/http/http_parser.c:2157-2236 | the same for the authority |
| WriteQueue.Queue.PushBack | src-libhv/base/queue.h:83-93 | the contents grow by the element, with resize or slide |
| WriteQueue.Queue.PopFront | src-libhv/base/queue.h:94-98 | the contents lose the first element |
| WriteQueue.Queue.Resize | src-libhv/base/queue.h:73-77 | an array of the new size, or of 16 for size zero, with as much of the contents as it has room for |
| WriteQueue.Io.Write | src-libhv/event/nio.c:465-547 | the bytes are accepted whole, in part sent and in part queued, or refused; the queue implies write interest |
| WriteQueue.Io.SendFront | src-libhv/event/nio.c:348-377 | exactly the bytes the socket took leave the queue |
| WriteQueue.Io.Flush | src-libhv/event/nio.c:335-383 | the queue is sent as far as the socket takes it; when it is empty everything accepted is sent and a waiting close is due |
| WriteQueue.Io.Writable | src-libhv/event/nio.c:395-402 | write interest is dropped only with an empty queue |
| WriteQueue.Io.Close | src-libhv/event/nio.c:549-577 | closes exactly when nothing is queued, an error occurred or a close was waiting; without error everything accepted has been sent if and only if the close was not repeated over a non-empty queue |
| WriteQueue.Io.TimedOut | src-libhv/event/nio.c:23-34 | closes with an error |
| WriteQueue.Drive | src-libhv/event/nio.c:335-577 | after any interleaving: accepted = sent ++ unsent, the counter is the unsent total, a non-empty queue has write interest, and a close without error has sent all if and only if it was not repeated over a non-empty queue |
| WriteQueue.SecondCloseDrops | src-libhv/event/nio.c:549-577 | a write that waits and two closes lose the byte |
| WriteQueue.UnsentPush | src-libhv/event/nio.c:521-532 | queueing appends to the unsent bytes |
| PostEvent.Safe | src-libhv/event/hloop.c:184-252 | in every run: bytes in pipe and hand equal queued events when the mutex is free, the empty branch is not taken, customEvents is never empty when its front is taken, events and functors run once in order |
| PostEvent.AllRun | src-libhv/evpp/EventLoop.h:159-214 | at rest all posted events have run and as many functors are left as sends failed |
| PostEvent.LeftBehind | src-libhv/evpp/EventLoop.h:159-214 | a run with a failed send that ends at rest with one functor left, the later one |
| PostEvent.NeverEmpty | src-libhv/event/hloop.c:184-195 | the reader that holds the mutex finds an event |
| PostEvent.FunctorThere | src-libhv/evpp/EventLoop.h:205-214 | onCustomEvent finds a functor |
| PostEvent.InvKept | src-libhv/event/hloop.c:184-252 | every step keeps the invariant |
| ThreadPool.WaitWaits | src-libhv/cpputil/hthreadpool.h:27-116 | in every run idle_num is right, and when wait returns every task committed before the call has finished |
| ThreadPool.TakenInOrder | src-libhv/cpputil/hthreadpool.h:37-55 | in every run tasks are taken in the order of commit, none is left out, and the queue holds the others in that order |
| ThreadPool.IdleMeansDone | src-libhv/cpputil/hthreadpool.h:87-95 | queue seen empty and then all workers seen idle means the known tasks are done |
| ThreadPool.CountedKept | src-libhv/cpputil/hthreadpool.h:37-55 | every step keeps idle_num equal to the pool size less the busy workers |
| RingBuf.Ring.Alloc | src-libhv/base/hbuf.h:190-213 | the block joins the live ones at the returned place, one of length zero changes nothing; refused exactly when neither stretch has room |
| RingBuf.Ring.Free | src-libhv/base/hbuf.h:215-224 | exactly the oldest block leaves |
| RingBuf.Ring.Sound | src-libhv/base/hbuf.h:184-234 | live blocks are in the buffer and disjoint, head leads to the oldest, size is their total, empty means head = tail |

## Left out

- Sockets, DNS, FTP, SMTP, ICMP, TLS, epoll and its kin: system calls; where one matters its answer is a parameter.
- The application's `src/main.cpp`, JavaScript, Python scripts and echo servers: thin, with their server code absent.
- `rb_replace_node`, `rb_augment_insert`, `rb_augment_erase_begin`, `rb_augment_erase_end`: not used by the address map.
- Request-line and header states of `http_parser_execute`, trailers, pausing, failing callbacks, and the call with no bytes that ends a connection: large, with little beyond the body states.
- Period timers (`cron_next_timeout`): they depend on wall clock and `mktime`.
- Callbacks that write, close or reset from within the same parser, queue or dispatch, other than adding and deleting events in `Dispatch`; callbacks return 0.
- Allocation failure; every allocation succeeds.
- Time as 64-bit microseconds: instants are unbounded integers.
- Timers.Loop.ProcessTimers: models timeout timers of positive period, not period timers.
- MinHeap.Heap.Insert: models a node whose child links are empty, as an allocated node's are.
- WsParser.Parser.FrameHeader: does not model `message.reserve`, which only makes room, nor that it throws for lengths whose low 32 bits are 2^31-1 or more; `Framable` leaves those out.
- WsParser.Parser.Execute: does not model the field `offset`, which nothing reads, nor the overflow of `p + require` for frames longer than the address space.
- WsFrame.BuildFrame: does not model a null mask, which no caller passes, nor `int` overflow of sizes within 14 bytes of 2^31.
- WsChannel.Channel.SendFrame: does not model failing writes to the socket.
- WsChannel.Channel.SendFragmented: does not model a fragment size of zero, for which the loop never ends, or less, for which the length handed on is negative.
- Multipart.Parser.Execute: records the callbacks; they return 0.
- MpForm.DumpMultipart: models plain fields without a file; the order of the entries is any order.
- MpFiles.FileStored: models file parts as they are read; writing them reads the file and looks up a content type by its suffix.
- MpExact.RoundTripIff: is stated for boundaries without CR; RFC 2046 allows none with it.
- Unpack.Reader.Receive: does not model the autosize step in `__read_cb`, which halves large buffers; nor does UnpackRuns.
- UnpackFrames.ReceiveFrames: is stated for settings whose buffer cannot fill up with the beginning of a header; `UnpackRuns.FillsIff` says which can.
- Unpack.Reader.constructor: does not model an empty delimiter, nor fixed-width fields of more than four bytes, whose upper bytes an `unsigned int` loses.
- UnpackSpec.VarintDecode: does not model length zero, which the source takes as no limit; the unpacker never passes it.
- UnpackSpec.VarintRoundTrip: does not model negative values, on which `varint_encode` does not end.
- HttpBody.Parser.Execute: stops at the end of the message, where the original goes on with the next.
- Url.ParseUrl: is stated for inputs of at most 65535 bytes; offsets of longer ones are cut to 16 bits.
- WriteQueue.Io.Write: tests whether the connection is closed and does the locked part in one step; the source tests before it takes the lock, so a write from another thread can pass the test and get the lock after the close, when it writes to a descriptor that is closed.
- WriteQueue.Drive: leaves such a write out.
- WriteQueue.Io.Close: models the call on the loop's thread; elsewhere it is posted to that thread.
- ThreadPool.WaitWaits: models the time between start and stop; pausing only delays workers. The unsynchronised read of the queue is one step.
- PostEvent.Safe: the socket pair is an unbounded counter of bytes.
- `HVLBuf`, query parameters, base64, date and path helpers, logging: easier.
