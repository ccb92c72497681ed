# Proofs about libuv 1.48.0

A Dafny 4.11 model of the parts of the vendored libuv tree whose correctness depends on every
interleaving, every pointer or every input, with proofs of what they promise. All source files are
under `myCore/network/socket/libuv/libuv-1.48.0_x86/`. `dafny verify dfyconfig.toml` checks
everything.

Where the source changes state in place, so does the model: pools, trees, heaps, rings and request
objects are classes, the codecs fill arrays, and loops are loops. Each such method is proved
against a function of the old state or the input; the lemmas say what that function means.

| file | models |
|---|---|
| `ThreadPool.dfy`, `PoolOrder.dfy` | the worker pool: queues, slow-I/O token, wake-ups, cancellation, completion; and in which order it starts work and calls back |
| `Async.dfy` | the wake-up protocol of async handles, down to its atomic accesses |
| `Barrier.dfy` | the hand-written reusable barrier |
| `RbTree.dfy` | the red-black tree macros on linked nodes |
| `Heap.dfy` | the linked binary heap, proved to refine an array heap |
| `Timers.dfy` | timers on that heap, and the pass that runs them under arbitrary callbacks |
| `Queue.dfy` | the circular list |
| `Utf8.dfy`, `Punycode.dfy`, `Idna.dfy` | UTF-8 decoding, RFC 3492, and names to ASCII |
| `Wtf8.dfy` | UTF-16 and WTF-8 |
| `Inet4.dfy`, `Inet6.dfy` | address text |
| `Epoll.dfy` | the epoll command ring against the direct branch |
| `WriteAll.dfy` | writing a buffer list through partial writes |
| `Runs.dfy`, `Arith.dfy`, `Common.dfy` | runs of a state machine; a few facts about products and quotients; shared types |

Protocols are state machines whose steps are the critical sections (pool, barrier) or the single
atomic accesses (async) of the source. A lemma about a run quantifies over every sequence of
enabled steps, of any length, with any number of threads and with spurious wake-ups. The methods
that perform one such step on the fields (`Async.AsyncLoop`, and `FinishItem`, `HandOverCancelled`,
`MoveCompletions` of `ThreadPool.Threads`) are proved equal to it and have no row of their own.

Where the code does not do what one might expect, the model follows the code, and the difference
is stated as a theorem:

- A cancelled request whose callback has already run still passes the test of `uv__work_cancel`
  (`ThreadPool.CancelVerdict`, `ThreadPool.StaleCancel`), and cancelling it again would call it
  again (`ThreadPool.CalledTwice`); the documentation says that a finished request cannot be
  cancelled.
- `uv__utf8_decode1` accepts some ill-formed sequences; `Utf8.AcceptedWellFormed` says exactly on
  which inputs an accepted character is well formed.
- `uv__wtf8_decode1` accepts overlong forms of three and four bytes (`Wtf8.OverlongAccepted`);
  `Wtf8.TextExact` says exactly which accepted texts are encodings.
- `uv_wtf8_to_utf16` fails an assertion for U+10000 and U+10FFFF; `Wtf8.RoundTrip16` is an
  if-and-only-if.
- `uv_utf16_to_wtf8` reports too great a length when the first character does not fit;
  `Wtf8.Utf16ToWtf8` says by how much.
- An ADD of a watched descriptor followed by another command for it in one batch can end with the
  wrong mask; `Epoll.BatchExact` says exactly when it does not.
- In `inet_ntop6` the middle case of the IPv4 test (a run of seven words) is never reached, because
  word 6 is then inside the run.
- `uv__fs_write_all` stops early if the buffers it offers in one call are all empty, because the
  call then returns 0: `WriteAll.StopsEarly` gives an input, and `WriteAll.WritesAll` says for which
  buffer lists it cannot happen.

## Model

| member | source | states |
|---|---|---|
| `ThreadPool.ExactlyOnce` | myCore/network/socket/libuv/libuv-1.48.0_x86/src/threadpool.c:57-160 | In every run of any length with any number of workers, a submitted item is in exactly one place; its work starts at most once and never after a successful cancel; its callback runs at most once, with ECANCELED if and only if it was cancelled, and only after its work ran otherwise |
| `ThreadPool.SlowIoCap` | myCore/network/socket/libuv/libuv-1.48.0_x86/src/threadpool.c:71-117 | In every reachable state the slow-I/O counter is the number of workers that hold a slow slot and is at most (nthreads+1)/2; pending slow work keeps the token queued; the token is queued at most once, exactly when its link says so |
| `ThreadPool.NoIdleBacklog` | myCore/network/socket/libuv/libuv-1.48.0_x86/src/threadpool.c:65-138 | Whenever a worker sleeps unsignalled, the others that are awake or signalled (not counting those that still hold a slow slot) are at least as many as the items that could start now |
| `ThreadPool.DrainBound` | myCore/network/socket/libuv/libuv-1.48.0_x86/src/threadpool.c:57-139 | Left alone, the pool comes to rest within a number of steps fixed by its state, whatever the scheduler does |
| `ThreadPool.QuiescentDelivered` | myCore/network/socket/libuv/libuv-1.48.0_x86/src/threadpool.c:308-331 | A pool in which no thread can take a step has called back every item ever submitted |
| `ThreadPool.DoneGrows` | myCore/network/socket/libuv/libuv-1.48.0_x86/src/threadpool.c:323-331 | The record of callbacks only ever grows at its end: none is unmade |
| `ThreadPool.CancelVerdict` | myCore/network/socket/libuv/libuv-1.48.0_x86/src/threadpool.c:288-296 | A cancel succeeds if and only if the item is still queued or was cancelled before, so an item whose work has started is never cancelled; the guard also passes for an item whose callback has already reported ECANCELED |
| `ThreadPool.StaleCancel` | myCore/network/socket/libuv/libuv-1.48.0_x86/src/threadpool.c:288-304 | A concrete run that reaches that last case: submit, cancel, deliver, and the guard still says yes |
| `ThreadPool.CalledTwice` | myCore/network/socket/libuv/libuv-1.48.0_x86/src/threadpool.c:288-331 | What such a cancel would do, from every state with the loop idle and its queues drained: the callback runs a second time |
| `ThreadPool.StepInv` | myCore/network/socket/libuv/libuv-1.48.0_x86/src/threadpool.c:57-160 | Every critical section of worker, post, cancel and completion keeps the whole invariant: items, counters, token, wake-ups, completion queue |
| `ThreadPool.RunInv` | myCore/network/socket/libuv/libuv-1.48.0_x86/src/threadpool.c:57-160 | So the invariant holds in every state of every run from start-up, and no worker is lost |
| `ThreadPool.PickInv` | myCore/network/socket/libuv/libuv-1.48.0_x86/src/threadpool.c:62-117 | A whole critical section of the worker loop keeps the invariant however often the loop goes around over the token |
| `ThreadPool.GoAroundShrinks` | myCore/network/socket/libuv/libuv-1.48.0_x86/src/threadpool.c:88-97 | The `continue` branches make progress, so a worker never goes around for ever with the mutex held |
| `ThreadPool.InternalEffort` | myCore/network/socket/libuv/libuv-1.48.0_x86/src/threadpool.c:57-139 | Every step the pool makes on its own lowers the measure behind `DrainBound` |
| `ThreadPool.Threads.WorkerCriticalSection` | myCore/network/socket/libuv/libuv-1.48.0_x86/src/threadpool.c:62-117 | The worker loop on the shared fields, from taking the mutex to giving it up, does exactly the specified step, and ends |
| `ThreadPool.Threads.Round` | myCore/network/socket/libuv/libuv-1.48.0_x86/src/threadpool.c:67-117 | One turn of that loop: sleep, take an item, take a slow item, move the token back, or drop it |
| `ThreadPool.Threads.TakeSlowItem` | myCore/network/socket/libuv/libuv-1.48.0_x86/src/threadpool.c:99-114 | Taking the first pending slow item puts the token at the end of the queue exactly if more is pending, and then signals |
| `ThreadPool.Threads.Reacquire` | myCore/network/socket/libuv/libuv-1.48.0_x86/src/threadpool.c:131-136 | Taking the mutex again gives back a slow slot, or leaves the idle count |
| `ThreadPool.Threads.SubmitWork` | myCore/network/socket/libuv/libuv-1.48.0_x86/src/threadpool.c:142-160 | `post` puts a slow item at the end of the pending queue and any other at the end of the queue; behind it the token and a signal, but only if the token was not queued already |
| `ThreadPool.Threads.CancelWork` | myCore/network/socket/libuv/libuv-1.48.0_x86/src/threadpool.c:281-296 | The test under both locks and the unlinking, from whichever queue the item is in |
| `ThreadPool.Threads.DeliverNext` | myCore/network/socket/libuv/libuv-1.48.0_x86/src/threadpool.c:323-331 | The first item of the batch gets its callback, with the status its mark says |
| `PoolOrder.StartsInOrder` | myCore/network/socket/libuv/libuv-1.48.0_x86/src/threadpool.c:57-160 | In every run slow items start in the order of their submission, and all other items in theirs |
| `PoolOrder.NobodyPassedOver` | myCore/network/socket/libuv/libuv-1.48.0_x86/src/threadpool.c:142-160 | In every run, when an item has started, so has every item of its kind submitted before it, unless that one was cancelled |
| `PoolOrder.SlowWaitsItsTurn` | myCore/network/socket/libuv/libuv-1.48.0_x86/src/threadpool.c:88-114 | In every run, while an item waits in the queue at most one slow item starts ahead of it: slow work is put off until after everything else that is queued |
| `PoolOrder.CallbacksInOrder` | myCore/network/socket/libuv/libuv-1.48.0_x86/src/threadpool.c:119-128 | In every run callbacks are made in the order in which workers and cancels completed the items, none left out |
| `RbTree.Head.InsertNode` | myCore/network/socket/libuv/libuv-1.48.0_x86/include/uv/tree.h:597-626 | On linked nodes with parent pointers: order, black root, no red-red edge and equal black height are kept; the node set grows by exactly the new node, or the existing equal node is returned and nothing at all is written |
| `RbTree.Head.RemoveNode` | myCore/network/socket/libuv/libuv-1.48.0_x86/include/uv/tree.h:530-595 | The same invariants are kept, the node set shrinks by exactly the given node object, and that node is returned |
| `RbTree.Head.InsertColor` | myCore/network/socket/libuv/libuv-1.48.0_x86/include/uv/tree.h:407-449 | From one possible red-red edge the fix-up loop restores all colour rules, and it ends |
| `RbTree.Head.RemoveColor` | myCore/network/socket/libuv/libuv-1.48.0_x86/include/uv/tree.h:451-528 | From a subtree that lacks one black node the fix-up loop restores all colour rules, never dereferences a missing sibling, and it ends |
| `RbTree.Head.FixLeft` | myCore/network/socket/libuv/libuv-1.48.0_x86/include/uv/tree.h:414-429 | One round with the parent on the left: recolour and move up, or at most two rotations and done |
| `RbTree.Head.FixRight` | myCore/network/socket/libuv/libuv-1.48.0_x86/include/uv/tree.h:430-446 | The mirror image |
| `RbTree.Head.RemoveRoundLeft` | myCore/network/socket/libuv/libuv-1.48.0_x86/include/uv/tree.h:458-490 | One round with the short child on the left: all four cases, the sibling being a node in each |
| `RbTree.Head.RemoveRoundRight` | myCore/network/socket/libuv/libuv-1.48.0_x86/include/uv/tree.h:491-523 | The mirror image |
| `RbTree.HasSiblingLeft` | myCore/network/socket/libuv/libuv-1.48.0_x86/include/uv/tree.h:459-460 | The sibling that is dereferenced is never NULL |
| `RbTree.HasSiblingRight` | myCore/network/socket/libuv/libuv-1.48.0_x86/include/uv/tree.h:492-493 | The sibling that is dereferenced is never NULL, on the other side |
| `RbTree.Head.ReplaceBySuccessor` | myCore/network/socket/libuv/libuv-1.48.0_x86/include/uv/tree.h:538-579 | The successor is unlinked and takes the links and colour of the removed node; where the black node is then missing is what the fix-up is told |
| `RbTree.Head.FindSuccessor` | myCore/network/socket/libuv/libuv-1.48.0_x86/include/uv/tree.h:540-542 | The loop finds the least node right of the given one |
| `RbTree.SuccessorFits` | myCore/network/socket/libuv/libuv-1.48.0_x86/include/uv/tree.h:538-553 | Once unlinked, the successor has the removed node's place in the order of all other nodes |
| `RbTree.Head.RotateLeft` | myCore/network/socket/libuv/libuv-1.48.0_x86/include/uv/tree.h:342-360 | The pointer assignments turn the linked tree into the rotated tree, every parent link and the root included |
| `RbTree.Head.RotateRight` | myCore/network/socket/libuv/libuv-1.48.0_x86/include/uv/tree.h:362-380 | The mirror image |
| `RbTree.RotLTree` | myCore/network/socket/libuv/libuv-1.48.0_x86/include/uv/tree.h:342-360 | A left rotation anywhere in the tree keeps the search order and exactly the set of nodes |
| `RbTree.RotRTree` | myCore/network/socket/libuv/libuv-1.48.0_x86/include/uv/tree.h:362-380 | A right rotation anywhere in the tree keeps the search order and exactly the set of nodes |
| `RbTree.UncleRedTreeLeft` | myCore/network/socket/libuv/libuv-1.48.0_x86/include/uv/tree.h:415-421 | First insertion case: the only possible red-red edge moves two levels up |
| `RbTree.InnerTreeLeft` | myCore/network/socket/libuv/libuv-1.48.0_x86/include/uv/tree.h:422-427 | Second insertion case: a rotation of the parent leaves the third case |
| `RbTree.OuterTreeLeft` | myCore/network/socket/libuv/libuv-1.48.0_x86/include/uv/tree.h:428-429 | Third insertion case: one rotation of the grandparent ends the repair |
| `RbTree.RedSiblingTreeLeft` | myCore/network/socket/libuv/libuv-1.48.0_x86/include/uv/tree.h:460-464 | First removal case: the short side gets a black sibling |
| `RbTree.BlackNephewsTreeLeft` | myCore/network/socket/libuv/libuv-1.48.0_x86/include/uv/tree.h:465-471 | Second removal case: the short place moves one level up |
| `RbTree.NearNephewTreeLeft` | myCore/network/socket/libuv/libuv-1.48.0_x86/include/uv/tree.h:473-482 | Third removal case: a rotation of the sibling leaves a far red nephew |
| `RbTree.FarNephewTreeLeft` | myCore/network/socket/libuv/libuv-1.48.0_x86/include/uv/tree.h:483-489 | Fourth removal case: one rotation restores equal black heights |
| `RbTree.Head.Search` | myCore/network/socket/libuv/libuv-1.48.0_x86/include/uv/tree.h:604-616 | The search loop finds a node with the key, or the place where a new leaf belongs |
| `RbTree.Head.Find` | myCore/network/socket/libuv/libuv-1.48.0_x86/include/uv/tree.h:628-644 | A node with the key if there is one; NULL only if no node has it |
| `RbTree.Head.NFind` | myCore/network/socket/libuv/libuv-1.48.0_x86/include/uv/tree.h:646-665 | The first node not less than the key among all nodes; NULL only if all are less |
| `RbTree.Head.Next` | myCore/network/socket/libuv/libuv-1.48.0_x86/include/uv/tree.h:667-687 | The node that follows in the order of all nodes, by links alone; NULL only for the last |
| `RbTree.Head.MinMax` | myCore/network/socket/libuv/libuv-1.48.0_x86/include/uv/tree.h:711-724 | The first or the last node of all; NULL only for an empty tree |
| `RbTree.Head.Foreach` | myCore/network/socket/libuv/libuv-1.48.0_x86/include/uv/tree.h:738-741 | From the minimum by `RB_NEXT` every node is met once, in increasing order, and nothing else |
| `Utf8.Decode1` | myCore/network/socket/libuv/libuv-1.48.0_x86/src/idna.c:71-149 | The cursor always advances and stays in bounds; an accepted character is a scalar value, and ASCII exactly if it is one byte |
| `Utf8.DecodesWellFormed` | myCore/network/socket/libuv/libuv-1.48.0_x86/src/idna.c:71-149 | A well-formed character (section 3 of RFC 3629) decodes to itself and the cursor lands just behind it |
| `Utf8.AcceptedWellFormed` | myCore/network/socket/libuv/libuv-1.48.0_x86/src/idna.c:82-134 | An accepted character is the UTF-8 of the result if and only if the input has, from the cursor on, a lead byte and all the continuation bytes that byte announces |
| `Utf8.ShapedExact` | myCore/network/socket/libuv/libuv-1.48.0_x86/src/idna.c:71-149 | When all the bytes that the lead byte announces are there, a character is accepted if and only if it is well-formed UTF-8 |
| `Utf8.RefusesStray` | myCore/network/socket/libuv/libuv-1.48.0_x86/src/idna.c:83-114 | A byte that cannot begin a character is refused alone, and so is a lead byte with nothing behind it |
| `Utf8.RefusesOneWrong` | myCore/network/socket/libuv/libuv-1.48.0_x86/src/idna.c:117-118 | If exactly one of the bytes announced is not a continuation byte, the character is refused |
| `Utf8.ReadsCutOff` | myCore/network/socket/libuv/libuv-1.48.0_x86/src/idna.c:86-114 | What a character cut off by the end of the input is read as |
| `Utf8.IllFormedAccepted` | myCore/network/socket/libuv/libuv-1.48.0_x86/src/idna.c:82-118 | Two inputs that are not UTF-8 and are accepted all the same |
| `Utf8.CharsOfEncoding` | myCore/network/socket/libuv/libuv-1.48.0_x86/src/idna.c:138-149 | Every well-formed text is read back exactly, behind any prefix |
| `Punycode.RoundTrip` | myCore/network/socket/libuv/libuv-1.48.0_x86/src/idna.c:152-315 | Decoding by section 6.2 of RFC 3492 gives back exactly the code points, for every label |
| `Punycode.RebuildsPass` | myCore/network/socket/libuv/libuv-1.48.0_x86/src/idna.c:227-312 | The deltas of the passes, taken as insertions, rebuild the label in order |
| `Punycode.ReadVarint` | myCore/network/socket/libuv/libuv-1.48.0_x86/src/idna.c:261-287 | The variable-length integers that are written are read back, behind any bias |
| `Punycode.ReadDigits` | myCore/network/socket/libuv/libuv-1.48.0_x86/src/idna.c:261-308 | Encoder and decoder adapt the bias in step, so reading the digits is rebuilding the label |
| `Punycode.Inserts` | myCore/network/socket/libuv/libuv-1.48.0_x86/src/idna.c:258-308 | One delta says exactly where the next code point is inserted |
| `Idna.ToAscii` | myCore/network/socket/libuv/libuv-1.48.0_x86/src/idna.c:318-367 | The call succeeds if and only if the input is non-empty legal UTF-8, every delta of every label fits 32 bits, and the text with its NUL fits the buffer; then the buffer holds exactly the labels' encodings joined by full stops and the NUL, and their length is returned. Nothing is cut off silently, and each error is the one the code gives |
| `Idna.ToAsciiLabel` | myCore/network/socket/libuv/libuv-1.48.0_x86/src/idna.c:152-315 | Per label and whatever the room: EINVAL exactly for illegal UTF-8, E2BIG exactly if a delta would not fit 32 bits, otherwise the label's text is written as far as there is room |
| `Idna.LabelMeaning` | myCore/network/socket/libuv/libuv-1.48.0_x86/src/idna.c:189-220 | An ASCII label stands for itself; behind "xn--" stands text that decodes to exactly the label |
| `Idna.AsciiName` | myCore/network/socket/libuv/libuv-1.48.0_x86/src/idna.c:197-215 | An all-ASCII name comes out unchanged, and always fits the counters |
| `Idna.TooBig` | myCore/network/socket/libuv/libuv-1.48.0_x86/src/idna.c:243-256 | A delta that does not fit makes the label as a whole not fit |
| `Idna.OnePass` | myCore/network/socket/libuv/libuv-1.48.0_x86/src/idna.c:249-308 | One pass over the label writes the deltas of one code point, or reports the overflow |
| `Idna.NextCodePoint` | myCore/network/socket/libuv/libuv-1.48.0_x86/src/idna.c:228-247 | The least code point not handled yet, unless advancing to it would overflow |
| `Idna.Increment` | myCore/network/socket/libuv/libuv-1.48.0_x86/src/idna.c:254-256 | The counter wraps to 0 only if the delta does not fit |
| `Idna.WriteDelta` | myCore/network/socket/libuv/libuv-1.48.0_x86/src/idna.c:261-287 | The digits written are the variable-length integer of the delta |
| `Idna.NextBias` | myCore/network/socket/libuv/libuv-1.48.0_x86/src/idna.c:289-305 | The bias is the adapt function of section 6.1 of RFC 3492, without overflow |
| `Idna.Count` | myCore/network/socket/libuv/libuv-1.48.0_x86/src/idna.c:177-187 | The first loop rejects illegal input and counts ASCII and other characters |
| `Idna.WriteBasic` | myCore/network/socket/libuv/libuv-1.48.0_x86/src/idna.c:198-212 | The second loop writes exactly the ASCII characters, in order |
| `Idna.WriteName` | myCore/network/socket/libuv/libuv-1.48.0_x86/src/idna.c:330-360 | All labels: split at the four dots of section 3.1 of RFC 3490, joined by full stops |
| `Idna.SplitsAtDot` | myCore/network/socket/libuv/libuv-1.48.0_x86/src/idna.c:330-360 | A name is split at its first dot, whichever of the four code points it is: the text is that of the first label, a full stop, and that of the rest; it fits if both do |
| `Idna.NoSplit` | myCore/network/socket/libuv/libuv-1.48.0_x86/src/idna.c:362-367 | A name without any of the four is one label |
| `Idna.LabelCount` | myCore/network/socket/libuv/libuv-1.48.0_x86/src/idna.c:330-360 | There is one label more than there are occurrences of the four code points |
| `Idna.ClosedLabels` | myCore/network/socket/libuv/libuv-1.48.0_x86/src/idna.c:333-351 | Which of the two errors a name with an illegal character gets: E2BIG exactly if one of the labels closed before that character does not fit |
| `Idna.KnownName` | myCore/network/socket/libuv/libuv-1.48.0_x86/src/idna.c:318-367 | A known answer: a word with a tilde, an ideographic full stop, and "com" |
| `Punycode.KnownDigits` | myCore/network/socket/libuv/libuv-1.48.0_x86/src/idna.c:227-312 | A known answer: the digits of three deltas, read with three different biases |
| `Punycode.KnownBias` | myCore/network/socket/libuv/libuv-1.48.0_x86/src/idna.c:289-305 | Known answers of the bias adaptation, with and without the first-time damping, and on both sides of its loop bound |
| `Heap.Heap.Insert` | myCore/network/socket/libuv/libuv-1.48.0_x86/src/heap-inl.h:106-148 | On linked nodes: the tree stays complete and consistently linked, its level order is that of an array heap insert, the node set grows by the new node, and the count is exact |
| `Heap.Heap.Remove` | myCore/network/socket/libuv/libuv-1.48.0_x86/src/heap-inl.h:150-237 | For a member at any place: the level order is that of an array heap removal, exactly the node leaves, and every other node object stays; an empty heap is left alone |
| `Heap.Heap.Dequeue` | myCore/network/socket/libuv/libuv-1.48.0_x86/src/heap-inl.h:239-241 | Removal of the root |
| `Heap.Heap.Min` | myCore/network/socket/libuv/libuv-1.48.0_x86/src/heap-inl.h:67-69 | The root, which no member is less than; NULL exactly for the empty heap |
| `Heap.InsertedHeap` | myCore/network/socket/libuv/libuv-1.48.0_x86/src/heap-inl.h:143-147 | The array insert keeps the heap order and adds exactly one element |
| `Heap.RemovedHeap` | myCore/network/socket/libuv/libuv-1.48.0_x86/src/heap-inl.h:216-236 | The array removal of any element keeps the heap order and takes away exactly that element |
| `Heap.SiftUpOrders` | myCore/network/socket/libuv/libuv-1.48.0_x86/src/heap-inl.h:146-147 | Sifting up restores the heap order and permutes the elements |
| `Heap.SiftDownOrders` | myCore/network/socket/libuv/libuv-1.48.0_x86/src/heap-inl.h:220-229 | Sifting down leaves at most the place reached out of order with its parent |
| `Heap.RootIsLeast` | myCore/network/socket/libuv/libuv-1.48.0_x86/src/heap-inl.h:67-69 | In a heap no element is less than the root |
| `Heap.BitsLead` | myCore/network/socket/libuv/libuv-1.48.0_x86/src/heap-inl.h:119-136 | The bits of the element count lead from the root to the next place in level order |
| `Heap.Heap.Swap` | myCore/network/socket/libuv/libuv-1.48.0_x86/src/heap-inl.h:72-104 | The struct copies and link repairs exchange parent and child in level order and leave every other link consistent |
| `Heap.Heap.Descend` | myCore/network/socket/libuv/libuv-1.48.0_x86/src/heap-inl.h:126-136 | Following the bits reaches the slot of the free place and its parent |
| `Heap.PathTo` | myCore/network/socket/libuv/libuv-1.48.0_x86/src/heap-inl.h:119-124 | The path is the reversed bits of the count and fits its unsigned int |
| `Heap.Heap.Append` | myCore/network/socket/libuv/libuv-1.48.0_x86/src/heap-inl.h:115-141 | The new node is linked behind all others, whatever the count |
| `Heap.Heap.Last` | myCore/network/socket/libuv/libuv-1.48.0_x86/src/heap-inl.h:163-184 | The node found is the last in level order |
| `Heap.Heap.Refill` | myCore/network/socket/libuv/libuv-1.48.0_x86/src/heap-inl.h:195-236 | The last node takes the place of the removed one and is sifted down and up |
| `Timers.CollectsInOrder` | myCore/network/socket/libuv/libuv-1.48.0_x86/src/timer.c:173-184 | The first loop keeps the ready queue sorted and before every active timer |
| `Timers.CollectsDue` | myCore/network/socket/libuv/libuv-1.48.0_x86/src/timer.c:173-184 | The first loop moves exactly the due timers and stops them |
| `Timers.FiresExactly` | myCore/network/socket/libuv/libuv-1.48.0_x86/src/timer.c:186-194 | A queued timer is called if and only if no callback before its turn touched it |
| `Timers.TimerLoop.NextTimeout` | myCore/network/socket/libuv/libuv-1.48.0_x86/src/timer.c:144-162 | -1 if and only if no timer is active; otherwise the least over all active timers of the time left, at least 0 and at most INT_MAX |
| `Timers.EarliestIsFirst` | myCore/network/socket/libuv/libuv-1.48.0_x86/src/timer.c:38-55 | The simple scan finds the timer that comes before all other active ones |
| `Timers.TimerLoop.First` | myCore/network/socket/libuv/libuv-1.48.0_x86/src/timer.c:174-178 | The root of the heap is the timer the simple scan finds |
| `Timers.TimerLoop.Start` | myCore/network/socket/libuv/libuv-1.48.0_x86/src/timer.c:68-95 | EINVAL and no change for a closing timer or without a callback; otherwise the timer is active and due at loop time plus timeout (or the end of the clock), with the given interval and the next start number, every other timer unchanged, and the heap holding exactly the active timers |
| `Timers.TimerLoop.Stop` | myCore/network/socket/libuv/libuv-1.48.0_x86/src/timer.c:98-110 | An active timer leaves the heap, another leaves the ready queue |
| `Timers.TimerLoop.Again` | myCore/network/socket/libuv/libuv-1.48.0_x86/src/timer.c:113-123 | A repeating timer is due one interval from now, with its interval and the next start number; without an interval or a callback nothing changes, and without a callback the answer is EINVAL |
| `Timers.TimerLoop.Close` | myCore/network/socket/libuv/libuv-1.48.0_x86/src/timer.c:198-200 | The closing flag and a stop |
| `Timers.TimerLoop.SetInterval` | myCore/network/socket/libuv/libuv-1.48.0_x86/src/timer.c:126-128 | Only the interval changes |
| `Timers.TimerLoop.Init` | myCore/network/socket/libuv/libuv-1.48.0_x86/src/timer.c:58-65 | One more inactive handle |
| `Timers.DueFrom` | myCore/network/socket/libuv/libuv-1.48.0_x86/src/timer.c:68-95 | A timer started is due at exactly the clock values from loop time plus timeout on |
| `Timers.EarlierStartFirst` | myCore/network/socket/libuv/libuv-1.48.0_x86/src/timer.c:38-55 | Of two timers due at the same time the one started first is called first, whatever the callbacks of the pass do |
| `Timers.PassRearms` | myCore/network/socket/libuv/libuv-1.48.0_x86/src/timer.c:113-195 | A due timer that no callback of the pass touches is called; a repeating one is then due one interval after the clock at its call, any other is stopped |
| `Timers.PassLeaves` | myCore/network/socket/libuv/libuv-1.48.0_x86/src/timer.c:165-195 | A timer that is not due and that no callback touches is not called and stays as it is |
| `Timers.Clamp` | myCore/network/socket/libuv/libuv-1.48.0_x86/src/timer.c:79-81 | The 64-bit sum saturates instead of wrapping |
| `Async.NoLostWakeUp` | myCore/network/socket/libuv/libuv-1.48.0_x86/src/unix/async.c:65-178 | In every interleaving of any number of senders: while an open handle has pending set, the wake descriptor is readable, or a sender is between its exchange and its write, or the loop has drained and not yet visited the handle |
| `Async.RestOwesNothing` | myCore/network/socket/libuv/libuv-1.48.0_x86/src/unix/async.c:65-178 | At rest no send to an open handle still waits for its callback |
| `Async.OwedUntilCalled` | myCore/network/socket/libuv/libuv-1.48.0_x86/src/unix/async.c:65-87 | A send is owed until a visit of its handle, and that visit makes the callback |
| `Async.QuietAfterClose` | myCore/network/socket/libuv/libuv-1.48.0_x86/src/unix/async.c:92-129 | After a close has returned, no sender ever writes the descriptor through that handle again, and the loop never visits it |
| `Async.StepInv` | myCore/network/socket/libuv/libuv-1.48.0_x86/src/unix/async.c:65-178 | Every atomic step of senders and loop keeps the invariant |
| `Async.RunInv` | myCore/network/socket/libuv/libuv-1.48.0_x86/src/unix/async.c:65-178 | So it holds in every reachable state |
| `Async.CallsNeedSends` | myCore/network/socket/libuv/libuv-1.48.0_x86/src/unix/async.c:156-177 | In every run a handle is called back at most as often as a sender made an exchange on it |
| `Async.SendBetweenCalls` | myCore/network/socket/libuv/libuv-1.48.0_x86/src/unix/async.c:156-177 | In every run some sender made an exchange on the handle between any two callbacks of it |
| `Async.WritesAreCoalesced` | myCore/network/socket/libuv/libuv-1.48.0_x86/src/unix/async.c:65-87 | In every run the descriptor is written for a handle at most once more than the handle is called back |
| `Async.DescriptorBalance` | myCore/network/socket/libuv/libuv-1.48.0_x86/src/unix/async.c:132-156 | What can be read from the descriptor is what was written less what was read |
| `Barrier.Generations` | myCore/network/socket/libuv/libuv-1.48.0_x86/src/thread-common.c:85-120 | In every run with spurious wake-ups: nobody leaves a generation before `threshold` threads entered it, nobody is counted into the next before all have left, and exactly one thread per generation returns 1 |
| `Barrier.ReturnsInOwn` | myCore/network/socket/libuv/libuv-1.48.0_x86/src/thread-common.c:108-119 | In every run a thread returns in the generation it was counted into, that generation is complete, and the 1 goes to the return that empties it |
| `Barrier.NeverStuck` | myCore/network/socket/libuv/libuv-1.48.0_x86/src/thread-common.c:99-120 | With `threshold` threads inside, one is awake; nobody sleeps whose condition holds |
| `Barrier.StepInv` | myCore/network/socket/libuv/libuv-1.48.0_x86/src/thread-common.c:99-120 | Every step keeps the invariant on the two counters, the sleepers and the history |
| `Barrier.RunInv` | myCore/network/socket/libuv/libuv-1.48.0_x86/src/thread-common.c:85-120 | So it holds in every reachable state |
| `Barrier.CanResume` | myCore/network/socket/libuv/libuv-1.48.0_x86/src/thread-common.c:109-114 | A woken thread always has a next step |
| `Barrier.Barrier.FromGate` | myCore/network/socket/libuv/libuv-1.48.0_x86/src/thread-common.c:101-112 | From the first loop to the next wait or the return, on the mutable counters |
| `Barrier.Barrier.FromInner` | myCore/network/socket/libuv/libuv-1.48.0_x86/src/thread-common.c:108-119 | From waking in the second loop to the next wait or the return; 1 exactly for the last to leave |
| `Barrier.Barrier.Return` | myCore/network/socket/libuv/libuv-1.48.0_x86/src/thread-common.c:114-119 | Leaving: the last one wakes the gate |
| `Inet4.Exact4` | myCore/network/socket/libuv/libuv-1.48.0_x86/src/inet.c:175-211 | inet_pton4 returns an address for a text if and only if the text is what inet_ntop4 prints for that address |
| `Inet4.Decimal` | myCore/network/socket/libuv/libuv-1.48.0_x86/src/inet.c:48-60 | Each octet is printed in decimal, without leading zeros |
| `Inet4.ParseV4` | myCore/network/socket/libuv/libuv-1.48.0_x86/src/inet.c:175-211 | The loop over the octets computes that parser, with EINVAL for everything else |
| `Inet6.Exact6` | myCore/network/socket/libuv/libuv-1.48.0_x86/src/inet.c:214-298 | inet_pton6 accepts exactly the texts of valid forms (section 2.2 of RFC 4291, "::" for at least one group, strict IPv4 ending), and returns the 16 bytes they denote |
| `Inet6.RoundTrip6` | myCore/network/socket/libuv/libuv-1.48.0_x86/src/inet.c:62-143 | inet_pton6 reads back every address that inet_ntop6 prints |
| `Inet6.PtonSound` | myCore/network/socket/libuv/libuv-1.48.0_x86/src/inet.c:226-298 | Every accepted text has a valid form that denotes the result |
| `Inet6.PtonComplete` | myCore/network/socket/libuv/libuv-1.48.0_x86/src/inet.c:226-298 | The text of every valid form is accepted and denotes its bytes |
| `Inet6.CountExact` | myCore/network/socket/libuv/libuv-1.48.0_x86/src/inet.c:226-298 | A text of groups with at most one "::" is accepted if and only if it has eight groups, an IPv4 ending counting as two, or at most seven and the "::" |
| `Inet6.HexDigits` | myCore/network/socket/libuv/libuv-1.48.0_x86/src/inet.c:217-245 | The hex digits are those of either case, each with its value |
| `Inet6.ParseV6` | myCore/network/socket/libuv/libuv-1.48.0_x86/src/inet.c:214-298 | The program computes that parser on its 16-byte buffer, with EINVAL for everything else |
| `Inet6.ScanText` | myCore/network/socket/libuv/libuv-1.48.0_x86/src/inet.c:226-271 | The main loop, with its cursor, group value and buffer, computes the scan |
| `Inet6.Shift` | myCore/network/socket/libuv/libuv-1.48.0_x86/src/inet.c:283-291 | The in-place shift moves every byte behind the gap to the end and leaves zeros; no byte is overwritten unread |
| `Inet6.FinishText` | myCore/network/socket/libuv/libuv-1.48.0_x86/src/inet.c:272-295 | The last group, the shift and the final length check |
| `Inet6.FindRun` | myCore/network/socket/libuv/libuv-1.48.0_x86/src/inet.c:83-106 | The run elided is the leftmost of the longest runs of at least two zero words (sections 4.2.2 and 4.2.3 of RFC 5952), or none exactly if there is no such run |
| `Inet6.OneBest` | myCore/network/socket/libuv/libuv-1.48.0_x86/src/inet.c:83-106 | That run is unique, so there is one canonical text |
| `Inet6.PrintV6` | myCore/network/socket/libuv/libuv-1.48.0_x86/src/inet.c:62-143 | The canonical text, never more than 40 bytes with its NUL; ENOSPC exactly if it does not fit the size given. From the bytes: an IPv4-mapped address gives "::ffff:" and the dotted quad, twelve zero bytes before a word that is not zero give "::" and the dotted quad, and any other text has only lower-case hex digits and colons |
| `Inet6.MappedText` | myCore/network/socket/libuv/libuv-1.48.0_x86/src/inet.c:123-131 | The text of an IPv4-mapped address |
| `Inet6.CompatibleText` | myCore/network/socket/libuv/libuv-1.48.0_x86/src/inet.c:123-131 | The text of an address with twelve zero bytes before a word that is not zero |
| `Inet6.PlainText` | myCore/network/socket/libuv/libuv-1.48.0_x86/src/inet.c:111-138 | The text of every other address has only lower-case hex digits and colons |
| `Inet6.FullText` | myCore/network/socket/libuv/libuv-1.48.0_x86/src/inet.c:111-138 | Without two zero words in a row the text is the eight words joined by colons |
| `Inet6.GapText` | myCore/network/socket/libuv/libuv-1.48.0_x86/src/inet.c:111-138 | Otherwise, unless the ending is dotted, it is the words before the run elided and those behind it, each joined by colons, around "::" |
| `Inet6.CanonDenotes` | myCore/network/socket/libuv/libuv-1.48.0_x86/src/inet.c:111-137 | The canonical form is valid and denotes the address printed |
| `Inet6.FormatV6` | myCore/network/socket/libuv/libuv-1.48.0_x86/src/inet.c:111-138 | The formatting loop writes the canonical text |
| `Inet6.FinalLength` | myCore/network/socket/libuv/libuv-1.48.0_x86/src/inet.c:70-138 | The text with its NUL is at most 40 bytes, whatever the run |
| `Wtf8.RoundTrip16` | myCore/network/socket/libuv/libuv-1.48.0_x86/src/idna.c:387-560 | UTF-16 to WTF-8 and back is the identity on a NUL-free unit sequence, unpaired surrogates included, if and only if it holds no surrogate pair for U+10000 or U+10FFFF |
| `Wtf8.Wtf8ToUtf16` | myCore/network/socket/libuv/libuv-1.48.0_x86/src/idna.c:387-409 | For a text its length function accepts: no assertion fails exactly if the conversion is defined, and then exactly those units are written |
| `Wtf8.Wtf8LengthAsUtf16` | myCore/network/socket/libuv/libuv-1.48.0_x86/src/idna.c:370-384 | -1 exactly for a text the decoder refuses, otherwise the number of units counted per code point |
| `Wtf8.Utf16LengthAsWtf8` | myCore/network/socket/libuv/libuv-1.48.0_x86/src/idna.c:427-457 | Exactly the length of the encoding, for a given length or up to the NUL |
| `Wtf8.Utf16ToWtf8` | myCore/network/socket/libuv/libuv-1.48.0_x86/src/idna.c:460-560 | 0 if and only if the capacity is at least the encoding's length, and then exactly the encoding and a NUL are stored; otherwise the first bytes that fit, and the length reported is exact except that it overshoots by the capacity when the first character is cut |
| `Wtf8.CleanPasses` | myCore/network/socket/libuv/libuv-1.48.0_x86/src/idna.c:396-397 | The assertions pass exactly if no pair for U+10000 or U+10FFFF occurs |
| `Wtf8.ReadEncoded` | myCore/network/socket/libuv/libuv-1.48.0_x86/src/idna.c:28-68 | Every code point, surrogates included, is decoded from its encoding with the cursor on its last byte |
| `Wtf8.TextExact` | myCore/network/socket/libuv/libuv-1.48.0_x86/src/idna.c:28-68 | A text is the encoding of code points, surrogates included, if and only if the decoder accepts it and nowhere 0xE0 stands before a byte 0x80-0x9F or 0xF0 before a byte 0x80-0x8F |
| `Wtf8.CharExact` | myCore/network/socket/libuv/libuv-1.48.0_x86/src/idna.c:28-68 | An accepted character is the encoding of its code point if and only if it is not such an overlong form |
| `Wtf8.OverlongAccepted` | myCore/network/socket/libuv/libuv-1.48.0_x86/src/idna.c:28-68 | Two overlong forms that are accepted |
| `Wtf8.Fill` | myCore/network/socket/libuv/libuv-1.48.0_x86/src/idna.c:494-539 | The filling loop stores a prefix of the encoding and tells whether input remained |
| `Epoll.BatchExact` | myCore/network/socket/libuv/libuv-1.48.0_x86/src/unix/linux.c:1263-1328 | For every batch that the direct branch runs without abort: the batch and its retries give the same descriptors and masks if and only if every last ADD of an already watched descriptor names the mask the descriptor ends with; and no completion aborts |
| `Epoll.BatchRefines` | myCore/network/socket/libuv/libuv-1.48.0_x86/src/unix/linux.c:1263-1328 | In particular when nothing but another ADD follows an ADD of the same descriptor |
| `Epoll.OrderMatters` | myCore/network/socket/libuv/libuv-1.48.0_x86/src/unix/linux.c:1263-1328 | A batch on which they differ: an ADD of a watched descriptor and then a MOD of it |
| `Epoll.OrderlySettles` | myCore/network/socket/libuv/libuv-1.48.0_x86/src/unix/linux.c:1294-1298 | Such batches always meet the exact condition |
| `Epoll.MaskAside` | myCore/network/socket/libuv/libuv-1.48.0_x86/src/unix/linux.c:1294-1298 | The mask of a watched descriptor does not matter to commands that only add it again |
| `Epoll.LastCommandWins` | myCore/network/socket/libuv/libuv-1.48.0_x86/src/unix/linux.c:1222-1238 | In the direct branch the last command for a descriptor decides: unwatched after DEL, watched with its mask after ADD or MOD |
| `Epoll.AbortsExactly` | myCore/network/socket/libuv/libuv-1.48.0_x86/src/unix/linux.c:1222-1238 | The direct branch aborts if and only if a MOD finds its descriptor unwatched |
| `Epoll.Ctl.PrepAll` | myCore/network/socket/libuv/libuv-1.48.0_x86/src/unix/linux.c:1210-1260 | Any orderly list of commands, prepared one by one and drained, in whatever batches the full ring makes of it, leaves the kernel as the direct branch would |
| `Epoll.Ctl.Drain` | myCore/network/socket/libuv/libuv-1.48.0_x86/src/unix/linux.c:1580-1582 | At most two flushes empty the ring, because only ADD is retried, as MOD; then the kernel has what the direct branch would have given it |
| `Epoll.Ctl.Flush` | myCore/network/socket/libuv/libuv-1.48.0_x86/src/unix/linux.c:1263-1328 | What a flush leaves queued, run directly, comes to what was queued, run directly; only retries are left |
| `Epoll.Ctl.Prep` | myCore/network/socket/libuv/libuv-1.48.0_x86/src/unix/linux.c:1239-1259 | A command takes the next slot, and a full ring is flushed; no slot is reused before its submission |
| `Epoll.Ctl.HandleOne` | myCore/network/socket/libuv/libuv-1.48.0_x86/src/unix/linux.c:1299-1327 | One completion: ignored or retried with the original mask; neither abort is reached |
| `Epoll.Ctl.Enter` | myCore/network/socket/libuv/libuv-1.48.0_x86/src/unix/linux.c:1279-1290 | The kernel runs everything queued in order, and each completion carries its submission's user data |
| `Epoll.Unpack` | myCore/network/socket/libuv/libuv-1.48.0_x86/src/unix/linux.c:1255-1310 | Operation, slot and descriptor are recovered from the user data |
| `WriteAll.WritesAll` | myCore/network/socket/libuv/libuv-1.48.0_x86/src/unix/fs.c:1500-1543 | A descriptor that always accepts something gets every byte if and only if nowhere in the list `iovmax` empty buffers in a row stand before a non-empty one |
| `WriteAll.StopsEarly` | myCore/network/socket/libuv/libuv-1.48.0_x86/src/unix/fs.c:1512-1525 | An input where it stops early: one buffer a call, the first one empty; 0 is returned and the byte behind is not written |
| `WriteAll.Conserves` | myCore/network/socket/libuv/libuv-1.48.0_x86/src/unix/fs.c:1500-1543 | Whatever the descriptor does and whatever the iovec limit: exactly the first `total` bytes of the buffers were accepted, each once, in order, at consecutive offsets; offset and remaining buffers match; buffers are left over only if the last answer was no progress, which is the result if nothing was accepted |
| `WriteAll.Request.WriteAll` | myCore/network/socket/libuv/libuv-1.48.0_x86/src/unix/fs.c:1500-1543 | The loop over the request returns, logs and leaves behind exactly what the run of its buffers against the descriptor does, call by call |
| `WriteAll.FailsWith` | myCore/network/socket/libuv/libuv-1.48.0_x86/src/unix/fs.c:1517-1525 | A call that fails at once, after any number of interruptions, is reported with its own code and changes nothing |
| `WriteAll.BlockedIsRow` | myCore/network/socket/libuv/libuv-1.48.0_x86/src/unix/fs.c:1512-1515 | The recursive test behind `WritesAll` finds exactly the rows of `iovmax` empty buffers that have a non-empty one behind them |
| `WriteAll.DropKeeps` | myCore/network/socket/libuv/libuv-1.48.0_x86/src/unix/fs.c:1486-1498 | Moving past what a call accepted never ends inside a row of empty buffers |
| `WriteAll.DropContent` | myCore/network/socket/libuv/libuv-1.48.0_x86/src/unix/fs.c:1486-1498 | Moving past some bytes drops exactly those bytes of the content |
| `WriteAll.BufOffset` | myCore/network/socket/libuv/libuv-1.48.0_x86/src/unix/fs.c:1486-1498 | In place: finished buffers are passed, a partly written one is cut, nothing before them changes, and indexing stays in range |
| `WriteAll.Request.Write` | myCore/network/socket/libuv/libuv-1.48.0_x86/src/unix/fs.c:1517-1519 | Interruptions are retried; at most what the offered buffers hold is accepted, as a prefix |
| `Queue.OneReading` | myCore/network/socket/libuv/libuv-1.48.0_x86/src/queue.h:24-42 | The links alone determine the items of a head and their order |
| `Queue.Turn` | myCore/network/socket/libuv/libuv-1.48.0_x86/src/queue.h:24-25 | The same ring can be read from any of its nodes |
| `Queue.Node.constructor` | myCore/network/socket/libuv/libuv-1.48.0_x86/src/queue.h:27-30 | A new node is a ring of its own |
| `Queue.Init` | myCore/network/socket/libuv/libuv-1.48.0_x86/src/queue.h:27-30 | The node becomes a ring of its own |
| `Queue.Empty` | myCore/network/socket/libuv/libuv-1.48.0_x86/src/queue.h:32-34 | True exactly if the head has no items |
| `Queue.Head` | myCore/network/socket/libuv/libuv-1.48.0_x86/src/queue.h:36-38 | The first item, or the head itself |
| `Queue.InsertHead` | myCore/network/socket/libuv/libuv-1.48.0_x86/src/queue.h:69-75 | The node becomes the first item |
| `Queue.InsertTail` | myCore/network/socket/libuv/libuv-1.48.0_x86/src/queue.h:77-83 | The node becomes the last item |
| `Queue.Remove` | myCore/network/socket/libuv/libuv-1.48.0_x86/src/queue.h:85-88 | The item leaves its ring without naming the head; its own two links stay as they were |
| `Queue.Add` | myCore/network/socket/libuv/libuv-1.48.0_x86/src/queue.h:44-49 | The items of the second head go behind those of the first, empty lists included |
| `Queue.Split` | myCore/network/socket/libuv/libuv-1.48.0_x86/src/queue.h:51-60 | The items from the given one on move to the new head |
| `Queue.Move` | myCore/network/socket/libuv/libuv-1.48.0_x86/src/queue.h:62-67 | All items move to the new head, and the old one is empty |
| `Queue.VisitsExactly` | myCore/network/socket/libuv/libuv-1.48.0_x86/src/unix/async.c:160-177 | For any callbacks that unlink or append nodes: an item is visited, and no earlier callback unlinked it, or it is not, and a callback that was made unlinked it |
| `Queue.VisitsAll` | myCore/network/socket/libuv/libuv-1.48.0_x86/src/unix/async.c:160-177 | If no callback touches the queue, every item is visited, in order, and the queue ends as it was |
| `Queue.VisitAll` | myCore/network/socket/libuv/libuv-1.48.0_x86/src/unix/async.c:160-177 | The loop on linked nodes, with callbacks that unlink nodes of either ring or append new ones, visits and leaves exactly that |
| `Timers.PassRunsDue` | myCore/network/socket/libuv/libuv-1.48.0_x86/src/timer.c:165-195 | One pass, whatever its callbacks do to any timers, new ones included: it ends, callbacks run in increasing (timeout, start_id) order, so at most once per timer, and only for timers due at entry |
| `Timers.PassRunsExactly` | myCore/network/socket/libuv/libuv-1.48.0_x86/src/timer.c:165-195 | A timer due at entry gets its callback if and only if no callback of an earlier timer of the pass stopped, restarted or closed it |
| `Timers.TimerLoop.RunTimers` | myCore/network/socket/libuv/libuv-1.48.0_x86/src/timer.c:165-195 | The program with its linked heap makes exactly that pass, repeating timers included |

## Left out

- ThreadPool.Threads.CancelWork: requires that the callback has not already reported ECANCELED, because the source then unlinks stale links; `ThreadPool.CancelVerdict` shows that its own test does not exclude this.
- Thread pool: thread start-up and shutdown (the exit message), fork handling, allocation failure, metrics counters, and UV_THREADPOOL_SIZE. The number of workers is any number from 1 on.
- Thread pool: one loop submits and cancels. Several loops sharing the pool, and cancels of one request from several threads, are not modelled; `uv_cancel` and the request types on top of `uv__work` only forward.
- Thread pool: the queues are sequences of items there, and the ready queue and handle lists are sequences in the timer and async models; `Queue.dfy` proves separately that the linked operations keep such sequences.
- Async: a handle without a callback (line 173) is not modelled. The relaxed load of line 73 is modelled as sequentially consistent. EINTR retries of read and write change nothing and are not steps; `abort` on other errors, `uv__async_start`, `uv__async_stop` and fork handling are left out.
- Barrier: `uv_barrier_destroy`, allocation failure and the error returns for NULL arguments.
- Red-black tree: keys are integers, of which the code only uses the order; `RB_AUGMENT` is empty as in the source; `RB_PREV` and the reverse and safe loops are mirror images. The splay tree is never instantiated.
- Heap: the comparison is fixed to that of the timers, the only one in use.
- Timers: `timer_counter` is unbounded in the model and wraps at 2^64 in the source; active reference counts and `uv_timer_get_due_in` are left out. A callback is a list of calls of the timer functions, creations of timers, and updates of the clock.
- Timers.TimerLoop.Init: requires fewer than 2^32 - 1 handles, the bound of the heap's own counter.
- Timers.TimerLoop.RunTimers: the same bound, for the handles at entry and those its callbacks create.
- Idna.ToAscii: requires an input of at most INT_MAX bytes, beyond which the counts of the source do not fit their types; the loop counters k and bias, which stay far below that, are unbounded in the model.
- Idna.ToAsciiLabel: requires an input of at most INT_MAX bytes, for the same reason.
- Idna.Count: requires an input of at most INT_MAX bytes, for the same reason.
- Idna.WriteName: requires an input of at most INT_MAX bytes, for the same reason.
- Utf8.Decode1: the source's UINT_MAX is -1.
- Wtf8.Wtf8ToUtf16: assertions are taken as enabled; a build without them writes a wrong unit for U+10000.
- Wtf8.Utf16ToWtf8: the calling forms that allocate the buffer or only compute the length, which go through `Wtf8.Utf16LengthAsWtf8`.
- Address text: `uv_inet_pton` and `uv_inet_ntop` (the dispatch, NULL arguments and `%zone` suffixes) and `uv__strscpy`.
- Epoll: ring counters are unbounded (32 bits in the source); only the epoll operations run in the kernel, in order, and fail only with EEXIST or ENOENT. The rest of `uv__io_poll` is left out.
- Epoll.Ctl.PrepAll: the condition is that no other command follows an ADD on its descriptor, which is enough for every way the list can fall into batches; the exact condition is stated per batch in `Epoll.BatchExact`.
- WriteAll.Request.Write: the system calls behind `uv__fs_write` are a script of outcomes; a script that has run out fails with EIO.
- WriteAll: releasing the buffer array, and the platform branches of `uv__fs_write`.
- System-call layers, file system events, other platforms, Windows branches, getters, error names and the demo programs around libuv: they hold no state of the kind proved here.
