# Verified models of the yakutil data structures

This project models the hard core of yakutil, a Go library of self-contained data structures and
lock-free protocols, and proves what those structures are for: an ordered dictionary that always agrees
with a plain map, a group-commit ring that loses and duplicates nothing, a worker pool that neither drops
nor repeats a task, and so on. `dafny verify dfyconfig.toml` checks everything.

| modules | what they cover |
|---|---|
| `ArtKeys`, `ArtTree`, `ArtOps`, `ArtScan`, `ArtDict`, `ArtNodes` | the adaptive radix tree (`art`): put, delete, get, the three ordered walks, and the four array layouts of a node |
| `Mpsc`, `MpscRuns`, `MpscCalls` | the multi-producer group-commit ring (`mpsc`) as a transition system, one atomic operation a step; what holds over all its runs; and what each call does when it runs by itself |
| `WorkerStack`, `WorkerCalls` | the last-in-first-out worker pool (`wpool/stack.go`), likewise |
| `Semaphore`, `SemaphoreCalls` | the channel semaphore (`semaphore`), likewise |
| `RateLimit`, `RateCalls` | the token bucket (`ratelimit`), concurrent and in clock order |
| `Arena` | the bump allocator (`arena`), concurrent and with save points |
| `Ring` | the growing byte ring (`ring`) with wrapping cursors |
| `LruSpec`, `LruHits`, `Lru` | one shard of the LRU cache (`lru`): the rules on recency lists, when they answer, and the map with its circular list in memory |
| `WheelSpec`, `Wheel` | the timing wheel (`wheel`): a calendar of alarms, and the slots with their circular lists in memory |
| `Links` | the circular doubly linked list that the last two share |
| `Swar`, `Fold`, `Bits` | eight bytes at a time: scanning (`swar`) and case-insensitive comparison (`fold`) |
| `Lists`, `Steps`, `Arith` | what several models share: lists, callbacks, repeated steps, quotients, powers of two |

## Main results

* **The tree is its contents.** Every inner node keeps two branches and exactly the layout its child count
  asks for, so two trees with the same entries are equal, and two with the same keys have the same shape,
  whatever the operations that led there (`ArtDict.Histories`). Put of a new key followed by Delete gives
  back the very same tree (`ArtDict.PutThenDelete`).
* **The tree is a map.** Over any operation sequence every answer is that of a plain map
  (`ArtDict.Replay`), and the three walks report exactly the selected entries in ascending key order,
  stopping where the callback asks (`ArtDict.Tree.Seek` and its neighbours).
* **Slots of the group-commit ring have one owner.** No step compares-and-swaps a slot, yet two live
  sequence numbers never share one (`MpscRuns.Exclusive`); the consumer sees the enqueued values in order, each
  once (`MpscRuns.Delivery`); each waiter gets the outcome of its own sequence number (`MpscRuns.Results`).
* **Workers.** Each accepted task is in exactly one channel or has run, and runs once
  (`WorkerStack.TaskConservation`); no send under the lock can block (`WorkerStack.SendsNeverBlock`).
* **Calls do what they are for.** From every reachable state a call that runs by itself succeeds exactly when
  it should: Enqueue when there is room (`MpscCalls.EnqueueDecides`), Submit when there is a worker or room
  for one (`WorkerCalls.AcceptedAlone`, `WorkerCalls.RefusedAlone`), TryAcquire when the permits are free
  (`SemaphoreCalls.TryAlone`), AllowN when the refilled bucket covers the need (`RateCalls.AllowAlone`).
* **Bytes in, bytes out.** Over any session the ring answers as a byte queue, however often its cursors
  wrap; all that has to fit the word size is what is held at one time (`Ring.Session`).
* **Recency.** A small shard's list is a subsequence of a large one's over every trace
  (`LruSpec.StackInclusion`); the list in memory computes exactly these lists (`Lru.Shard.Replay`).
* **Alarms.** Every alarm hands over its value once, at a tick that depends on nothing but its own duration
  (`WheelSpec.GoesOff`), and the linked slots give exactly these answers (`Wheel.Wheel.Replay`).

## Where code and documentation part

* `swar.HasLess` is documented both as precise for bounds from 1 to 128 and as liable to rare false
  positives. For bounds up to 128 there are none; above, there are wrong answers (`Swar.HasLessExact`).
* `fold.EqualBytes` is documented as plain ASCII case folding. It agrees with the byte-by-byte comparison
  against every second argument exactly when each byte b of the first argument that lies in a full
  eight-byte word has b|0x20 at most 0xfa (`Fold.FoldExact`); for any other first argument there is a
  concrete second one it wrongly accepts (`Fold.UnsafeFools`).
* A semaphore of capacity two or more can leave a waiter asleep beside a free permit until the next
  release; with one permit that cannot happen (`Semaphore.LostWakeupExactly`).
* `arena.Alloc` installs chunks for ever when the size fits the chunk but its rounding up to 8 does not
  (`Arena.AllocEnds`, `Arena.NineOfTen`).
* `ring.UnreadByte` is documented as possible after Write, WriteByte, Read and Discard too, but these take
  its flag down, so it refuses. After Reset, CommitRead or CommitWrite the flag may still be up, and it
  restores the queue exactly under the condition in `Ring.Buffer.UnreadByte`.
* `ratelimit.New` with a rate above 10^9 makes the refill interval zero (`RateLimit.IntervalPositive`).
* The wheel is one lap late exactly when the number of slots divides the number of ticks
  (`WheelSpec.OnTime`, `WheelSpec.AWholeLapLate`).

## Model

| member | source | states |
|---|---|---|
| `ArtTree.Canonical` | art/tree.go:222-261 | Two well-formed subtrees on the same path with the same entries are equal, node kinds included: the tree is a function of its contents |
| `ArtTree.ShapeFromKeys` | art/tree.go:400-424 | With the same keys and any values, prefixes, inner leaves, branching bytes and node kinds are the same |
| `ArtTree.Branches` | art/tree.go:501-515 | Every inner node has two keys below it that differ right after its prefix, or one that ends there |
| `ArtOps.PrefixMismatch` | art/node.go:55-63 | Returns the length of the longest common prefix of the node's prefix and the rest of the key |
| `ArtOps.PrefixEnd` | art/tree.go:222-234 | Returns where two keys part, counted from the start of the keys |
| `ArtOps.Get` | art/tree.go:150-179 | Returns a value exactly when the tree holds it under that key, for any byte string |
| `ArtOps.Put` | art/tree.go:193-219 | The result is well-formed, holds the key with the new value and every other entry as before, and the old value is reported exactly if there was one |
| `ArtOps.SplitLeaf` | art/tree.go:222-261 | A leaf and a new key become a well-formed node with exactly these two entries, also when one key is a prefix of the other |
| `ArtOps.PutInner` | art/tree.go:263-394 | Put below an inner node of any kind: replaced leaf, new inner leaf, descent, new child, split |
| `ArtOps.AddOrGrow` | art/tree.go:286-298 | A child under a new byte; a full node grows to the next kind, and the entries are those of both |
| `ArtOps.SplitNode` | art/tree.go:400-424 | A node whose prefix does not match is split at the first difference, and only the new entry is added |
| `ArtOps.Del` | art/tree.go:441-463 | Exactly the given key is removed, its value reported, and the rest stays well-formed; a missing key leaves the tree identical |
| `ArtOps.DelInner` | art/tree.go:465-652 | The same below an inner node of any kind, over all ways the node can shrink |
| `ArtOps.AfterRemoval` | art/tree.go:501-515 | After a removal the node is brought back to the canonical form (leaf, merged child, smaller kind) with the same entries |
| `ArtOps.MergeWithChild` | art/tree.go:519-530 | A lone child absorbs its parent's prefix and branching byte and keeps its entries |
| `ArtScan.EntriesAre` | art/tree.go:666-685 | The walk order lists exactly the entries of the tree |
| `ArtScan.EntriesAscend` | art/tree.go:666-685 | and in strictly increasing byte-lexicographic order of the keys |
| `ArtScan.AscendingUnique` | art/tree.go:660-664 | There is only one strictly ascending list of a given set of entries, so the listing is determined by the map |
| `Lists.FeedIsPrefix` | art/tree.go:660-664 | A callback, which may keep state, sees a prefix of the list, ending at its first refusal and nowhere else |
| `ArtScan.KeepMember` | art/tree.go:691-695 | Filtering by a bound or a prefix keeps exactly the selected entries |
| `ArtScan.ForEach` | art/tree.go:666-685 | The recursive walk feeds the callback with the whole listing of a subtree |
| `ArtScan.ComparePrefixRange` | art/tree.go:1113-1127 | Tells whether all keys under the node's prefix lie below, above or on the path of the bound, including a bound that ends inside the prefix |
| `ArtScan.Seek` | art/tree.go:697-714 | The pruned walk equals the full walk filtered to keys above the bound |
| `ArtScan.SeekMatched` | art/tree.go:717-787 | The same for a node whose prefix lies on the bound, with its inner leaf and its children |
| `ArtScan.SeekKids` | art/tree.go:789-848 | Children below the bound's byte are skipped, the equal one is searched, later ones are walked whole |
| `ArtScan.ScanPrefix` | art/tree.go:939-956 | The pruned walk equals the full walk filtered to keys with the prefix, also when the prefix ends inside a node's prefix |
| `ArtDict.RootUnique` | art/tree.go:185-191 | Trees with equal contents are equal |
| `ArtDict.ShapeUnique` | art/tree.go:430-439 | Trees with equal key sets have equal shape |
| `ArtDict.ListingIs` | art/tree.go:660-664 | The one sorted list of the map's selected entries is the filtered walk order |
| `ArtDict.Tree.Reset` | art/tree.go:40-42 | The map is empty afterwards |
| `ArtDict.Tree.Get` | art/tree.go:143-148 | Map lookup |
| `ArtDict.Tree.Put` | art/tree.go:185-191 | Map update; reports the old value exactly if there was one |
| `ArtDict.Tree.Delete` | art/tree.go:430-439 | Map removal; a missing key leaves the very same tree |
| `ArtDict.Tree.ForEach` | art/tree.go:660-664 | Calls the callback with the map's entries in ascending order until it refuses |
| `ArtDict.Tree.Seek` | art/tree.go:691-695 | The same for the entries whose key is above start |
| `ArtDict.Tree.ScanPrefix` | art/tree.go:933-937 | The same for the entries whose key begins with the prefix |
| `ArtDict.Replay` | art/tree.go:143-219 | Over any operation sequence, contents and every answer are those of a plain map |
| `ArtDict.Histories` | art/tree.go:465-652 | Two operation sequences with the same final map lead to equal trees; with the same final key set, to the same shape |
| `ArtDict.PutThenDelete` | art/tree.go:501-530 | Putting a new key and deleting it restores the very same tree |
| `ArtNodes.ArrayNode.FindChild4` | art/node.go:74-81 | The linear search returns the child of the byte, or none |
| `ArtNodes.ArrayNode.FindChild16` | art/node.go:134-157 | The two-word search returns the same, also for byte zero against zeroed tail keys |
| `ArtNodes.ArrayNode.AddChild` | art/node.go:85-102 | Insertion by shifting keeps the sorted byte-to-child map and adds one pair |
| `ArtNodes.ArrayNode.RemoveChildAt` | art/node.go:104-112 | Removal by shifting drops exactly that pair |
| `ArtNodes.ArrayNode.RangeChildren` | art/node.go:343-359 | The callback is given bytes and children in ascending byte order until it refuses, and the answer says whether it went on |
| `ArtNodes.Node48.FindChild` | art/node.go:223-229 | Lookup through the index array |
| `ArtNodes.Node48.AddChild` | art/node.go:231-250 | Index, sorted bytes and free slots stay mutually consistent and one pair is added |
| `ArtNodes.Node48.RemoveChild` | art/tree.go:596-614 | The same for a removal, which returns the slot to the free set |
| `ArtNodes.Node48.RangeChildren` | art/node.go:361-369 | The same through the index |
| `ArtNodes.Node48.Grow` | art/node.go:252-262 | The children, found through sorted bytes and index, move to the cells of their bytes; the byte-to-child map is kept |
| `ArtNodes.Node48.Shrink` | art/node.go:265-274 | The children move into arrays in byte order; the map is kept |
| `ArtNodes.Node256.FindChild` | art/node.go:285-287 | Direct lookup |
| `ArtNodes.Node256.AddChild` | art/node.go:289-293 | Bitmap and cells agree and one pair is added |
| `ArtNodes.Node256.RemoveChild` | art/tree.go:637-646 | Bitmap and cells agree and one pair is dropped |
| `ArtNodes.Node256.RangeChildren` | art/node.go:371-384 | Walking the bitmap word by word gives the callback the same, with the same early stop |
| `ArtNodes.Node256.Shrink` | art/node.go:296-316 | Walking the bitmap fills slots, index, sorted bytes and free slots consistently; the map is kept |
| `ArtNodes.ArrayNode.Resized` | art/node.go:115-121 | node4's grow and node16's shrink copy the used cells; the byte-to-child map is kept and the tail is zero |
| `ArtNodes.ArrayNode.Grow` | art/node.go:187-198 | node16's grow fills slots, index, sorted bytes and the mask of free slots consistently; the map is kept |
| `Mpsc.StepInv` | mpsc/ring.go:82-236 | Every atomic step of every producer, waiter and the consumer keeps the ring's invariant |
| `MpscRuns.Exclusive` | mpsc/ring.go:82-113 | In every reachable state tail is at most one capacity ahead of head, and two live sequence numbers never share a slot |
| `MpscRuns.Delivery` | mpsc/ring.go:205-223 | The values given to the callback so far are the first enqueued ones, in sequence order, each once |
| `MpscRuns.Retained` | mpsc/ring.go:94-108 | A posted value stays in its slot until its own waiter frees it |
| `MpscRuns.Results` | mpsc/ring.go:124-152 | A wait returns the batch error if there is one, else the callback's error for that very sequence number; a cancelled one returns the cancellation |
| `MpscRuns.CommitNeverBlocks` | mpsc/ring.go:227-236 | The one-place done channel is empty whenever Commit sends |
| `MpscRuns.NothingToFlush` | mpsc/ring.go:101-105 | The flush of a residual token at Enqueue never finds one |
| `MpscRuns.ReleasedByOwner` | mpsc/ring.go:165-199 | A slot is freed only by its owner, once, after its commit, also by the clean-up of a cancelled wait |
| `MpscCalls.RingSize` | mpsc/ring.go:61-77 | The least power of two that is at least four and at least the number asked for |
| `MpscCalls.EnqueueDecides` | mpsc/ring.go:84-91 | In any reachable state, an Enqueue with up-to-date loads claims the next number, for exactly its value, if and only if fewer than n numbers are between head and tail; otherwise it can only look again or report the ring full |
| `MpscCalls.EnqueueAlone` | mpsc/ring.go:82-94 | So an Enqueue that runs by itself succeeds exactly when there is room, and leaves the ring as it was when there is none |
| `MpscCalls.StaleTail` | mpsc/ring.go:92-94 | A lost swap sends the call back to its loads, value in hand |
| `MpscCalls.FillAlone` | mpsc/ring.go:95-110 | Once its slot is free, the owner fills it with its value, no error and an empty channel, and posts it |
| `MpscCalls.DrainAlone` | mpsc/ring.go:205-223 | A Drain that runs by itself hands over, in order, exactly the unbroken run of completed Enqueues at the head, keeps what the callback returns for each, and moves head past them |
| `MpscCalls.CommitAlone` | mpsc/ring.go:227-236 | A Commit that runs by itself commits exactly its range with its error, and every waiter in it can go on |
| `MpscCalls.WokenExactly` | mpsc/ring.go:124-134 | A waiter can go on exactly when its number has been committed |
| `MpscCalls.WaitAlone` | mpsc/ring.go:124-152 | A wait on a committed number returns the batch error or else its own, and leaves the slot free and empty |
| `MpscCalls.CancelAlone` | mpsc/ring.go:165-180 | A cancelled wait takes the token if it is there and else leaves it to the clean-up |
| `MpscCalls.CleanUpAlone` | mpsc/ring.go:180-199 | The clean-up frees the slot in the same way |
| `WorkerStack.StepInv` | wpool/stack.go:115-432 | Every step of submitters, workers, cleaner and Stop keeps the pool's invariant |
| `WorkerStack.TaskConservation` | wpool/stack.go:115-140 | Each accepted task sits in exactly one channel or has run, never both, and runs at most once |
| `WorkerStack.NothingDiscarded` | wpool/stack.go:367-375 | A channel is empty whenever an exiting worker drains it |
| `WorkerStack.SendsNeverBlock` | wpool/stack.go:207-226 | Submitters, the cleaner and Stop always find the channel they send to empty |
| `WorkerStack.WorkersBounded` | wpool/stack.go:231-264 | Live workers are counted by running, which never exceeds a positive limit |
| `WorkerStack.NoneParkedAfterStop` | wpool/stack.go:328-363 | Once Stop has swept the stack, no worker parks again |
| `WorkerCalls.AcceptedAlone` | wpool/stack.go:115-140 | From any reachable state with a free lock, a submission that runs by itself is accepted if the pool runs and there is an idle worker or room for a new one; its task goes to the worker that came back last, or to a new one |
| `WorkerCalls.RefusedAlone` | wpool/stack.go:130-196 | In every other case it is refused without a trace if the pool has stopped or the call may not wait, and else it waits |
| `WorkerCalls.StaleCount` | wpool/stack.go:285-293 | A lost swap of running is tried again as long as there is room |
| `WorkerCalls.WaiterAlone` | wpool/stack.go:307-323 | A waiting submission takes the worker that comes back |
| `WorkerCalls.WaiterRefused` | wpool/stack.go:311-313 | Once the pool has stopped, a waiting one gives up |
| `WorkerCalls.WorkAlone` | wpool/stack.go:328-363 | A worker runs the task in its channel once and then lies on top of the stack, or gives its channel back if the pool has stopped |
| `WorkerCalls.ExitAlone` | wpool/stack.go:328-363 | The exit signal ends a worker without running anything |
| `WorkerCalls.StopAlone` | wpool/stack.go:207-226 | Stop sends away exactly the idle workers and leaves the stack empty |
| `WorkerCalls.CleanAlone` | wpool/stack.go:400-432 | A clean-up sends away exactly the workers idle longest |
| `Semaphore.StepInv` | semaphore/semaphore.go:98-202 | Every step keeps the semaphore's invariant |
| `Semaphore.Conservation` | semaphore/semaphore.go:170-202 | Permits held and available always add up to the capacity |
| `Semaphore.NoStrandedWaiter` | semaphore/semaphore.go:98-105 | While someone waits there is a token, a held permit, or a thread about to send or take one |
| `Semaphore.SinglePermit` | semaphore/semaphore.go:82-92 | With capacity one nobody sleeps beside a free permit with nothing under way to wake it |
| `Semaphore.LostWakeupExactly` | semaphore/semaphore.go:152-180 | That holds for every reachable state exactly when the capacity is one |
| `SemaphoreCalls.TryAlone` | semaphore/semaphore.go:111-146 | From any reachable state, an attempt for n permits takes them exactly when n is at least one and n are free, and changes nothing otherwise |
| `SemaphoreCalls.StaleTry` | semaphore/semaphore.go:137-145 | A lost swap is decided anew on the permits that are free by then |
| `SemaphoreCalls.AcquireAlone` | semaphore/semaphore.go:98-105 | With a free permit Acquire takes one, without one it sleeps |
| `SemaphoreCalls.StaleAcquire` | semaphore/semaphore.go:100-104 | A lost swap puts Acquire to sleep, even beside a free permit |
| `SemaphoreCalls.WokenAlone` | semaphore/semaphore.go:152-164 | A sleeper with a token and a free permit takes both |
| `SemaphoreCalls.ReleaseAlone` | semaphore/semaphore.go:170-202 | A release gives back its permits and leaves a token for each as far as the channel has room |
| `RateLimit.IntervalPositive` | ratelimit/ratelimit.go:96-114 | The refill interval is positive exactly for rates up to 10^9 |
| `RateLimit.StepInv` | ratelimit/ratelimit.go:146-198 | Every atomic step of concurrent AllowN calls keeps the bucket's invariant |
| `RateLimit.TokenConservation` | ratelimit/ratelimit.go:146-198 | In every interleaving tokens stay within the burst, every token is accounted for (granted, in the bucket, about to be added, or come to a full bucket), and the total granted is at most burst plus elapsed time over interval |
| `RateLimit.Limiter.AllowN` | ratelimit/ratelimit.go:146-198 | With q whole intervals since the last reading, the call succeeds exactly when the tokens plus q, at most the burst, cover the need, and leaves exactly the rest |
| `RateLimit.AllowExact` | ratelimit/ratelimit.go:146-198 | The same of the rule that the laws over runs are about |
| `RateLimit.BurstGranted` | ratelimit/ratelimit.go:84-94 | As long as the bucket covers them, requests are granted one and all |
| `RateLimit.SpacedGranted` | ratelimit/ratelimit.go:124-132 | One-token requests at least an interval apart are all granted, whatever the burst |
| `RateCalls.AllowAlone` | ratelimit/ratelimit.go:146-198 | From any reachable state, the lock-free steps of a call that runs by itself add up to exactly that |
| `RateCalls.StaleDeduct` | ratelimit/ratelimit.go:189-196 | A lost deduction is decided anew on the state as it then is |
| `RateCalls.StaleAdd` | ratelimit/ratelimit.go:170-181 | A lost addition is not lost: the tokens are added to what is there by then |
| `RateCalls.StaleLast` | ratelimit/ratelimit.go:182-185 | A call that lost the refill goes by the tokens that are there now |
| `RateLimit.GrantedFrom` | ratelimit/ratelimit.go:146-198 | From any bucket, the grants up to a time are bounded by its tokens plus the refills due |
| `RateLimit.WindowBound` | ratelimit/ratelimit.go:124-132 | Requests inside any window get at most burst plus window over interval plus one |
| `Arena.StepInv` | arena/arena.go:68-128 | Every atomic step of concurrent Alloc, Snap and Reset keeps the arena's invariant |
| `Arena.SlicesDisjoint` | arena/arena.go:68-103 | In every interleaving, arena slices are 8-aligned, inside their chunk and pairwise disjoint |
| `Arena.MoveIsTheStep` | arena/arena.go:81-102 | A thread inside Alloc always has exactly one next step |
| `Arena.AllocEnds` | arena/arena.go:68-103 | From any state, an Alloc that runs by itself does nothing for a size out of range; otherwise it ends exactly when the rounded size fits a chunk, and then cuts one slice, from the current chunk if that has room, else from the start of a new one |
| `Arena.NineOfTen` | arena/arena.go:76-79 | A lone Alloc of nine bytes from ten-byte chunks is inside the loop after any number of steps |
| `Arena.Allocator.constructor` | arena/arena.go:51-63 | The chunk size is kept if it is between 1 and the maximum; otherwise it is the default or the maximum |
| `Arena.Allocator.Alloc` | arena/arena.go:68-103 | Nothing for no bytes, the heap for oversize, a slice of the asked length clear of all live ones, from the current chunk if it has room, if the rounded size fits a chunk, and otherwise still looping after any number of chunk switches |
| `Arena.Allocator.Restore` | arena/arena.go:137-141 | The slices live at the snapshot are protected again |
| `Arena.Work` | arena/arena.go:68-141 | Whatever is allocated, reset, marked and restored, every slice made is clear of the slices that all snapshots protect |
| `Arena.SavePoint` | arena/arena.go:113-141 | Slices made before Snap are disjoint from all made after Restore, whatever allocations, resets, further snapshots and returns to them happen in between and afterwards |
| `Ring.TwoPieces` | ring/ring.go:197-209 | The readable window is its part up to the end of the array followed by the part from its start |
| `Ring.WindowWrap` | ring/ring.go:140-161 | A cursor that has wrapped at the word size names the same bytes |
| `Ring.StoredAppends` | ring/ring.go:65-77 | A two-part copy at the write cursor appends to the readable bytes and touches none of them |
| `Ring.Buffer.Grow` | ring/ring.go:392-417 | Content is kept; the array stays exactly when there is room, and else the new power-of-two capacity is the least that the doubling reaches |
| `Ring.Buffer.Write` | ring/ring.go:65-77 | Appends to the queue |
| `Ring.Buffer.WriteByte` | ring/ring.go:80-86 | Appends one byte |
| `Ring.Buffer.ReadByte` | ring/ring.go:97-112 | Takes the front byte, or reports the empty queue |
| `Ring.Buffer.UnreadByte` | ring/ring.go:123-137 | Refuses with the flag down; with it up, it adds one byte to the front exactly if the read cursor has moved on by one since, or the read emptied the buffer; right after ReadByte the byte is the one read |
| `Ring.Buffer.Read` | ring/ring.go:140-161 | Takes the front of the queue |
| `Ring.Buffer.Peek` | ring/ring.go:172-189 | Copies the front of the queue |
| `Ring.Buffer.Discard` | ring/ring.go:212-224 | Drops the front of the queue |
| `Ring.Buffer.PeekSegments` | ring/ring.go:197-209 | The two segments concatenate to the queue |
| `Ring.Buffer.ReadableSegments` | ring/ring.go:297-325 | The two segments concatenate to the front of the queue |
| `Ring.Buffer.CommitRead` | ring/ring.go:332-341 | Drops what was read in place; refuses a count out of range |
| `Ring.Buffer.WritableSegments` | ring/ring.go:355-377 | The two segments cover exactly the free space, in write order |
| `Ring.Buffer.CommitWrite` | ring/ring.go:383-388 | Makes what was written in place readable; refuses a count out of range |
| `Ring.Buffer.WriteInPlace` | ring/ring.go:343-388 | Filling the writable segments in order and committing appends to the queue |
| `Ring.Session` | ring/ring.go:65-388 | Over any run of operations, with any amount written in all, the buffer gives every answer of a byte queue and ends up holding that queue |
| `Ring.Conserved` | ring/ring.go:65-388 | Unless bytes are put back or thrown away, bytes there at first and bytes written are the bytes taken followed by the content |
| `Ring.Endless` | ring/ring.go:151-159 | Sessions that never empty the buffer, so that the cursors run on past any bound, are covered |
| `Links.PushFront` | lru/lru.go:62-67 | The circle gains the node right after the sentinel |
| `Links.PushBack` | wheel/wheel.go:41-46 | The circle gains the node right before the sentinel |
| `Links.Remove` | lru/lru.go:69-72 | The circle loses exactly that node, in both directions |
| `LruSpec.StepSound` | lru/lru.go:101-132 | Keys stay distinct and the size within a positive capacity |
| `LruSpec.RecencyOrder` | lru/lru.go:74-77 | After any trace the entries stand in the order of their last get or set |
| `LruSpec.EvictsLeastRecent` | lru/lru.go:120-131 | A set evicts exactly when a new key overflows the capacity, and then the entry used longest ago |
| `LruSpec.StackInclusion` | lru/lru.go:79-155 | Over any trace, with or without expiry, a smaller shard's recency list is a subsequence of a larger one's |
| `LruSpec.HitsCarryOver` | lru/lru.go:79-99 | Every hit of the smaller shard is a hit of the larger one with the same value |
| `LruSpec.SetThenGet` | lru/lru.go:101-132 | What was just set is found at once exactly when the capacity is positive |
| `LruSpec.HoldsLastSet` | lru/lru.go:101-142 | Every entry a trace leaves is what the last set of its key stored |
| `LruSpec.HitIsLastSet` | lru/lru.go:79-99 | A hit returns the value of the key's last set, never a deleted one and never one older than the time to live |
| `LruHits.HitExactly` | lru/lru.go:79-99 | A get hits exactly when the shard holds the key and the entry is no older than the time to live; it then returns the value and makes the entry the newest, and otherwise the key is gone; other keys stay |
| `LruHits.WalkExactly` | lru/lru.go:177-183 | A walk reports exactly the entries no older than the time to live, in the order of the list |
| `LruHits.StillFound` | lru/lru.go:79-155 | A key that was set, neither set again nor deleted, with each get of it within the time to live, is found with its value while the time to live lasts and fewer other keys than the capacity have been used |
| `Lru.Shard.constructor` | lru/lru.go:46-60 | An empty shard with the given limits |
| `Lru.Shard.PushFront` | lru/lru.go:62-67 | The new node is the newest; the others follow as before |
| `Lru.Shard.Remove` | lru/lru.go:69-72 | Exactly that node leaves the list |
| `Lru.Shard.MoveToFront` | lru/lru.go:74-77 | Exactly that node becomes the newest |
| `Lru.Shard.Get` | lru/lru.go:79-99 | Map and circle end up as the recency rule for a get says, and so does the answer |
| `Lru.Shard.Set` | lru/lru.go:101-132 | The same for a set, with the evicted entry for the callback |
| `Lru.Shard.Del` | lru/lru.go:134-142 | The same for a delete |
| `Lru.Shard.UnlinkOldest` | lru/lru.go:146-155 | Takes the last entry of the recency list, if any, and reports it |
| `Lru.Shard.Len` | lru/lru.go:157-162 | The map's size is the length of the recency list |
| `Lru.Shard.RangeAll` | lru/lru.go:169-191 | The callback, which may keep state, sees the entries that LruHits.WalkExactly is about, newest first, up to its first refusal |
| `Lru.Shard.Purge` | lru/lru.go:244-250 | The shard is empty afterwards |
| `Lru.Shard.Replay` | lru/lru.go:79-155 | Over any trace the hits, misses and evictions are those of the recency lists, and map and circle stand for the last of them |
| `WheelSpec.LapsAtAdd` | wheel/wheel.go:99-100 | Slot and lap count of a new entry are those of the tick it is due at |
| `WheelSpec.TicksAre` | wheel/wheel.go:88-91 | The ticks t of a duration d are those over after d, so that t ticks fit in d and t+1 do not; anything shorter counts as one |
| `WheelSpec.SlotVisit` | wheel/wheel.go:134-157 | The visited slot gives off exactly the alarms due at that tick, in the order of adding, and the rest is right for the next tick |
| `WheelSpec.SlotElsewhere` | wheel/wheel.go:136-137 | The slots not visited are right for the next tick as they are |
| `WheelSpec.LayoutPending` | wheel/wheel.go:108-114 | Some slot holds an identifier exactly while its alarm is pending |
| `WheelSpec.StepSound` | wheel/wheel.go:87-164 | Pending alarms are never overdue, and alarms going off together do so in the order they were added |
| `WheelSpec.Fate` | wheel/wheel.go:134-164 | An alarm that nobody cancels stays until its tick and is gone for good from then on, whatever else happens |
| `WheelSpec.GoesOff` | wheel/wheel.go:87-164 | Its value goes to the callback at exactly one Advance, the t-th, or the (t+n)-th when n slots divide t ticks; nothing else goes off under its identifier, and Cancel succeeds exactly before that |
| `WheelSpec.OnTime` | wheel/wheel.go:99-100 | The promised tick is met exactly when the number of slots does not divide the number of ticks |
| `WheelSpec.AWholeLapLate` | wheel/wheel.go:144-148 | Sixteen ticks on sixteen slots go off at the thirty-second Advance |
| `Wheel.Size` | wheel/wheel.go:68-72 | The least power of two that is at least 16 and at least the number asked for |
| `Wheel.Wheel.constructor` | wheel/wheel.go:68-84 | Empty slots, an empty index, an empty calendar |
| `Wheel.Slot.PushBack` | wheel/wheel.go:41-46 | The entry is the last of its slot |
| `Wheel.RemoveEntry` | wheel/wheel.go:48-53 | Exactly that entry leaves its slot |
| `Wheel.Sweep` | wheel/wheel.go:140-157 | The in-place loop leaves and gives off what the layout rule says, and clears the index of what went off |
| `Wheel.CataloguedVisit` | wheel/wheel.go:150-151 | After a visit index and slots hold the same entries again |
| `Wheel.IndexIsPending` | wheel/wheel.go:110-114 | The index knows an identifier exactly while its alarm is pending |
| `Wheel.Wheel.Add` | wheel/wheel.go:87-105 | Slots and index end up laid out for the calendar with the new alarm, under a new identifier; with a zero tick it panics and changes nothing |
| `Wheel.Wheel.Cancel` | wheel/wheel.go:108-123 | True exactly if the alarm was pending; then it is gone and nothing else |
| `Wheel.Wheel.Advance` | wheel/wheel.go:134-164 | Hands over the values due at the next tick, in the order of adding, and keeps the rest |
| `Wheel.Wheel.Len` | wheel/wheel.go:167-172 | The number of pending alarms |
| `Wheel.Wheel.Replay` | wheel/wheel.go:87-164 | Over any run the identifiers, the answers of Cancel and the values given to the callback are those of the calendar, and slots and index are laid out for it |
| `Bits.SubIsSubtraction` | swar/swar.go:21-23 | Lane-wise subtraction with borrows is 64-bit subtraction |
| `Swar.MarkersFind` | swar/swar.go:38-40 | The lowest marker bit is at the first lane below the bound |
| `Swar.HasLessExact` | swar/swar.go:30-40 | HasLess is right for every word exactly when the bound is at most 128 |
| `Swar.HasByteExact` | swar/swar.go:26-28 | HasByte is right for every word and byte |
| `Swar.FirstByteLeast` | swar/swar.go:44-51 | FirstByte is the least matching lane, or 8 |
| `Swar.FindByte` | swar/swar.go:57-78 | The first occurrence, or -1 |
| `Swar.FindEscape` | swar/swar.go:89-122 | The first byte that section 7 of RFC 8259 wants escaped, or -1 |
| `Fold.DiffersExact` | fold/fold.go:46-64 | The word comparison finds a folded difference exactly if there is one, for safe bytes |
| `Fold.EqualBytes` | fold/fold.go:118-137 | The loop over words and tail computes the word-wise comparison, and folded equality for safe first arguments |
| `Fold.UnsafeFools` | fold/fold.go:46-64 | Every unsafe byte has a partner that the code wrongly takes for equal |
| `Fold.FoldExact` | fold/fold.go:39-64 | The code is folded equality against every second argument exactly for safe first arguments |

## Left out

- ArtOps.Put: the tree is a value, so in-place mutation and sharing of nodes, the prefix arena, its compaction and the leaf slab are not modelled.
- ArtOps.PutInner: the four near-identical bodies for the four node kinds are one method over a sorted byte-to-child list; `ArtNodes` shows that each layout is such a list.
- ArtOps.DelInner: likewise for the four delete bodies.
- ArtScan.SeekKids: likewise for the three seek bodies, and `ArtScan.ScanPrefix` for the three scan bodies.
- ArtNodes.Node256.RangeChildren: bitmaps are finite sets of bit numbers, so shifts and masks on words are not modelled; likewise for the free bitmap of `ArtNodes.Node48`.
- Mpsc.StepInv: sequence numbers are naturals below 2^64 with the full test taken modulo 2^64; reuse of sequence numbers after 2^64 enqueues is not modelled, and one consumer that commits each drained range once is taken for granted, as the package demands.
- MpscRuns.Delivery: a callback that changes the value in its slot is not modelled.
- WorkerStack.StepInv: state safety only; whether blocked submitters make progress, timers, panics inside tasks and channel reuse by the runtime are not modelled.
- Semaphore.StepInv: releases only of held permits, as documented; misuse is not modelled.
- RateLimit.StepInv: no Reset in between, whose two stores are not atomic, and unbounded integers for nanoseconds.
- Arena.Allocator.Restore: for one goroutine only, as documented; statistics counters are left out.
- Arena.Allocator.Alloc: a method has to end, so it watches the loop for a given number of chunk switches; that the code itself goes on for ever is `Arena.AllocEnds`.
- Ring.Buffer.Write: asks for four times the content to fit the word size, which the doubling in grow needs; the modulus is a parameter.
- Ring.Session: UnreadByte is used only where it means something, that is not after Reset or a zero-copy commit that followed ReadByte; what it does there is in the contract of `Ring.Buffer.UnreadByte`.
- Ring.Buffer.Discard: negative counts, which the code turns into a step back of the read cursor, are not modelled; the same for `Ring.Buffer.Peek`.
- Lru.Shard.Get: the shard is the unit; locking, shard selection by hash and the batched walk, whose resume flag is inverted in the code, are left out.
- Wheel.Wheel.Add: identifiers follow the order of adding, as they do for one goroutine; entries are not recycled, and an unlinked entry points at itself instead of nowhere.
- Wheel.Wheel.Advance: the ticker loop of Run is left out.
- The ring's WriteTo and ReadFrom, which do I/O and leave cursors in a state that WritableSegments does not expect.
- wpool/pool.go and the adaptive pool, spsc, cow, smap, itable, percpu, bufpool, topn, backoff and the per-address limiter: simpler relatives of what is modelled, or without the invariants one would want.
- hist, hll and sketch, whose meaning lies in floating point and hashing; coarsetime; benchmarks and scripts.
