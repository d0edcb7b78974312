# scroll kernel core in Dafny

This project models the hand-written core of the small x86 kernel *scroll*
(written in C) and proves properties of it:

- the containers the kernel builds everything on: the intrusive doubly linked
  list, the chained hash table with load-factor doubling, the word-array
  bitmap, the bounded sorted array and the keyboard's 1024-byte ring buffer;
- the scheduler's queue state machine (ready queue, candidate queue, dead
  queue, current thread, the main-thread flag) and thread/process creation;
- the self-contained helpers of the kernel heap (block layout, growing and
  shrinking, the best-fit search, the split rule);
- the 80x25 text console with its cursor state machine and its hex/decimal
  output;
- the GDT and IDT descriptor encoders (Intel 64 and IA-32 Architectures SDM
  Vol. 3A, sections 3.4.5 and 6.11);
- `memcpy` and `memset`.

One `.dfy` file per C file, one module each (thread.c and process.c share
module `Tasks`, because a thread and its process point at each other).
Objects that the C code updates in place are classes: the list's nodes carry
real `prev`/`next` fields; the tables, buffers and screens are arrays; the
queues of the scheduler and the buckets of the hash table are `seq` fields
whose updates are proved to be exactly the sequence effects of the list
operations (`LinkedList.InsertAfter`, `LinkedList.RemoveAt`,
`LinkedList.InsertedToHead`). Every `uint32` is a `nat` below 2^32; where the
C code wraps or truncates, the model says so (`Common.Wrap32`,
`Common.ToI32`). A failed `ASSERT` halts the kernel; the model returns
`None`, `false` or `null` for it and changes nothing further.

Spinlock outcomes (`spinlock_trylock`), the scancode decoder
(`process_scancode` and the `KH_*` macros) and the addresses of the
interrupt stubs are parameters. Port I/O, `move_cursor`, `context_switch`,
`update_tss_esp`, page-directory switches and `cpu_idle` have no effect on
the modelled state and are omitted.

Where the C files of different revisions disagree, the model follows the
`.c` code: thread status is {Running, Ready, Waiting, Dead}; a process's
`threads` is a list (`linked_list_append_ele`), not a hash table. The tick
counter of the current thread grows only when the ready queue is non-empty,
as scheduler.c:204-206 is written. Two properties of the descriptor tables
are modelled as written and proved as they are: the access bytes init_gdt
computes lack the descriptor-type bit S (`Gdt.AccessBytes`: 0x8A, 0x82, 0xE2,
0xEA), and descriptor 4, commented "user code", gets the data type while
descriptor 5, commented "user data", gets the code type.

## Model

| member | source | states |
|---|---|---|
| Common.Wrap32 | src/common/common.h:4 | uint32 arithmetic: the result is the argument modulo 2^32 on the ranges used |
| Common.ToI32 | src/monitor/monitor.c:167 | a uint32 stored into an int32 keeps values below 2^31 and turns larger ones negative |
| LinkedList.InsertAfterEnds | src/utils/linked_list.c:37-52 | inserting behind position k grows the list by one; the new node is the head iff it was inserted in front (node == 0) and the tail iff its predecessor was the tail |
| LinkedList.InsertAfterSplice | src/utils/linked_list.c:32-55 | insertion after position k is the splice s[..k+1] + [x] + s[k+1..] and adds exactly one copy of x |
| LinkedList.RemoveAtSplice | src/utils/linked_list.c:61-78 | removal of position k is s[..k] + s[k+1..] and drops exactly one copy of s[k] |
| LinkedList.InsertedToHeadShape | src/utils/linked_list.c:57-59 | insert_to_head passes the head as predecessor: an empty list becomes [x]; otherwise the head stays first and x lands at position 1 |
| LinkedList.DistinctInsert | src/utils/linked_list.c:32-55 | inserting a node that is not on the list keeps the nodes distinct |
| LinkedList.DistinctRemove | src/utils/linked_list.c:61-78 | removal keeps the nodes distinct and the removed node is off the list |
| LinkedList.LinkedChain | src/utils/linked_list.c:14-78 | in a linked node sequence each node's prev/next are its neighbours, null at the ends |
| LinkedList.InsertRelinks | src/utils/linked_list.c:34-52 | the four pointer writes of insert (new.prev, new.next, pred.next or head, succ.prev or tail) relink the chain over the spliced sequence |
| LinkedList.RemoveRelinks | src/utils/linked_list.c:62-75 | the two pointer writes of remove (prev.next or head, next.prev or tail) relink the chain over the sequence without the node |
| LinkedList.List.LinksConsistent | src/utils/linked_list.c:14-78 | in a valid list head.prev and tail.next are null, x.next.prev == x and x.prev.next == x for every node |
| LinkedList.List.constructor | src/utils/linked_list.c:6-12 | create_linked_list: the empty sequence, head == tail == null, size 0 |
| LinkedList.List.Append | src/utils/linked_list.c:14-29 | the sequence becomes old + [node], size grows by one, node is the tail and node.next is null; the list stays valid |
| LinkedList.List.Insert | src/utils/linked_list.c:32-55 | the node lands right after `node` (in front for null), head/tail are repaired, size grows by one, links stay consistent |
| LinkedList.List.InsertToHead | src/utils/linked_list.c:57-59 | the sequence becomes InsertedToHead(old, node): sole element of an empty list, else second |
| LinkedList.List.Remove | src/utils/linked_list.c:61-78 | for a node on the list (unchecked in C): exactly that node is deleted, the rest keep their order, size drops by one, removing the last node leaves head == tail == null |
| HashTable.BucketLookup | src/utils/hash_table.c:42-53 | the bucket walk returns the first position holding the key, and nothing iff no entry has the key |
| HashTable.OverLoaded | src/utils/hash_table.c:88 | the load-factor test size > buckets_num * 0.75, exactly as the integer test 4 * size > 3 * buckets_num |
| HashTable.LookupAgrees | src/utils/hash_table.c:55-68 | under the table invariant the walk of bucket key % buckets_num finds an entry iff the key is stored, and that entry holds the key's value |
| HashTable.ReplaceKeeps | src/utils/hash_table.c:71-78 | overwriting a present key's value in place keeps the invariant and maps the key to the new value |
| HashTable.AppendKeeps | src/utils/hash_table.c:80-85 | appending a new key's entry to its bucket keeps the invariant, adds the pair and grows size by one |
| HashTable.RemoveKeeps | src/utils/hash_table.c:123-133 | unlinking a present key's entry keeps the invariant, drops the key and shrinks size by one |
| HashTable.RehashStart | src/utils/hash_table.c:96-100 | fresh empty buckets are the start of the rehash walk |
| HashTable.RehashStep | src/utils/hash_table.c:106-114 | moving one entry to the tail of bucket key % new_count keeps the rehash invariant |
| HashTable.RehashNextBucket | src/utils/hash_table.c:103-115 | finishing one old bucket starts the next one |
| HashTable.RehashDone | src/utils/hash_table.c:117-120 | after the walk the new buckets satisfy the table invariant over the same pairs and size |
| HashTable.EmptyBuckets | src/utils/hash_table.c:97-100 | m empty buckets |
| HashTable.MoveBucket | src/utils/hash_table.c:103-115 | the inner while loop moves every entry of one old bucket |
| HashTable.Rehash | src/utils/hash_table.c:95-121 | rehashing into twice the buckets keeps every (key, value) pair and the size, each key in bucket key % (2n) |
| HashTable.HashTable.Find | src/utils/hash_table.c:56-57 | the lookup in the key's own bucket finds the key iff it is stored, with its value |
| HashTable.HashTable.Unlink | src/utils/hash_table.c:126-132 | unlinking a present key removes exactly that key and decrements size |
| HashTable.HashTable.constructor | src/utils/hash_table.c:17-24 | hash_table_init: 16 empty buckets, size 0, no pairs |
| HashTable.HashTable.Get | src/utils/hash_table.c:55-63 | the stored value of the key, or nothing for an absent key |
| HashTable.HashTable.Contains | src/utils/hash_table.c:65-68 | true iff the key is stored |
| HashTable.HashTable.Overwrite | src/utils/hash_table.c:73-77 | the key now maps to the new value; size and bucket count unchanged |
| HashTable.HashTable.Append | src/utils/hash_table.c:81-85 | a new key is added with its value and size grows by one |
| HashTable.HashTable.Put | src/utils/hash_table.c:70-93 | afterwards get(k) == v; returns the old value of a present key (size unchanged) or nothing for a new one (size + 1); the bucket count doubles exactly when a new key makes size > 0.75 * buckets; the load bound is kept |
| HashTable.HashTable.Remove | src/utils/hash_table.c:123-138 | a present key is removed and its value returned; an absent key returns nothing and changes no bucket |
| HashTable.HashTable.Expand | src/utils/hash_table.c:95-121 | doubles the bucket count and keeps every pair and the size |
| BitWords.SetBitExpr | src/utils/bitmap.c:25 | `word \| (0x1 << off)` has bit off and every bit of word, no other |
| BitWords.ClearBitExpr | src/utils/bitmap.c:31 | `word & ~(0x1 << off)` has every bit of word except bit off |
| BitWords.SetBitOthers | src/utils/bitmap.c:22-26 | after setting bit `bit` in word bit/32, bit b is set iff b == bit or it was set |
| BitWords.ClearBitOthers | src/utils/bitmap.c:28-32 | after clearing bit `bit`, bit b is set iff b != bit and it was set |
| BitWords.SetBitAll | src/utils/bitmap.c:22-26 | over the whole word array, setting bit `bit` makes it set and leaves every other bit as it was |
| BitWords.ClearBitAll | src/utils/bitmap.c:28-32 | over the whole word array, clearing bit `bit` makes it clear and leaves every other bit as it was |
| BitWords.NextBit | src/utils/bitmap.c:45-50 | a set bit at offset j of word i extends the run of set bits below 32*i + j by one (the bit loop's step) |
| BitWords.BitAt | src/utils/bitmap.c:5-6 | bit 32*i + j is offset j of word i (INDEX_FROM_BIT and OFFSET_FROM_BIT) |
| BitWords.FoundClear | src/utils/bitmap.c:45-48 | a clear offset j found in word i is the clear bit i*32 + j |
| BitWords.FullWordSet | src/utils/bitmap.c:44 | a word equal to 0xFFFFFFFF has all 32 of its bits set |
| Bitmap.AllocatedWordsAsWritten | src/utils/bitmap.c:13 | kmalloc(array_size) bytes hold only array_size / 4 words |
| Bitmap.AllocationShort | src/utils/bitmap.c:11-13 | the allocation is shorter than the array_size words the bitmap uses; 4096 bits get 32 of 128 words |
| Bitmap.Bitmap.constructor | src/utils/bitmap.c:8-20 | array_size == total_bits / 32 (truncating); a given array is used, otherwise one of array_size words is allocated and alloc_array records which |
| Bitmap.Bitmap.SetBit | src/utils/bitmap.c:22-26 | only word bit/32 changes; test_bit(bit) becomes true and every other bit keeps its value |
| Bitmap.Bitmap.ClearBit | src/utils/bitmap.c:28-32 | only word bit/32 changes; test_bit(bit) becomes false and every other bit keeps its value |
| Bitmap.Bitmap.TestBit | src/utils/bitmap.c:34-38 | whether bit `bit` is set |
| Bitmap.Bitmap.FindFirstFree | src/utils/bitmap.c:40-55 | the lowest clear bit below array_size*32, or failure iff all those bits are set; nothing changes |
| Bitmap.Bitmap.AllocateFirstFree | src/utils/bitmap.c:57-65 | on success the lowest clear bit is returned and set, nothing else changes; on failure (all set) the words are unchanged |
| OrderedArrays.StandardComparator | src/utils/ordered_array.c:4-6 | -1, 0 or 1 exactly when a < b, a == b, a > b |
| OrderedArrays.StandardIsOrdering | src/utils/ordered_array.c:4-6 | the standard comparator is a total preorder (antisymmetric in sign and transitive) |
| OrderedArrays.Position | src/utils/ordered_array.c:24-28 | the scan stops after every element comparing <= item and at the first greater one |
| OrderedArrays.PositionFirst | src/utils/ordered_array.c:24-28 | any index with that property is the scan's position |
| OrderedArrays.InsertedContents | src/utils/ordered_array.c:24-36 | insertion adds one copy of item and keeps every other element |
| OrderedArrays.InsertedAt | src/utils/ordered_array.c:30-34 | element k after insertion: the old element before the position, the item at it, the old element k-1 after it |
| OrderedArrays.InsertKeepsSorted | src/utils/ordered_array.c:24-36 | under an ordering comparator insertion keeps a sorted array sorted |
| OrderedArrays.ItemBeforeLater | src/utils/ordered_array.c:25-28 | every element at or after the first one that compares greater than the item (where the scan stops) does not compare below the item |
| OrderedArrays.RemoveKeepsSorted | src/utils/ordered_array.c:47-57 | removing element i drops one copy of it and keeps the array sorted |
| OrderedArrays.ShiftAsWritten | src/utils/ordered_array.c:31-33 | the shift loop as written returns the buffer unchanged when it does not run, and runs off the buffer whenever it does |
| OrderedArrays.AsWrittenInsertOverruns | src/utils/ordered_array.c:24-33 | inserting 3 into [5] in a two-slot array: the position is 0 and the loop as written overruns |
| OrderedArrays.OrderedArray.constructor | src/utils/ordered_array.c:8-16 | size 0 over the given buffer, with max_size and the comparator stored |
| OrderedArrays.OrderedArray.Get | src/utils/ordered_array.c:39-45 | element i when i < size, else 0; no change |
| OrderedArrays.OrderedArray.Insert | src/utils/ordered_array.c:18-37 | full (size >= max_size): returns 0 and changes nothing; otherwise returns 1, size grows by one and the contents are the sorted insertion of item; under an ordering comparator a sorted array stays sorted |
| OrderedArrays.OrderedArray.ShiftRight | src/utils/ordered_array.c:30-34 | the intended right shift (i--): the slots from the position move up one and the item fills the gap |
| OrderedArrays.OrderedArray.Remove | src/utils/ordered_array.c:47-57 | i >= size is a no-op; otherwise element i is dropped, the rest keep their order, size drops by one, and a sorted array stays sorted |
| OrderedArrays.OrderedArray.ShiftLeft | src/utils/ordered_array.c:52-55 | the loop moves every element after i down one slot |
| Keyboard.NextIndex | src/driver/keyboard.c:27-29 | (i + 1) % 1024: the next slot, wrapping from 1023 to 0 |
| Keyboard.RingPush | src/driver/keyboard.c:36-40 | writing at tail == (head + size) % 1024 and growing size appends the byte to the queued contents |
| Keyboard.RingPop | src/driver/keyboard.c:43-48 | the oldest byte is at head, and advancing head drops exactly it |
| Keyboard.Scan | src/driver/keyboard.c:55-62 | the read loop consumes at most the queued bytes |
| Keyboard.ScanFirst | src/driver/keyboard.c:55-62 | the read loop stops right after the first byte that decodes to a key press and returns its character |
| Keyboard.ScanNone | src/driver/keyboard.c:56-59 | with no byte that decodes, every byte is consumed and -1 returned |
| Keyboard.ScanResult | src/driver/keyboard.c:50-62 | an empty buffer gives -1 with nothing consumed; -1 iff no queued byte decodes; otherwise the result is the decoding of the last consumed byte |
| Keyboard.KeyQueue.constructor | src/driver/keyboard.c:119-121 | head = tail = size = 0: the empty queue |
| Keyboard.KeyQueue.Enqueue | src/driver/keyboard.c:31-41 | full (size == 1024): -1 and no change; otherwise 0 and the byte is appended; tail == (head + size) % 1024 is kept |
| Keyboard.KeyQueue.Dequeue | src/driver/keyboard.c:43-48 | for a non-empty queue: returns the oldest byte and drops it (FIFO) |
| Keyboard.KeyQueue.ReadCharImpl | src/driver/keyboard.c:50-62 | returns the scan result and consumes exactly the scanned bytes; never dequeues from an empty buffer |
| Keyboard.HandedOffContents | src/driver/keyboard.c:99-107 | every waiter becomes a candidate exactly once and no candidate is lost |
| Keyboard.HandedOff | src/driver/keyboard.c:99-107 | the candidates after each waiter, from the tail back, is handed to add_thread_node_to_schedule_head |
| Keyboard.InsertedBehindHead | src/task/scheduler.c:241 | insert-to-head into a non-empty candidate list puts the node second |
| Keyboard.HandedOffOrder | src/driver/keyboard.c:99-107 | waking the waiters from the tail back into a non-empty candidate list leaves [head] + waiters in order + the other candidates |
| Keyboard.HandedOffToEmpty | src/driver/keyboard.c:99-107 | into an empty candidate list the last waiter comes first, the others follow in order |
| Keyboard.WakeWaiters | src/driver/keyboard.c:99-107 | each moved waiter is READY among the candidates in the handed-off order; no other queue changes and no other thread's status changes |
| Keyboard.WakeAndYield | src/driver/keyboard.c:99-112 | the waiters are handed off as READY candidates; unless the main thread took the interrupt, the queues and the current thread stay otherwise as they were; when main took it, the result is exactly the yield (Yielded) over the handed-off candidates; every former waiter is READY or running |
| Keyboard.Keyboard.constructor | src/driver/keyboard.c:115-124 | an empty queue and no waiters |
| Keyboard.Keyboard.InterruptHandler | src/driver/keyboard.c:85-113 | the scancode is queued (dropped when full), waiting_tasks is left empty and every former waiter is woken into the candidates; both cases of the hand-off as in WakeAndYield: no switch when a non-main thread took the interrupt, the Yielded effect when main took it |
| Keyboard.Keyboard.ReadOrBlock | src/driver/keyboard.c:65-83 | a read character is returned and the scheduler is untouched; with none, the current thread joins the waiters, is marked WAITING and yields: the queues and current thread are the Yielded effect, and the blocked thread stays WAITING unless the yield hands it the CPU again |
| Scheduling.SliceLength | src/task/scheduler.c:204-211 | from tick count t the switch comes exactly on tick SliceLeft(t, priority): when the count reaches priority, never earlier |
| Scheduling.SwitchesAt | src/task/scheduler.c:204-211 | whether k consecutive ticks from a given count end the time slice on the last tick and not earlier |
| Scheduling.SliceLeft | src/task/scheduler.c:204-211 | the number of ticks left in the slice: until the count reaches priority, at least one |
| Scheduling.FifthTickSwitches | src/task/scheduler.c:204-211 | a fresh thread of priority 5 is switched out on its fifth tick and not before |
| Scheduling.SwitchQueues | src/task/scheduler.c:162-187 | do_context_switch's queue effect: the ready head becomes current (strict FIFO); a DEAD thread joins the dead queue; a RUNNING non-main thread goes to the ready tail; main is never requeued by preemption |
| Scheduling.SwitchKeepsMainQueued | src/task/scheduler.c:165-187 | the main thread is in the ready queue at most once and iff the flag says so, before and after a switch; a dead thread always leaves main queued or running |
| Scheduling.Scheduler.constructor | src/task/scheduler.c:104-125 | empty queues, the main thread current, flag clear |
| Scheduling.Scheduler.MergeReadyTasks | src/task/scheduler.c:152-159 | trylock failed: no change; otherwise ready becomes ready + candidates and the candidates empty |
| Scheduling.Scheduler.DoContextSwitch | src/task/scheduler.c:162-197 | the new queues and current thread are SwitchQueues of the old ones; the new current thread is the old ready head (or main) and RUNNING; a switched-out thread is READY if it was running and not main, otherwise keeps its status; candidates and other threads untouched |
| Scheduling.Scheduler.MaybeContextSwitch | src/task/scheduler.c:199-221 | after merging (candidates emptied iff the trylock succeeded): an empty ready queue changes nothing (ticks included); otherwise the current thread's ticks grow and at priority reset to 0 and the thread is switched out; only the current and the next thread are written |
| Scheduling.Scheduler.AddToSchedule | src/task/scheduler.c:229-235 | the thread is READY and appended to the candidates; the ready queue and every other thread are untouched |
| Scheduling.Scheduler.AddToScheduleHead | src/task/scheduler.c:237-243 | the thread is READY and spliced into the candidates as linked_list_insert_to_head does (the head of an empty list, otherwise right behind the head), the other candidates keeping their order; the ready queue and every other thread are untouched |
| Scheduling.Scheduler.Yield | src/task/scheduler.c:245-262 | the queues and current thread are exactly Yielded of the old state; candidates emptied iff a merge happened; without a switch no status changes, with one the new current is the old merged head and RUNNING and the old one is preempted |
| Scheduling.Scheduler.MarkThreadBlock | src/task/scheduler.c:264-267 | only the current thread's status changes, to WAITING |
| Scheduling.Scheduler.ThreadExit | src/task/scheduler.c:269-280 | the thread is detached from its process and DEAD; the queues and current are SwitchQueues of the merged queues with the thread DEAD, so it joins the dead queue and the ready head (or main) runs |
| Scheduling.Scheduler.CleanDeadTasks | src/task/scheduler.c:64-84 | an empty dead queue: nothing changes and nothing is destroyed; otherwise the whole dead queue is destroyed exactly once, in order, and the loop then yields: the queues are the Yielded effect over an emptied dead queue |
| Scheduling.TickStep | src/task/scheduler.c:204-211 | the tick count reaching priority switches and resets it to 0; below priority it only grows by one |
| Scheduling.Merged | src/task/scheduler.c:152-159 | the ready queue after merge_ready_tasks: ready + candidates when the trylock succeeds, else ready |
| Scheduling.Preempted | src/task/scheduler.c:178-181 | the status a switched-out thread gets: RUNNING non-main becomes READY, anything else is kept |
| Scheduling.Yielded | src/task/scheduler.c:245-262 | schedule_thread_yield's queue effect: merge, queue main when nothing is ready and the caller is not main, switch iff the ready queue is non-empty |
| Scheduling.YieldGivesWay | src/task/scheduler.c:245-262 | a non-main caller always gives up the CPU, and is not put back in the ready queue unless it was RUNNING; main yielding with nothing to merge changes nothing |
| Scheduling.Scheduler.NextOf | src/task/scheduler.c:165-176 | the thread a switch picks: the ready head, which is main when a dead thread has just queued main into an empty ready queue |
| Tasks.Thread.constructor | src/task/thread.c:30-47 | status RUNNING, ticks 0, priority as given, stack magic set, self_kstack and the initial frame as laid out |
| Tasks.TaskName | src/task/thread.c:22-28 | the given name, or the prefix followed by the decimal id |
| Tasks.DefaultNamesDiffer | src/task/thread.c:26 | two unnamed tasks with different ids get different names |
| Tasks.KernelStackInPage | src/task/thread.c:36-37 | self_kstack = page + 4096 - (64 + 48) lies inside the thread's page and the two frames end at the page end |
| Tasks.ThreadIds.constructor | src/task/thread.c:9 | thread ids start at 1 |
| Tasks.ThreadIds.InitThread | src/task/thread.c:15-50 | the id is the counter, which then grows (never reused); the default name is "thread-<id>"; status RUNNING, ticks 0, priority truncated to uint8, magic, self_kstack and frame (edi = esi = ebp = ebx = 0, eip = kernel_thread) |
| Tasks.StackRegionsDisjoint | src/task/process.c:58 | stack_top = 0xBFC00000 - index * 64 KiB: every slot's 64 KiB region is below 0xBFC00000 and above 0, and distinct slots give disjoint regions |
| Tasks.StackTop | src/task/process.c:58 | thread_stack_top = USER_STACK_TOP - stack_index * USER_STACK_SIZE |
| Tasks.Process.constructor | src/task/process.c:20-30 | name and kernel flag as given, a 4096-bit stack bitmap over 128 fresh words whose contents are as kmalloc left them, no threads |
| Tasks.Detached | src/task/scheduler.c:271-273 | the thread list without the exiting thread, all other threads kept |
| Tasks.RemoveProcessThread | src/task/scheduler.c:271-273 | the process's thread list becomes Detached(old, thread) |
| Tasks.ProcessIds.constructor | src/task/process.c:9 | process ids start at 1 |
| Tasks.ProcessIds.CreateProcess | src/task/process.c:15-37 | a fresh id from the counter, which then grows; the default name is "process-<id>"; the kernel flag as given; a fresh 4096-bit stack bitmap, not cleared |
| Tasks.CreateKernelThread | src/task/process.c:39-44 | a new RUNNING thread with a fresh id whose process is `process` and which is appended to its threads |
| Tasks.CreateUserThread | src/task/process.c:46-63 | the thread is attached first; null iff every stack slot is taken (bitmap unchanged); otherwise the lowest free slot is reserved and stack_top is its top |
| KernelHeap.AndFlag | src/mem/kheap.c:33 | `x & (M != 0)` keeps only bit 0 of x |
| KernelHeap.PageRoundAsWritten | src/mem/kheap.c:33-35 | the rounding as written: even sizes are left as they are, odd ones are rounded to a page boundary |
| KernelHeap.PageRoundUp | src/mem/kheap.c:32-35 | the intended rounding: always a page boundary, and an aligned size is kept |
| KernelHeap.PageRoundAsWrittenMisses | src/mem/kheap.c:33-35 | as written, 0x1002 is not rounded although it is not page aligned; the intended rounding gives 0x2000 |
| KernelHeap.PageRoundAsWrittenOdd | src/mem/kheap.c:33-35 | the rounding as written agrees with the intended one exactly on odd and on page-aligned sizes |
| KernelHeap.PageRoundUpAligned | src/mem/kheap.c:32-35 | the intended rounding gives the least page boundary at or above the size (wrapping to 0 on the last page) |
| KernelHeap.BlockSize | src/mem/kheap.c:64 | end - start - BLOCK_META_SIZE in int32 |
| KernelHeap.BlockSizePositive | src/mem/kheap.c:64-65 | the ASSERT size > 0 holds iff the block is larger than its metadata and fits an int32 |
| KernelHeap.BlockComparator | src/mem/kheap.c:79-83 | -1, 0, 1 exactly by the headers' sizes |
| KernelHeap.IndexComparatorIsOrdering | src/mem/kheap.c:79-83 | comparing index entries by their headers' sizes is an ordering, so the heap index stays sorted |
| KernelHeap.BlockMemory.MakeBlock | src/mem/kheap.c:63-77 | non-positive size: the ASSERT halts, nothing written; otherwise header (magic, hole flag, size) at start and footer (magic, start) at end - 8 |
| KernelHeap.MadeBlockLayout | src/mem/kheap.c:63-77 | the footer ends at `end`, carries the magic and points back to a header with the magic, and header + metadata + size spans the block |
| KernelHeap.FirstFitIsBestFit | src/mem/kheap.c:114-137 | over an index sorted by size the first hole that fits is a smallest one that fits |
| KernelHeap.Split | src/mem/kheap.c:178-182 | a remainder of at most BLOCK_META_SIZE is absorbed: the block takes the whole hole and no hole is left; a larger one leaves the block exactly the requested size and a new hole of exactly block_size - requested_size |
| KernelHeap.CreateKheapAlwaysHalts | src/mem/kheap.c:86 | `start & 0xFFF == 0` parses as `start & 0`, so the first ASSERT fails for every start |
| KernelHeap.CreateChecksDiffer | src/mem/kheap.c:86-87 | page-aligned 0x100000..0x200000 passes the intended checks and fails the written ones |
| KernelHeap.CreateChecksAsWritten | src/mem/kheap.c:86-87 | the two ASSERT conditions as written (`x & (0xFFF == 0)`) |
| KernelHeap.CreateChecks | src/mem/kheap.c:86-87 | the intended checks: start and end page aligned |
| KernelHeap.Fits | src/mem/kheap.c:118-133 | the fit test of find_smallest_hole with the intended alignment: with page_align, the next page boundary past the header lies inside the hole and more than BLOCK_META_SIZE past its start; otherwise the hole is at least size |
| KernelHeap.FitsAsWritten | src/mem/kheap.c:118-133 | the same test with the alignment as written at line 124 (`start & 1`) |
| KernelHeap.AlignedFitAsWrittenMisses | src/mem/kheap.c:122-127 | a 0x3000-byte hole at 0x100002 is rejected as written (its even data start counts as aligned) and accepted by the intended test |
| KernelHeap.AlignedFitPlacesData | src/mem/kheap.c:122-131 | a hole accepted by the intended aligned test has a page boundary strictly inside it, more than BLOCK_META_SIZE past the data start |
| KernelHeap.Heap.constructor | src/mem/kheap.c:99-104 | the addresses, size = end - start, and the flags as given |
| KernelHeap.Heap.Expand | src/mem/kheap.c:31-43 | the rounded size must exceed the old one and its end must not pass max_address (else the ASSERT halts and nothing changes); then size is the new size and end = start + size |
| KernelHeap.Heap.Contract | src/mem/kheap.c:45-61 | the rounded size must be below the old one; it is clamped to at least HEAP_MIN_SIZE, stored and returned, end = start + size |
| KernelHeap.Heap.FindSmallestHole | src/mem/kheap.c:114-137 | the first index entry whose hole fits (with page_align, by the intended aligned test Fits), or -1 iff none fits |
| KernelHeap.CreateKheap | src/mem/kheap.c:85-111 | null iff the intended alignment checks fail or the data area is too small for a block; otherwise the data starts past the 0x20000-entry index, end, max and flags as given, one hole header over the whole data area is written and nothing else, and the index, ordered by the header sizes written, holds exactly that hole |
| Monitor.Glyph | src/monitor/monitor.c:59-62 | the cell value: the character in the low byte, black background and color & 0xF in the high byte |
| Monitor.Scrolled | src/monitor/monitor.c:37-45 | rows 1-24 moved up one row and row 24 blank |
| Monitor.PutScreen | src/monitor/monitor.c:56-98 | after every put, cursor_x < 80 and cursor_y <= 24 |
| Monitor.PutPrintable | src/monitor/monitor.c:80-95 | a printable character is written at y*80 + x and x advances; at the end of a row the cursor wraps and on the last row the screen scrolls |
| Monitor.PutBackspace | src/monitor/monitor.c:66-68 | backspace moves left only when x > 0 and erases nothing |
| Monitor.PutTab | src/monitor/monitor.c:69-72 | tab moves x to the next multiple of 8 strictly above it, wrapping at the row end |
| Monitor.PutReturns | src/monitor/monitor.c:73-79 | '\r' sets x to 0; '\n' sets x to 0 and moves down a row, scrolling on the last row |
| Monitor.PutIgnored | src/monitor/monitor.c:64-85 | any other control character changes nothing |
| Monitor.PutAll | src/monitor/monitor.c:124-129 | putting a string keeps the cursor on the screen |
| Monitor.PutAllAppend | src/monitor/monitor.c:124-129 | putting text + [c] is putting text, then c |
| Monitor.HexString | src/monitor/monitor.c:131-159 | "0x" and at least one hex digit |
| Monitor.HexLastNibble | src/monitor/monitor.c:153-158 | the last nibble is always printed, after the leading nibbles without leading zeros |
| Monitor.HexDigits | src/monitor/monitor.c:136-158 | the nibble loop from bit 28 down, skipping leading zeros, plus the last nibble, gives exactly the hex digits of n |
| Monitor.DecLoops | src/monitor/monitor.c:167-182 | the digit loop and the reversal give the decimal digits of a positive value, nothing for a non-positive one |
| Monitor.ReversedSnoc | src/monitor/monitor.c:177-182 | reversing s + [c] is [c] + reversed s |
| Monitor.DecStringAsWritten | src/monitor/monitor.c:161-184 | "0" for 0, the digits of n below 2^31, and nothing for n >= 2^31 (int32 acc) |
| Monitor.DecString | src/monitor/monitor.c:161-184 | with a uint32 accumulator: the decimal digits of n, most significant first, "0" for 0 |
| Monitor.DecAsWrittenLosesDigits | src/monitor/monitor.c:167 | 0x80000000 becomes negative in the int32 accumulator although it has digits to print |
| Monitor.Console.constructor | src/monitor/monitor.c:5-8 | the cursor starts at (0, 0) |
| Monitor.Console.Scroll | src/monitor/monitor.c:25-49 | with cursor_y >= 25 the cells become Scrolled(old) and cursor_y = 24; otherwise nothing changes |
| Monitor.Console.MoveRowsUp | src/monitor/monitor.c:37-39 | cell i takes cell i + 80 for the first 24 rows |
| Monitor.Console.BlankLastRow | src/monitor/monitor.c:43-45 | the 80 cells of row 24 become blank, the rest unchanged |
| Monitor.Console.PutWithColor | src/monitor/monitor.c:56-98 | the screen becomes PutScreen(old, c, color) |
| Monitor.Console.Put | src/monitor/monitor.c:51-53 | monitor_put is PutScreen in white |
| Monitor.Console.PutText | src/monitor/monitor.c:124-129 | the screen after putting each character in turn |
| Monitor.Console.WriteWithColor | src/monitor/monitor.c:124-129 | puts exactly the characters before the first NUL |
| Monitor.Console.Clear | src/monitor/monitor.c:101-117 | all 2000 cells blank and the cursor at (0, 0) |
| Monitor.Console.WriteHex | src/monitor/monitor.c:131-159 | puts "0x" and the hex digits without leading zeros, so 0 gives "0x0" |
| Monitor.Console.WriteDec | src/monitor/monitor.c:161-184 | puts the decimal digits of n, "0" for 0 |
| Format.DigitChar | src/monitor/monitor.c:144-149 | digits 0-9 then a-f, '0' only for 0 |
| Format.DigitRoundTrip | src/monitor/monitor.c:144-149 | a digit's character reads back as the digit |
| Format.Digits | src/monitor/monitor.c:170-174 | at least one digit, a leading '0' only for 0, one digit below the base, only digits of the base |
| Format.DigitsRoundTrip | src/monitor/monitor.c:170-182 | reading the digits back in the base gives the number |
| Format.DigitsInjective | src/task/thread.c:26 | distinct numbers have distinct renderings |
| Gdt.GateRoundTrip | src/mem/gdt.c:25-33 | the packed base reads back as the whole 32-bit base, the limit as its low 20 bits, the flags' low nibble sits in the attributes' high nibble, access verbatim |
| Gdt.Gate | src/mem/gdt.c:25-33 | the packed descriptor of gdt_set_gate (its fields are stated by GateRoundTrip) |
| Gdt.NullSegment | src/mem/gdt.c:11 | descriptor 0 is all zeros |
| Gdt.FullSegment | src/mem/gdt.c:14-22 | descriptors 1, 2, 4, 5: base 0, limit 0xFFFFF, attributes 0xCF |
| Gdt.VideoSegment | src/mem/gdt.c:18 | descriptor 3: base 0, limit 7, attributes 0xC0 |
| Gdt.AccessBytes | src/mem/gdt.c:14-22 | the OR-ed access bytes are 0x8A, 0x82, 0xE2, 0xEA and the flags 0xC |
| Gdt.InitGate | src/mem/gdt.c:11-22 | the descriptor init_gdt asks gdt_set_gate for at each index |
| Gdt.DescriptorTable.constructor | src/mem/gdt.c:3-4 | the static table of six descriptors, all zero as static storage starts |
| Gdt.DescriptorTable.SetGate | src/mem/gdt.c:25-33 | descriptor num becomes the packed gate, no other changes |
| Gdt.DescriptorTable.Init | src/mem/gdt.c:6-23 | limit 6 * 8 - 1 == 47, base the table's address, and descriptor i the one init_gdt asks for |
| Idt.GateRoundTrip | src/interrupt/interrupt.c:57-63 | low + high << 16 reads back as the handler address; sel and attrs as given; always0 == 0 |
| Idt.Gate | src/interrupt/interrupt.c:57-63 | the gate of idt_set_gate (its fields are stated by GateRoundTrip) |
| Idt.KernelGateFields | src/common/global.h:15-26 | SELECTOR_K_CODE is 8, naming GDT descriptor 1 (the kernel code segment) in ring 0; IDT_GATE_ATTR_DPL0 is 0x8E |
| Idt.InterruptTable.constructor | src/interrupt/interrupt.c:10-11 | the static table of 256 gates, all zero as static storage starts |
| Idt.InterruptTable.SetGate | src/interrupt/interrupt.c:57-63 | gate num becomes the packed gate, no other changes |
| Idt.InterruptTable.Init | src/interrupt/interrupt.c:13-55 | limit 8 * 256 - 1 == 2047, base the table's address; gates 0-31 carry handler i, selector 8 and attrs 0x8E; gates 32-255 stay zero |
| Stdlib.CopyForward | src/common/stdlib.c:9-13 | the memory image after the first n bytes are copied front to back keeps its length |
| Stdlib.CopyForwardFrame | src/common/stdlib.c:9-13 | bytes outside [dst, dst + num) are untouched |
| Stdlib.CopyForwardDisjoint | src/common/stdlib.c:9-13 | for non-overlapping ranges dst[i] == old src[i] for 0 <= i < num |
| Stdlib.Memcpy | src/common/stdlib.c:9-13 | num <= 0 is a no-op; otherwise the copy; bytes outside the destination are untouched; disjoint ranges are copied exactly |
| Stdlib.FirstByteSet | src/common/stdlib.c:3-7 | for num > 0 byte 0 becomes value and every other byte is unchanged; num <= 0 changes nothing |
| Stdlib.MemsetAsWritten | src/common/stdlib.c:3-7 | memset as written leaves memory as FirstByteSet: bytes 1..num-1 are never written |
| Stdlib.MemsetAsWrittenMisses | src/common/stdlib.c:3-7 | setting two bytes of 7 to 0 leaves [0, 7] |
| Stdlib.Memset | src/common/stdlib.c:3-7 | as intended: the num bytes from addr become value, nothing else changes |

## Left out

- Spinlocks, yieldlocks, mutexes and interrupt enabling: the outcome of each `spinlock_trylock` is a parameter (`lockFree`); there is one execution unit and no interleaving is modelled.
- `context_switch`, `update_tss_esp`, `process_switch`/`reload_page_directory`, `cpu_idle`, the boot assembly of `init_scheduler`: foreign code with no effect on the queues.
- `linked_list_move`, `linked_list_concate`, `linked_list_init` and `remove_process_thread` are not part of this model's sources; they are modelled by their evident effect (move, concatenate, empty, detach).
- Keyboard.Keyboard.ReadOrBlock: models one pass of the retry loop of `read_keyboard_char`; the retry after being woken is another call. It requires the caller not to be the main thread: the main thread only runs the loop of `kernel_main_thread` (src/task/scheduler.c:64-84) and never reads the keyboard, and a main thread among the waiters would be handed into the candidates, which the scheduler invariant excludes.
- Keyboard.KeyQueue.ReadCharImpl: `process_scancode` and the `KH_*` macros (keyhelp.h) are a parameter `decode` that maps a scancode to a character or to nothing.
- `inb`, `outb`, `move_cursor`, `reload_idt` and the `isr0`-`isr31` stubs: port I/O and assembly; the stub addresses are the parameter `handlers` of `Idt.InterruptTable.Init`.
- Idt.InterruptTable.Init: clears the table with the intended memset effect (all 256 gates zero); as written memset clears only the first byte, but the static table is zero already.
- Bitmap.Bitmap.constructor: allocates the array_size words the bitmap uses (as written kmalloc gets only array_size bytes, see Findings); like the source it never clears them, so the words are fresh with unspecified contents and slots may read as taken.
- `bitmap_destroy`, `hash_table_destroy`, `kfree` and the `alloc`/`free` bodies of kheap.c: the bodies mix two revisions (undefined `heap`, `remaining_size`, `lookup_ordered_array`, swapped arguments); only the helpers and the split rule are modelled.
- KernelHeap.Heap.Expand: rounds with the intended page rounding; the rounding as written is modelled and compared in KernelHeap.PageRoundAsWritten (see Findings).
- KernelHeap.Heap.Contract: rounds with the intended page rounding, as Expand does.
- KernelHeap.IndexComparator: compares by a snapshot of the header map taken when CreateKheap builds the index (after the first hole is written); the C comparator dereferences live memory at each call. Since alloc and free are not modelled, no header changes after the snapshot; an address with no header reads as an all-zero header.
- KernelHeap.BlockMemory: headers and footers are two separate maps keyed by address, so bytes shared between a header and a footer, or metadata clobbered by data, are not modelled.
- KernelHeap.Heap.FindSmallestHole: uses the intended aligned test Fits; the test as written is KernelHeap.FitsAsWritten, and the two are compared in KernelHeap.AlignedFitAsWrittenMisses (see Findings).
- `find_smallest_hole` with `page_align` set ignores the requested size, as the source does; its result is not related to best fit.
- Tasks.ThreadIds.InitThread: ids are unbounded; the uint32 counter's wrap-around after 2^32 threads is not modelled (nor is the pid counter's).
- `strcpy` into the 32-byte name: names longer than 31 characters would overflow; the model stores the name as given.
- `init_thread` is called from process.c with six arguments but defined with four; the model follows the definition and passes `priority` explicitly.
- `prepare_user_stack`, `map_page`, `kmalloc_aligned` and the page directory of `create_process`: paging is not part of this model; a thread's page address is a parameter.
- Monitor.Console.WriteWithColor: requires the text to contain its terminating NUL, as a C string does.
- Monitor.Console.WriteDec: uses the intended uint32 accumulator; the int32 accumulator as written is Monitor.DecStringAsWritten (see Findings).
- `LOAD_FACTOR 0.75` is a floating-point comparison; it is modelled exactly as the integer test 4 * size > 3 * buckets_num.
- Paging (paging.c), the PIC and timer (irq.c, timer.c), system calls (syscall.c, syscall_impl.c), the boot sequence (main.c) and the panic loop (debug.c) are not modelled.

## Findings

| source | as written | input that shows it | evidently intended | confidence | as-written member | corrected member |
|---|---|---|---|---|---|---|
| src/utils/ordered_array.c:31 | the shift loop counts up (`i++`) from size - 1 while `i > iterator` | inserting 3 into [5] with max_size 2: the loop starts at i = 1 > 0 and walks off the two-slot buffer | count down (`i--`), moving the elements after the position up one slot | high; not executed | OrderedArrays.ShiftAsWritten, OrderedArrays.AsWrittenInsertOverruns | OrderedArrays.OrderedArray.ShiftRight, OrderedArrays.InsertKeepsSorted |
| src/common/stdlib.c:5 | every pass stores through `addr` itself, never `addr + i` | memset over [7, 7] with value 0 and num 2 leaves [0, 7] | store to byte i on pass i | high; not executed | Stdlib.MemsetAsWritten, Stdlib.MemsetAsWrittenMisses | Stdlib.Memset |
| src/mem/kheap.c:86-87 | `start & 0xFFF == 0` parses as `start & (0xFFF == 0)`, which is `start & 0` | any start, e.g. 0x100000 with end 0x200000: the ASSERT fails and the kernel halts | `(start & 0xFFF) == 0` and the same for end | high; not executed | KernelHeap.CreateChecksAsWritten, KernelHeap.CreateKheapAlwaysHalts | KernelHeap.CreateChecks, KernelHeap.CreateChecksDiffer, KernelHeap.CreateKheap |
| src/mem/kheap.c:33-35 | `new_size & 0xFFFFF000 != 0` parses as `new_size & 1` | 0x1002 is even and is not rounded up to 0x2000 | round up whenever `new_size & 0xFFF` is non-zero | high; not executed | KernelHeap.PageRoundAsWritten, KernelHeap.PageRoundAsWrittenMisses | KernelHeap.PageRoundUp, KernelHeap.PageRoundUpAligned, KernelHeap.Heap.Expand |
| src/mem/kheap.c:124 | `start & 0xFFF != 0` parses as `start & (0xFFF != 0)`, which is `start & 1` | a hole header at 0x100002 of size 0x3000 with page_align: the data start 0x10000E is even, is taken as aligned, and the hole is rejected although a page boundary lies inside it | `(start & 0xFFF) != 0` | high; not executed | KernelHeap.FitsAsWritten, KernelHeap.AlignedFitAsWrittenMisses | KernelHeap.Fits, KernelHeap.AlignedFitPlacesData, KernelHeap.Heap.FindSmallestHole |
| src/monitor/monitor.c:167 | the uint32 argument goes into `int32 acc` | 0x80000000 becomes negative, the digit loop never runs and nothing is printed | a uint32 accumulator | high; not executed | Monitor.DecStringAsWritten, Monitor.DecAsWrittenLosesDigits | Monitor.DecString, Monitor.Console.WriteDec |
| src/utils/bitmap.c:13 | `kmalloc(ret.array_size)` allocates array_size bytes for array_size 32-bit words | 4096 bits: 128 words are used, 128 bytes hold 32 | `kmalloc(ret.array_size * 4)` | high; not executed | Bitmap.AllocatedWordsAsWritten, Bitmap.AllocationShort | Bitmap.Bitmap.constructor |
