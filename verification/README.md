# bbs100: the runtime beneath the menus

bbs100 is a bulletin board system in C that carries its own runtime: an allocator, linked lists with a merge sort, a
hash table, a file cache, timers, byte buffers, a telnet decoder, word wrap, pass-phrases and a pool of helpers. This
project is a Dafny model of that runtime, with proofs of what it is for. The code is modelled in its own form: objects
whose fields are updated in place are classes, intrusive links are pointers, loops are loops; each method is tied to a
specification on values, and the properties are proved of that specification.

| file | what it models |
|---|---|
| `List.dfy`, `ListSort.dfy`, `Queue.dfy` | doubly linked lists, the bottom-up merge sort that relinks them in place, and queues with two ends and a count |
| `SlubPage.dfy`, `PageTable.dfy`, `SlubState.dfy`, `Slub.dfy`, `SlubRun.dfy` | the slab allocator: pages as bytes with a chain of free slots in them, the page table that maps addresses to slabs, the invariant of the whole, the operations, and clients at work |
| `TimerQueue.dfy`, `TimerRestart.dfy`, `Timer.dfy` | the queue of timers that hold the difference to the one before: as deadlines, as restart counts, and as linked nodes |
| `Hash.dfy` | the hash table that grows and shrinks |
| `FileCache.dfy`, `CachedFile.dfy` | the hash lists and the FIFO that every cached file is in, and the file operations on top of them |
| `StringIO.dfy`, `CString.dfy`, `ListFile.dfy` | the byte buffer, C strings in buffers, and lists of lines in a file |
| `Telnet.dfy` | the decoder of RFC 854 commands, window sizes (RFC 1073) and environment variables (RFC 1572) |
| `WordWrap.dfy` | word wrap while typing |
| `Passwd.dfy` | pass-phrases over a crypt(3) that takes eight characters, and the line in which they are typed |
| `Helper.dfy` | the helpers who take turns |
| `Common.dfy` | what several modules have in common |

The main results, each for all inputs and all runs:

- **Sorting**: for every total preorder, `sort_List` leaves the same nodes, linked both ways, in sorted order, with ties
  in their old order, and there is only one such order (`SortIsStable`, `StableSortUnique`).
- **Allocator**: every call keeps one invariant. Live blocks are disjoint, lie in a registered page, are zeroed when
  handed out, and no call touches the bytes of another block, be it from a slab or from calloc(); a live address always
  leads back to its own slab, a foreign one never to any; the counters tell the truth (`Alloc`, `Free`, `Store`,
  `LiveBlocksDisjoint`, `OwnerFound`). So over every run of requests, writes, reads and releases, and whatever memory
  malloc() has used before and gives out again, each block is as good as a memory of its own; when all have been
  released, every page has gone back and every counter is what it was (`SlubRun.Run`, `RunAll`).
- **Timers**: over every run in which timers are added, removed, and arm themselves again, nothing fires early unless a
  tick arms the last due timer again with just the earliest deadline that is left, and everything fires on time if in
  addition no tick oversteps the first deadline (`NeverEarly`, `OnTime`). For one tick from a queue that is on time
  both conditions together are exact (`OnTimeIff`). Timers that fire once only always meet the first condition
  (`OneShotRun`). Over every run, however the clock ticks and whatever the other timers do, a timer fires as often as its
  restart count says and is then in no queue: never more often (`CountedDown`), and as often as that after a number of
  ticks that is given, if no timer restarts for ever without a period (`FiresInTheEnd`, `FiresAsOftenAsItSays`).
- **Hash**: a FIFO per key, which no resize disturbs (`Add`, `Remove`, `In`, `Resize`).
- **File cache**: hash lists and FIFO hold the same entries after every operation, the FIFO is in the order of last use,
  and expiry takes exactly what has not been used since the limit (`LastUsedFirst`, `Expire`). A run of opens, creates,
  reads, writes, closes, cancels, unlinks, expiries and changes of size, with any number of files open at a time, is
  answered as it is by a machine without a cache and leaves the same on disk and in the open files; no file is freed
  while it is open (`Run`). Such a machine gives back what has been saved (`SavedComesBack`).
- **Files of lists**: `Fgetlist` reads back what `Fputlist` has written, and stops just behind it, exactly if every line
  is plain and has at most PRINT_BUF - 2 characters (`ListRoundTripIff`, `PutAndGet`, `ListsRoundTrip`).
- **Telnet**: a well-formed stream delivers exactly its data and user names, and gets exactly the answers that its
  requests call for; the bytes of both are those of the RFCs (`StreamDelivered`, `Receive`).
- **Word wrap**: the lines give back the keys that were typed, but for at most one space at each line end (`TextKept`,
  `TypeKeys`); each line is cut between words if it can be behind its first third, and as late as it can be
  (`LinesWellBroken`, `CutAsLateAsCanBe`).
- **Pass-phrases**: crypt(3) is asked for the phrase with every four characters back to front (`PreparedChars`,
  `StepsAsked`). `verify_phrase` accepts exactly what matches step by step, and so the phrase itself; every phrase that
  can be typed is accepted against what the user's record keeps of it (`VerifyPhrase`, `PhraseAccepted`,
  `TypedPhraseAccepted`).
- **Helpers**: the loop ends exactly if it is not stuck. A request goes to the helper who was asked before if he is still
  there, and else to the first one who can help (`Consult`); n first requests in a row go to n different helpers
  (`StuckForEver`, `GetHelper`, `AskAll`).

Where the code does not do what one would expect of it, the model follows the code, and the exact condition is proved:

- `set_Timer` (src/Timer.c:119-128) overwrites the delta before it takes the timer out, which moves the timers behind
  it: exactly if some follow and the new sleeptime is not the old delta (`ResetKeepsOthersIff`, with the example
  `ResetMovesOthers`).
- A tick that arms the last due timer again with the earliest deadline that is left by then fires more than the timers
  that share the first deadline, and one that does not fires just these (`TickFiresDueIff`; `LastTurn` for one turn of
  the loop). A tick that oversteps the first deadline is not carried over to the other timers. From a queue that is
  exactly on time the tick leaves everything on time if and only if it does neither; if it does not overstep, then
  something fires before its time if and only if it does the former (`OnTimeIff`, with the examples `RearmedFiresEarly`
  and `OversteppedLate`; if a tick does both, nothing need be early, `OversteppedTogether`).
- A timer that restarts for ever without a period keeps every timer behind it from coming any nearer, because what a tick
  takes off the first delta is lost (`NothingElseFires`, and `NothingElseEverFires` for every run of ticks).
- `Fcreate` on a cache miss (src/CachedFile.c:254-264) does not mark the file for saving; closed without a write it
  leaves the cache out of step with the disk (`Fclose` says exactly when, `CloseUnwritten` shows it).
- A line of PRINT_BUF - 1 characters in a list comes back intact from `Fgetlist`, but its newline is then taken for the
  end of the list, and the rest is cut off; a longer line comes back in pieces (`ListComesBack` says what comes back of
  any list of plain lines, `ListRoundTripIff` when it is the list).
- A list of environment variables that ends with a variable without a value leaves the index into the buffer where the
  name ended, so that the telnet decoder is ready for the next token exactly if the name is empty (`BareVariable`; what
  comes next is misread, `BareUpsetsRequest`). IAC IAC delivers a zero, a command that the decoder does not know takes
  the next byte with it, and a variable without a value is taken for a part of the next name, so that the value of the
  variable behind a bare USER is taken for the user name (`DoubledDelivered`, `OtherDelivered`, `EnvironDelivered`).
- `fill` leaves an empty phrase empty (src/passwd.c:112-114), so that it is encrypted in one step, not two
  (`NothingPrepared`, `PreparedShape`). Spaces at the end of a phrase are lost in the padding (`PreparedAlike`).
- `get_helper` does not end if the asking user stands in the queue twice and nobody else can help (`StuckForEver`);
  `add_helper` does not look whether he is there already, so two calls of it are enough (`AddedTwiceStuckIff`,
  `AddedTwice`).

What the C code takes from outside is a parameter or a value: crypt(3) and its salts, the checksum of a file name, the
hash function, the clock, the addresses that malloc() returns, whether a save succeeds. The disk is a map from names to
contents. Integers are unbounded. Prompts in the word wrap have at most two characters, as the only callers of
`edit_wrap` (src/edit.c:1275, 1388) have it.

## Model

| member | source | states |
|---|---|---|
| List.Add | src/List.c:30-55 | the node is linked behind the last one, and the list stays linked both ways |
| List.Prepend | src/List.c:57-84 | the node is linked before the first one |
| List.Concat | src/List.c:106-128 | two lists become one, linked both ways |
| List.Remove | src/List.c:130-154 | the node is taken out wherever it stands, its neighbours are joined, and its own links are null |
| List.Pop | src/List.c:156-176 | the first node comes off |
| List.Rewind | src/List.c:187-198 | the first node, from any node of the list |
| List.Unwind | src/List.c:200-211 | the last node, from any node of the list |
| List.LinkedUnique | src/include/List.h:27-29 | the next pointers determine the list: no two sequences of nodes are laid out from the same first node |
| ListSort.MergeRuns | src/List.c:246-281 | the two inner loops relink two neighbouring runs into their merge |
| ListSort.MergePass | src/List.c:230-283 | one pass of run length k over the nodes is the pass on sequences, with all next and prev links in order |
| ListSort.Sort | src/List.c:219-290 | the passes with k doubling end, and leave the linked list that the bottom-up sort gives; the prev of the root is null |
| ListSort.MergePermutes | src/List.c:246-281 | a merge has the nodes of both runs |
| ListSort.MergeSorts | src/List.c:246-281 | the merge of two sorted runs is sorted |
| ListSort.MergeStable | src/List.c:246-281 | ties keep their order, the first run before the second |
| ListSort.PassDoublesRuns | src/List.c:230-283 | a pass turns sorted runs of k into sorted runs of 2k |
| ListSort.PassStable | src/List.c:230-283 | a pass keeps the order of ties |
| ListSort.PassPermutes | src/List.c:230-283 | a pass keeps the nodes |
| ListSort.BottomUpPermutes | src/List.c:219-290 | the whole sort keeps the nodes |
| ListSort.BottomUpSorts | src/List.c:219-290 | starting from sorted runs of k, the passes end with one sorted run |
| ListSort.SortIsStable | src/List.c:219-290 | for every total preorder the sort gives a sorted permutation of the same nodes with ties in their old order |
| ListSort.StableSortUnique | src/List.c:219-290 | that is all there is to say: two sorted permutations that keep the order of ties are the same |
| Queue.Queue.Add | src/Queue.c:50-66 | the node goes to the end; both ends, the links and the count agree |
| Queue.Queue.Prepend | src/Queue.c:68-84 | the node goes to the front |
| Queue.Queue.Remove | src/Queue.c:86-103 | a node is taken out wherever it stands |
| Queue.Queue.Pop | src/Queue.c:105-119 | the front node comes off, or null if there is none |
| Queue.Queue.Concat | src/Queue.c:137-153 | a whole list is hung behind the end, and counted |
| Queue.Queue.Sort | src/Queue.c:155-161 | the queue is sorted and both ends are found again |
| SlubPage.NewSlub | src/Slub.c:81-115 | a new page is zeroed, and its chain runs through all slots in ascending order |
| SlubPage.ThreadAll | src/Slub.c:104-113 | the loop that threads the chain through the slots |
| SlubPage.SlubAlloc | src/Slub.c:136-178 | the first slot comes off the chain and is zeroed, and no other byte changes |
| SlubPage.SlubFree | src/Slub.c:180-247 | the slot goes to the front of the chain, and no byte outside it changes |
| SlubPage.DetectDoubleFree | src/Slub.c:218-227 | the walk along the chain meets the slot exactly if it is free already |
| SlubPage.SlotsApart | src/Slub.c:165-176 | different slots do not overlap |
| SlubPage.FreeCount | src/Slub.c:165-167 | numfree is the number of slots that are not live: 0 exactly if all are, the capacity exactly if none is |
| SlubPage.ChainUnique | src/Slub.c:104-113 | the bytes of the page and first determine the chain of free slots |
| PageTable.QSortSorts | src/Slub.c:250-270 | what qsort leaves is sorted by page, with the same entries |
| PageTable.BSearch | src/Slub.c:389-403 | a binary search with cmp_address finds an entry whose page holds the address, if there is one |
| PageTable.SortPageTable | src/Slub.c:264-270 | after sorting on demand the table is sorted, with the same entries |
| PageTable.FreeEntryFirst | src/Slub.c:288-297 | in a sorted table entry 0 is free if any entry is |
| PageTable.Register | src/Slub.c:272-297 | an entry is added and no entry of another slab is lost, whether the table grows or not |
| SlubState.LiveBlocksDisjoint | src/Slub.c:365-387 | live blocks do not overlap, and lie inside a page that is in the table |
| SlubState.BlocksApart | src/Slub.c:165-176 | nor does a live block overlap any free slot |
| SlubState.LiveBlockChange | src/Slub.c:165-176 | a change inside a live block leaves all other live blocks and all chains alone |
| SlubState.OwnerFound | src/Slub.c:413-419 | a search for a live address finds the entry of its own slab |
| SlubState.ForeignNotFound | src/Slub.c:453-460 | no entry claims an address that calloc() returned |
| SlubState.SoundTake | src/Slub.c:317-331 | taking a slot keeps the invariant: a slab is on the full list exactly if it has no free slot, and on the partial list otherwise |
| SlubState.SoundReturn | src/Slub.c:338-362 | so does giving one back |
| SlubState.SoundFacts | src/Slub.c:299-362 | what the operations rely on: every class has its size, and the slabs on its lists exist |
| SlubState.CountedTake | src/Slub.c:383-385 | the counters of objects and bytes stay equal to what is live when a block is added |
| SlubState.CountedReturn | src/Slub.c:426-428 | and when one is taken away |
| SlubState.BooksServed | src/Slub.c:299-332 | the number of pages grows by one exactly if a slab had to be made |
| SlubState.BooksCleaned | src/Slub.c:338-362 | and drops by one exactly if the last live object of a slab has gone |
| SlubState.AllFree | src/Slub.c:351-357 | a slab with as many free slots as its capacity has no live one |
| SlubAllocator.Allocator.constructor | src/Slub.c:43-63 | the invariant holds at the start, with no slab, nothing live and one foreign block, the table |
| SlubAllocator.Allocator.NewSlab | src/Slub.c:81-115 | a new slab has all its slots free, and no live block changes |
| SlubAllocator.Allocator.Link | src/Slub.c:311-314 | the slab gets on the partial list and into the table, which loses nothing |
| SlubAllocator.Allocator.PartialSlab | src/Slub.c:303-317 | a slab with a free slot, a new one only if there is none |
| SlubAllocator.Allocator.MemCacheAlloc | src/Slub.c:299-332 | a zeroed slot that was not live, and the slab on the right list |
| SlubAllocator.Allocator.MemCacheFree | src/Slub.c:338-362 | the slot is free again, a slab that was full moves to the partial list, and one without live slots is destroyed |
| SlubAllocator.Allocator.Find | src/Slub.c:413-419 | sorting and searching find the entry of the owner, exactly for addresses from a slab |
| SlubAllocator.Allocator.Alloc | src/Slub.c:365-387 | a new live block, strictly larger than the request by at most one size step, zeroed, or a block from calloc() at the address that this returns, while the bytes of all other blocks and the whole invariant are kept; the address is used only if malloc() or calloc() is asked, and only a slab there can be new |
| SlubAllocator.Allocator.Store | src/Slub.c:365-387 | a client that writes a byte of its own block, from a slab or from calloc(), changes no other byte, and cannot upset the allocator |
| SlubAllocator.Allocator.Free | src/Slub.c:405-469 | just this block is gone, the bytes of the others and the whole invariant are kept, and no slab is new; null is accepted |
| SlubState.ForeignBlocksDisjoint | src/Slub.c:373-376 | a block from calloc() overlaps no block from a slab and no other one from calloc() |
| SlubState.ForeignBlockChange | src/Slub.c:373-376 | a change inside it leaves all other blocks and all chains alone |
| SlubState.NothingLive | src/Slub.c:338-469 | with nothing live no page is kept, and every counter is what it was at the start |
| SlubState.SoundExample | src/Slub.c:365-387 | a state of the invariant with a block from a slab and one from calloc() |
| SlubState.JustFreedIsNext | src/Slub.c:317-347 | the slot that was freed last in a slab that was full, or is at partial.head, is the next one that is handed out |
| SlubRun.LastStored | src/Slub.c:365-387 | a byte of such a memory reads as what was last stored there, and as 0 before that |
| SlubRun.MallocFresh | src/Slub.c:81-115 | what malloc() keeps apart from the pages of the slabs and the blocks from calloc() is fresh to the allocator |
| SlubRun.HeldApart | src/Slub.c:365-387 | no two blocks that a client holds overlap, and none is at address 0 |
| SlubRun.ClientHasMore | src/Slub.c:365-387 | one more block reads as zeroes, and what is held besides reads as before |
| SlubRun.ClientHasLess | src/Slub.c:405-469 | when one is released, what is held besides reads as before |
| SlubRun.ClientWrites | src/Slub.c:365-387 | when one is written to, the others read as before |
| SlubRun.Perform | src/Slub.c:365-469 | any event answers and does what it would with a memory of its own for each block, unless malloc() has nothing for a request |
| SlubRun.Run | src/Slub.c:365-469 | so does every run up to such a request: what is read is what was last stored, the blocks held do not overlap, and none is lost |
| SlubRun.RunAll | src/Slub.c:43-469 | a run from the very beginning; when all blocks have been released, no page is left and the counters are what they were |
| TimerQueue.DeadlinesRise | src/Timer.c:61-98 | with deltas that are not negative the deadlines do not fall |
| TimerQueue.InsertDeadlines | src/Timer.c:61-98 | add_Timer makes the timer due after exactly its sleeptime, and changes no other deadline |
| TimerQueue.InsertPlace | src/Timer.c:76-94 | it comes behind what is due earlier and ahead of equal deadlines |
| TimerQueue.InsertNonNegative | src/Timer.c:61-98 | no delta becomes negative |
| TimerQueue.TakeOutDeadlines | src/Timer.c:100-111 | remove_Timer leaves the deadlines of the others alone if the delta of the timer is its own |
| TimerQueue.TakeOutUndoesInsert | src/Timer.c:61-111 | remove_Timer undoes add_Timer, delta for delta |
| TimerQueue.ResetDeadlines | src/Timer.c:119-128 | what set_Timer does to every deadline |
| TimerQueue.ResetKeepsOthersIff | src/Timer.c:119-128 | it leaves the other deadlines alone exactly if no timer follows or the new sleeptime equals the old delta |
| TimerQueue.ResetMovesOthers | src/Timer.c:119-128 | an example where it does not |
| TimerQueue.SweepOneShot | src/Timer.c:136-161 | of one-shot timers exactly those at the front with nothing left to wait fire |
| TimerQueue.SweepAgain | src/Timer.c:136-161 | one turn of the loop for a timer that is armed again, and why the loop ends |
| TimerQueue.ShortTick | src/Timer.c:130-162 | a tick below the first deadline fires nothing and brings every deadline nearer by the tick |
| TimerQueue.LongTick | src/Timer.c:130-162 | a tick that reaches it fires exactly the timers that share it, in queue order, and brings the others nearer by the first delta only |
| TimerQueue.TurnBeforeLast | src/Timer.c:136-161 | while others are due, a timer that is armed again makes none of them due, and the earliest deadline and the queue are what they should be |
| TimerQueue.LastTurn | src/Timer.c:136-161 | the turn of the last due timer: the sweep goes on exactly if it is armed again with the deadline of the next one |
| TimerQueue.SweepFiresDueIff | src/Timer.c:136-161 | whatever timers arm themselves again, the due ones fire first and in order, and just these fire exactly if the last one is not armed again with the earliest deadline left; otherwise the next to fire was still asleep |
| TimerQueue.TickFiresDueIff | src/Timer.c:130-162 | a tick fires just the timers that share the first deadline exactly if the last one of them is not armed again with the earliest deadline left; those that are armed again are in the queue then, and the others stay |
| TimerQueue.RearmedFiresEarly | src/Timer.c:136-161 | an example of a timer that fires early because another one was armed again |
| TimerQueue.SleepsByNotes | src/Timer.c:136-161 | what is asleep when the last due timer is taken out is due later than now, by the times for which the timers were armed |
| TimerQueue.FiresEarly | src/Timer.c:130-162 | from a queue that is on time, a tick that does not overstep and arms the last due timer again with the earliest deadline left fires a timer before its time |
| TimerQueue.FiresLate | src/Timer.c:130-162 | a tick that oversteps fires one late |
| TimerQueue.OnTimeIff | src/Timer.c:130-162 | a queue that is exactly on time stays so over a tick if and only if the tick does neither; if it does not overstep, something fires early if and only if the last due timer is armed again with the earliest deadline left |
| TimerQueue.OversteppedTogether | src/Timer.c:130-162 | an example of a tick that does both, in which nothing fires early |
| TimerQueue.OversteppedLate | src/Timer.c:130-162 | an example of a tick that does: one timer fires late, and the next one is due too late |
| TimerQueue.FireAll | src/Timer.c:146-160 | timers that fire one after the other and are armed again leave every deadline where it has been noted |
| TimerQueue.NeverEarly | src/Timer.c:61-162 | over every run of adding and removing timers, which arm themselves again as often as they like, and of ticks that meet the condition of TickFiresDueIff, none fires before its time |
| TimerQueue.OnTime | src/Timer.c:61-162 | and if no tick oversteps the first deadline, every timer fires just at its time |
| TimerQueue.OneShotRun | src/Timer.c:61-162 | with timers that fire once only, every run meets that condition |
| TimerRestart.StandsInPlace | src/Timer.c:61-98 | what is said of a timer in the queue is what its deadline and its fields say |
| TimerRestart.TurnOfItself | src/Timer.c:146-160 | a timer that fires is armed again with one restart less and due after its maxtime, unless that was the last time, and then it is in no queue |
| TimerRestart.TurnOfOther | src/Timer.c:146-160 | and no other timer notices |
| TimerRestart.SweepFate | src/Timer.c:136-161 | what the loop makes of any timer in the queue: how often it fires, what is left of its count, and when it is due then |
| TimerRestart.TickFate | src/Timer.c:130-162 | the same for a tick, which brings nearer what has not fired by no more than the first delta |
| TimerRestart.CountedDown | src/Timer.c:61-162 | over every run: a timer of count r > 0 fires r times at most, stands in the queue with what is left until then, and is in no queue from then on; 0 is good for one time, and a negative count for any number |
| TimerRestart.TickProgress | src/Timer.c:130-162 | after a tick the first timer waits, or one without a period has used up a restart |
| TimerRestart.FiresInTheEnd | src/Timer.c:61-162 | after so many ticks a timer has fired as often as its count lets it, whatever is armed and taken out besides, if no timer restarts for ever without a period |
| TimerRestart.FiresAsOftenAsItSays | src/Timer.c:61-162 | so a timer that is armed with count r > 0 fires exactly r times and is in no queue then; with 0 once, and with a negative count any number of times |
| TimerRestart.NothingElseFires | src/Timer.c:136-161 | why the condition: a timer that restarts for ever without a period stays in front, and a tick changes nothing else |
| TimerRestart.NothingElseEverFires | src/Timer.c:136-161 | nor does any number of ticks |
| Timer.FindPlace | src/Timer.c:76-94 | the search counts the sleeptime down and stops where the timer belongs |
| Timer.AddTimer | src/Timer.c:61-98 | the linked queue is the one with the timer inserted |
| Timer.RemoveTimer | src/Timer.c:100-111 | the linked queue is the one with the timer taken out, whose delta goes to the next one |
| Timer.SetTimer | src/Timer.c:119-128 | the linked queue is the one with the timer set anew |
| Timer.SweepOne | src/Timer.c:136-161 | one turn of the loop over the linked queue is one turn of the sweep, and t_next is the timer it goes on with |
| Timer.UpdateTimerQueue | src/Timer.c:130-162 | the queue and the timers that fire, in order, are those of the sweep on sequences, timers that are armed again included |
| HashTable.Addr | src/Hash.c:83-86 | the address lies in the table, whatever the hash function returns |
| HashTable.MovedOne | src/Hash.c:80-91 | one step of the move into a new table: entries that have moved are found under their key in their old order |
| HashTable.MovedBucket | src/Hash.c:80-91 | a bucket is done |
| HashTable.SelectWithout | src/Hash.c:137-141 | without its first entry a key has lost its oldest value, and no other key has lost any |
| HashTable.TakeOut | src/Hash.c:137-145 | the same for the whole table, of which one entry less is counted |
| HashTable.Hash.constructor | src/Hash.c:33-46 | an empty table |
| HashTable.Hash.Resize | src/Hash.c:64-96 | all values of all keys are kept in order, and every entry is in the bucket of its key |
| HashTable.Hash.Add | src/Hash.c:98-123 | the value goes behind those of the same key; size stays a multiple of 32 and 16 to 48 above the count |
| HashTable.Hash.Drop | src/Hash.c:137-145 | an entry is taken out of its bucket: its key loses its oldest value, and the count drops by one |
| HashTable.Hash.Shrink | src/Hash.c:147-152 | the size stays 16 to 48 above the count, and no value is lost |
| HashTable.Hash.Remove | src/Hash.c:125-154 | the oldest value of the key goes, no other |
| HashTable.Hash.In | src/Hash.c:156-173 | the oldest value that has not been removed |
| FileCache.FilecacheHashAddr | src/CachedFile.c:146-159 | the address lies in the table, also for a negative checksum |
| FileCache.AgreeAdd | src/CachedFile.c:469-477 | a new entry in front of its hash list and of the FIFO keeps the two in agreement |
| FileCache.AgreeRemove | src/CachedFile.c:487-521 | taking an entry out of both does |
| FileCache.AgreeMove | src/CachedFile.c:447-452 | and so does moving one to the front of the FIFO |
| FileCache.ChainKnows | src/CachedFile.c:445-454 | the walk along one hash list finds the entry of a name if the cache has it at all |
| FileCache.RemainingAll | src/CachedFile.c:542-561 | the rehash comes by every entry |
| FileCache.MidwayEnd | src/CachedFile.c:541-567 | after the rehash the new lists agree with the FIFO, which has as many entries as the new size allows |
| FileCache.RecentHit | src/CachedFile.c:447-452 | a hit keeps the FIFO in the order of last use |
| FileCache.RecentAdd | src/CachedFile.c:469-481 | a new entry keeps it, and what has to make room is what was used least recently |
| FileCache.RecentSurvivors | src/CachedFile.c:526-568 | and so do the entries that survive a change of size |
| FileCache.ExpiredExactly | src/CachedFile.c:617-623 | exactly the entries older than the limit go, although only the tail is looked at |
| FileCache.Cache.constructor | src/CachedFile.c:62-77 | an empty cache of the given size |
| FileCache.Cache.FifoAdd | src/CachedFile.c:574-590 | the entry is linked before the first, and no hash list is disturbed |
| FileCache.Cache.FifoRemove | src/CachedFile.c:592-611 | the entry is taken out wherever it stands |
| FileCache.Cache.Lookup | src/CachedFile.c:441-456 | the walk finds the entry of the name, or null if there is none |
| FileCache.Cache.LastUsedFirst | src/CachedFile.c:437-481 | between any two calls the FIFO is in the order of last use, and no timestamp is later than the clock |
| FileCache.Cache.NotFreed | src/CachedFile.c:104-136 | no entry of the cache is for a file that has been freed |
| FileCache.FreedIffClosed | src/CachedFile.c:104-136 | when an entry goes its file is freed exactly if it is not open |
| FileCache.Cache.InCache | src/CachedFile.c:437-457 | a hit moves its entry to the front with the time of the hit; a miss changes neither entries nor timestamps |
| FileCache.Cache.Drop | src/CachedFile.c:104-136 | an entry goes with its timestamp, and its file is freed unless it is open |
| FileCache.Cache.AddCache | src/CachedFile.c:459-481 | the file goes to the front, and the entry used least recently goes if there is one too many, never the new one; its file is freed unless it is open |
| FileCache.Cache.RemoveFilename | src/CachedFile.c:487-521 | just the entry of this name is gone from both lists, and its file is freed unless it is open |
| FileCache.Cache.Expire | src/CachedFile.c:617-623 | the loop ends; an entry stays if and only if it has been used since the limit, with its timestamp, and of the others the files that are not open are freed |
| FileCache.Cache.RehashAll | src/CachedFile.c:541-561 | the loops that move the hash nodes into a new table of any size |
| FileCache.Cache.Resize | src/CachedFile.c:526-568 | as many entries stay as the new size allows, in their order and with their timestamps, and both lists agree; of the others the files that are not open are freed |
| FileCache.Cache.Install | src/CachedFile.c:562-567 | the new table takes over |
| CachedFiles.Store.Fopen | src/CachedFile.c:163-194 | an open file with just what is on disk, or null if there is none, from the cache or not; a cached file that is open already is shared as it is |
| CachedFiles.Store.Fcreate | src/CachedFile.c:235-265 | an empty open file, marked for saving exactly on a cache hit; a cached file that is open already is emptied |
| CachedFiles.Store.Save | src/AtomicFile.c:88-122 | the disk has the data of the file, or nothing has changed; an empty file is never saved |
| CachedFiles.Store.Shut | src/CachedFile.c:206-214 | the cache stays in step with the disk exactly if the file may be closed |
| CachedFiles.Store.Fclose | src/CachedFile.c:196-215 | a file that has been written to is on disk; a failed save leaves it open; the cache stays in step with the disk if and only if the file was opened, or written to, or empty on disk |
| CachedFiles.Store.CloseUnwritten | src/CachedFile.c:254-264 | the case that is shut out: created on a miss, closed without a write, the cache now contradicts the disk |
| CachedFiles.Store.Fcancel | src/CachedFile.c:221-230 | nothing is saved and the cache forgets the file |
| CachedFiles.Store.UnlinkFile | src/CachedFile.c:381-388 | the file is gone from disk and from the cache |
| CachedFiles.Store.Evict | src/CachedFile.c:487-521 | evicting an entry keeps the cache in step with the disk |
| CachedFiles.Store.Keep | src/CachedFile.c:459-481 | so does adding one, whatever is evicted for it |
| CachedFiles.Store.Opened | src/CachedFile.c:163-194 | a file that is opened fits in with those that are open already: every cached file that is open is one of them, under its own name |
| CachedFiles.Store.Shrunk | src/CachedFile.c:104-136 | whatever the cache has lost, the open files are what they were, and none of them has been freed |
| CachedFiles.Store.Open | src/CachedFile.c:163-194 | opening one more file does what it does without a cache, and leaves the files that are open alone |
| CachedFiles.Store.Make | src/CachedFile.c:235-265 | so does creating one more |
| CachedFiles.Store.Rewrite | src/CachedFile.c:301-325 | writing to one of many open files is seen in that one only |
| CachedFiles.Store.CloseOne | src/CachedFile.c:196-215 | closing one of them saves just this one, or fails as it does without a cache |
| CachedFiles.Store.CancelOne | src/CachedFile.c:221-230 | cancelling one of them saves nothing |
| CachedFiles.Store.UnlinkOne | src/CachedFile.c:381-388 | a file can be unlinked while it or others are open |
| CachedFiles.Store.Expire | src/CachedFile.c:617-623 | expiry while files are open leaves them alone, and the cache in step with the disk |
| CachedFiles.Store.Resize | src/CachedFile.c:526-568 | so does a change of size |
| CachedFiles.Store.Perform | src/CachedFile.c:163-265 | any event is answered as by a machine without a cache, with the same effect on the disk and on what is open |
| CachedFiles.Store.Run | src/CachedFile.c:163-265 | so is every run of events, with any number of open files, for every size of the cache and whatever is evicted, expired or resized on the way; no open file is freed |
| CachedFiles.SavedComesBack | src/CachedFile.c:163-265 | what has been written and saved is what is read after the next time that the file is opened, whatever is done with other files in the meantime |
| CachedFiles.UnlinkedIsGone | src/CachedFile.c:381-388 | what has been unlinked cannot be opened until it is created again |
| CachedFiles.DiskChanges | src/CachedFile.c:163-265 | nothing but closing and unlinking a file changes what is on disk of it |
| StringIO.OverlayTwice | src/StringIO.c:198-228 | two writes, one behind the other, are one write |
| StringIO.OverlayBytes | src/StringIO.c:198-228 | byte by byte: what is written stands from the pointer on, and every other byte is what it was |
| StringIO.LineIs | src/StringIO.c:349-365 | a line goes up to a newline, a zero byte, the end of the data or of the buffer, and the pointer behind the newline or all that was read; the last line needs no newline |
| StringIO.StringIO.Grow | src/StringIO.c:71-103 | the buffer gets larger and keeps its data |
| StringIO.StringIO.Write | src/StringIO.c:198-228 | the bytes are written at the pointer through as many growths as it takes, and no byte outside them changes |
| StringIO.StringIO.Read | src/StringIO.c:173-196 | the bytes from the pointer on, up to the size asked for less one for the terminator |
| StringIO.StringIO.Seek | src/StringIO.c:238-272 | the pointer moves to a place inside the data, or not at all |
| StringIO.StringIO.Shift | src/StringIO.c:139-167 | what is before the pointer is gone, the rest is kept |
| StringIO.StringIO.Concat | src/StringIO.c:282-294 | all of the other buffer is written at the pointer, piece by piece |
| StringIO.StringIO.Copy | src/StringIO.c:274-280 | the data of the other buffer |
| StringIO.StringIO.Gets | src/StringIO.c:349-365 | the next line, or the piece of it that fits, and the pointer behind it |
| StringIO.StringIO.Put | src/StringIO.c:367-372 | the whole string is written at the pointer |
| StringIO.StringIO.Free | src/StringIO.c:396-405 | nothing is left |
| ListFile.Fputlist | src/CachedFile.c:353-364 | the lines, each with a newline, and an empty line are written at the pointer |
| ListFile.Fgetlist | src/CachedFile.c:333-351 | the lines from the pointer up to an empty one |
| ListFile.LineRoundTrip | src/StringIO.c:349-365 | a line comes back as it was written exactly if it has at most PRINT_BUF - 2 characters |
| ListFile.EmptyLine | src/CachedFile.c:340-342 | an empty line ends a list |
| ListFile.ListComesBack | src/CachedFile.c:333-364 | what comes back of a list of plain lines of any length, and where the pointer is then |
| ListFile.LinesArePlain | src/CachedFile.c:340-342 | whatever is read, it is lines that are not empty and have no newline in them |
| ListFile.ListRoundTripIff | src/CachedFile.c:333-364 | a list comes back with the pointer just behind it if and only if every line is plain and has at most PRINT_BUF - 2 characters; the lines alone also if the last one has one more |
| ListFile.ListRoundTrip | src/CachedFile.c:333-364 | so every list of such lines comes back |
| ListFile.ListsRoundTrip | src/CachedFile.c:333-364 | and any number of them, one after the other |
| ListFile.PutAndGet | src/CachedFile.c:333-364 | the two functions at work on one buffer: the list comes back exactly under this condition |
| CStrings.StrCpy | src/cstrcpy.c:30-41 | the string is copied if it fits, or the buffer is left empty |
| CStrings.HeldString | src/cstrcpy.c:30-41 | a buffer that has a string and a zero byte behind it holds this string |
| Telnet.Decoder.Negotiate | src/Telnet.c:56-277 | one byte: the indices stay inside the buffer, the sizes inside their limits, and the key, the answer and the new state are those of the decoder as a function |
| Telnet.Decoder.WindowByte | src/Telnet.c:166-198 | a byte of a window size, in the right place, or the size taken over |
| Telnet.Decoder.ValueByte | src/Telnet.c:246-270 | a byte of a value: a key exactly if the variable is USER |
| Telnet.StepSound | src/Telnet.c:56-277 | the bounds hold after every byte |
| Telnet.DataDelivered | src/Telnet.c:67-86 | bytes 1 to 0x7e but for the newline come through as they are, 0x7f as a backspace, and 0, the newline and 0x80 to 0xfe not at all |
| Telnet.TextComesThrough | src/Telnet.c:67-86 | so the return key and all that can be seen do |
| Telnet.RunConcat | src/Telnet.c:56-277 | the keys of a stream are those of its pieces |
| Telnet.RequestDelivered | src/Telnet.c:133-163 | WILL, WONT, DO and DONT with any option deliver nothing and leave no trace |
| Telnet.SimpleDelivered | src/Telnet.c:92-108 | nor do AYT, NOP and SE |
| Telnet.DoubledDelivered | src/Telnet.c:88-90 | IAC IAC delivers a zero |
| Telnet.OtherDelivered | src/Telnet.c:129-130 | any other command takes the next byte with it, and delivers nothing |
| Telnet.WindowSizeDelivered | src/Telnet.c:166-198 | a window size sets width and height in network order, as far as they are sensible |
| Telnet.WindowSizeSet | src/Telnet.c:166-198 | every size from 2 by 3 to 500 by 500 is set as it is sent |
| Telnet.MalformedEnviron | src/Telnet.c:203-228 | a list that does not begin with IS is waited for, and one that goes on with no variable ends at once |
| Telnet.NameDelivered | src/Telnet.c:230-244 | after the name of a variable it is known whether it is USER, however long the name is |
| Telnet.ValueDelivered | src/Telnet.c:246-270 | the value of USER is delivered as keys, any other is not |
| Telnet.EnvironDelivered | src/Telnet.c:203-270 | a list of variables, in which everything up to the next value belongs to the name, delivers the values of those whose name is USER as a C string, each with a return |
| Telnet.BareVariable | src/Telnet.c:230-244 | a variable without a value at the end of the list delivers nothing and leaves the index where the name ended: ready for the next token exactly if the name is empty |
| Telnet.BareUpsetsRequest | src/Telnet.c:272-274 | with such an index left, a request leaves the decoder waiting for a command |
| Telnet.TokenDelivered | src/Telnet.c:56-277 | the decoder is ready for the next token after every well-formed one |
| Telnet.TokenAnswered | src/Telnet.c:92-163 | what is sent back for every token: a refusal, a request for the environment, an answer to AYT, or nothing |
| Telnet.StreamDelivered | src/Telnet.c:56-277 | a well-formed stream delivers exactly its data and the user names, in order, gets exactly the answers of its tokens, sets the last size that is sensible, and ends where it began |
| Telnet.Feed | src/ConnUser.c:224-238 | a stream that goes to the decoder byte by byte gives the keys, the answers and the state of the decoder as a function |
| Telnet.Receive | src/ConnUser.c:224-238 | so a well-formed stream is received as its data and user names, and the last sensible window size, and answered |
| WordWrap.BreakAt | src/edit.c:1049-1059 | the last place where the line may be broken, if there is one behind its first third |
| WordWrap.Editor.constructor | src/edit.c:1286-1295 | an empty line and an empty text |
| WordWrap.Editor.PutChar | src/edit.c:985-1017 | the character is added to the line |
| WordWrap.Editor.FindBreak | src/edit.c:1049-1059 | the loop finds this place |
| WordWrap.Editor.CutAtBreak | src/edit.c:1049-1063 | the line is cut there, and the rest copied |
| WordWrap.Editor.Wrap | src/edit.c:1026-1087 | a key adds to the line, or stores a line with a newline and begins the next one; the buffer never overflows |
| WordWrap.TextKept | src/edit.c:1026-1087 | the stored lines and the line that is typed, with what was swallowed put back, are the keys that were typed; only single spaces at line ends are swallowed |
| WordWrap.LinesFit | src/edit.c:1035-1038 | no line is longer than the widest limit of prompt and screen while it was typed, which is one at least |
| WordWrap.CutAsLateAsCanBe | src/edit.c:1035-1087 | a key stores a line exactly if it is full; it is cut at a place between words behind its first third, or stored whole, and no later place could have been used |
| WordWrap.WrapLenIs | src/edit.c:1045-1047 | the first third is that of the room that the prompt leaves, up to the size of the buffer |
| WordWrap.LinesWellBroken | src/edit.c:1044-1065 | with a fixed width every line ends at a swallowed space, behind a character that ends a word, before one that begins a word, or has no such place behind its first third |
| WordWrap.LinesToldApart | src/edit.c:1071-1073 | the stored text determines the lines |
| WordWrap.NoNewlines | src/edit.c:1071-1073 | no line has a newline in it if none is typed |
| WordWrap.TypeKeys | src/edit.c:1026-1087 | a row of keys leaves the lines of the run as text, and the rest in the buffer |
| Passwd.InitCrypt | src/passwd.c:60-75 | the table goes round the 64 characters of a salt |
| Passwd.Fill | src/passwd.c:108-120 | spaces up to the next multiple, in place |
| Passwd.PaddedOnce | src/passwd.c:108-120 | padding is idempotent, goes to a multiple and not beyond the next, and keeps the phrase |
| Passwd.Reverse4 | src/passwd.c:123-137 | every four characters are reversed in place |
| Passwd.Reversed4Twice | src/passwd.c:123-137 | reversing twice gives the phrase back |
| Passwd.Reversed4At | src/passwd.c:123-137 | which character comes where |
| Passwd.PreparedChars | src/passwd.c:158-187 | what is encrypted, character by character: every four of the phrase back to front, with spaces for what is missing |
| Passwd.SaltsAre | src/passwd.c:160-206 | which of the 64 characters are the salt of each step |
| Passwd.StepsAsked | src/passwd.c:188-208 | what crypt(3) is asked at each step, in characters of the phrase, and where its answer stands |
| Passwd.PreparedShape | src/passwd.c:181-187 | a phrase that is ready has a multiple of four characters, and 16 to 256 unless it is empty |
| Passwd.NothingPrepared | src/passwd.c:112-114 | an empty phrase is not padded |
| Passwd.FilledShape | src/passwd.c:181-187 | the length that the padding ends with |
| Passwd.PreparedAlike | src/passwd.c:181-187 | phrases get ready alike exactly if they differ in spaces at their end only, and are padded to the same length |
| Passwd.CryptPhrase | src/passwd.c:151-209 | the buffer ends up with the answers of crypt(3) to the rest of the phrase at every eighth character, each with its own salt, inside MAX_CRYPTED |
| Passwd.EncodedChunk | src/passwd.c:191-206 | thirteen characters for each step |
| Passwd.VerifyPhrase | src/passwd.c:216-276 | zero if and only if there are as many chunks as steps and every chunk is what crypt(3) answers with the salt that it starts with |
| Passwd.Compared | src/passwd.c:254-275 | comparing the buffer is comparing chunk by chunk, whatever crypt(3) answers to a salt that is none |
| Passwd.AcceptedFor | src/passwd.c:151-276 | for a phrase exactly those phrases are accepted that have as many steps and are encrypted alike in each |
| Passwd.PhraseAccepted | src/passwd.c:151-276 | so the phrase itself is, for every crypt(3) of the standard kind and whatever the salts |
| Passwd.StoredPhraseAccepted | src/state_login.c:840-850 | a user record keeps MAX_CRYPTED_PASSWD - 1 characters, which does for a phrase exactly if it has at most 80 characters |
| Passwd.PhraseLine.EditPassword | src/edit.c:730-788 | a key in the line in which a phrase is typed, inside its buffer |
| Passwd.PhraseLine.EditKeys | src/edit.c:730-788 | whatever is typed, the line has at most MAX_LINE - 1 characters |
| Passwd.TypedAsItIs | src/edit.c:768-787 | printable characters make up the line, up to 79 of them |
| Passwd.TypedBack | src/edit.c:751-757 | each backspace takes back the last character, if there is one |
| Passwd.TypedControls | src/edit.c:735-770 | the erasing keys begin the line anew, and other control characters leave it as it is |
| Passwd.TypedPhraseAccepted | src/state_config.c:740-750 | so every phrase that can be typed is accepted against what the user record keeps of it |
| Helper.Pool.constructor | src/helper.c:33-37 | an empty queue |
| Helper.Pool.Add | src/helper.c:39-48 | a user who offers help and is old enough goes to the end of the queue, one who is too young loses the flag |
| Helper.Pool.Remove | src/helper.c:50-60 | the first entry of the user is taken out |
| Helper.Pool.NextHelper | src/helper.c:105-133 | the loop ends, unless it is stuck, and gives the first one in the queue who can help and is not the user; those before him who cannot help are dropped and lose the flag, and he goes to the end |
| Helper.Pool.SameHelper | src/helper.c:78-98 | who was asked before is asked again if he still can help, or dropped |
| Helper.Pool.GetHelper | src/helper.c:70-134 | both together: the helper, the queue, the flags and what is remembered for the next time |
| Helper.Passed | src/helper.c:116-120 | moving the user himself to the end does not change who is chosen in the end |
| Helper.TurnedDown | src/helper.c:111-115 | nor does dropping one who cannot help |
| Helper.CloserToChosen | src/helper.c:105-120 | why the loop ends |
| Helper.StuckForEver | src/helper.c:105-120 | why it does not if only the user himself could be chosen and he is in the queue twice: a stuck queue leads to a stuck queue |
| Helper.AddedTwiceStuckIff | src/helper.c:39-48 | after a user has been added twice his own request does not end exactly if nobody else can be chosen |
| Helper.AddedTwice | src/helper.c:33-48 | a new pool to which one user is added twice, and in which his request does not end |
| Helper.DifferentNamesEnd | src/helper.c:105-120 | with different names in the queue it always ends |
| Helper.FirstServed | src/helper.c:105-131 | a user who is no helper gets the first one who can help, who becomes the last one |
| Helper.FreshServes | src/helper.c:105-133 | any user gets the first one who can help and is not himself; those of his own name before it follow the others |
| Helper.RequestServes | src/helper.c:70-134 | so does one who asked a helper before that is no longer there |
| Helper.StuckIff | src/helper.c:105-120 | the loop is stuck exactly if nobody else can be chosen and the user stands in the queue more than once |
| Helper.HelpersTakeTurns | src/helper.c:105-131 | a row of requests goes to the helpers in their order, and the queue is rotated by as many |
| Helper.HelpersDiffer | src/helper.c:105-131 | n requests in a row go to n different helpers if there are n who can help |
| Helper.Pool.StillWilling | src/helper.c:111-115 | who loses the flag in a request could not have been chosen, so everybody else is as willing as before |
| Helper.Pool.Ask | src/helper.c:70-134 | a first request of a user who is no helper gets the first one who can help, who is the last one then |
| Helper.Pool.OldEnoughIff | src/helper.c:43-43 | the age is in whole days |
| Helper.Pool.Consult | src/helper.c:70-134 | any request, in the terms of the queue: the helper asked before if he is still there and willing; else the first of those who can help that is not the user; and nobody else loses the flag than those who could not have been chosen |
| Helper.AskAll | src/helper.c:70-134 | so n such requests to the pool, one after the other, get n different helpers, and leave the queue rotated by as many |

## Left out

- Sockets, select(), signals, child processes and the resolver; menus, prompts, screen output, colours and logging.
- Running out of memory, and the overflow of 32-bit counters and sizes: integers are unbounded, malloc() does not fail.
- Saving and loading of users, rooms and messages: the FF1 macros that it consists of are not part of this model.
- SlubAllocator.Allocator.Link: the lists of slabs of a class are sequences here; the linked queue itself is Queue.Queue.
- SlubAllocator.Allocator.Alloc: memory is one array of bytes, and where malloc() or calloc() places something is a parameter, somewhere fresh and not in the page at address 0; the page table and the slab structures lie elsewhere.
- SlubRun.Run: it ends where malloc() has nothing for a request; the source returns a null pointer then, after it has counted the block.
- PageTable.SortPageTable: qsort() is modelled by an insertion sort; the order of equal entries, which are all empty, is not modelled.
- HashTable.Hash.Resize: the buckets are sequences here; the linked list of a bucket is that of List.Add and List.Remove. The sign of the one value that negation cannot mend, INT_MIN, is not modelled.
- HashTable.Hash.Add: not for an empty key, which src/KVPair.c:135-138 stores as a null pointer that strcmp() and the hash function cannot take.
- Timer.SetTimer: only for a timer that is in the queue; for one that is in none remove_List (src/List.c:142-143) would take it for the first node, and the queue would be lost.
- Timer.UpdateTimerQueue: the action of a timer is not modelled, so it cannot add or remove timers, nor can a signal, and it cannot change its own sleeptime or count, as src/timeout.c:72-90 does for the last minutes of an idle user.
- TimerQueue.NeverEarly: runs have no set_Timer, for which the deadlines of other timers do not hold (ResetKeepsOthersIff).
- TimerRestart.CountedDown: these runs have no set_Timer either, and no action that changes the count.
- FileCache.FilecacheHashAddr: path_strip() is not modelled, file names are taken as they are; crc32 is uninterpreted.
- FileCache.Cache.Resize: not to size 0, which switches the cache off and frees it (deinit_FileCache, which leaks what is behind the first entry of a bucket).
- CachedFiles.Store.Resize: not to size 0 either.
- CachedFiles.Store.Open: not of a name that is open already, which CachedFiles.Store.Fopen covers; CachedFiles.Store.Make likewise.
- CachedFiles.Store.Rewrite: the data as a whole; where in the file is written is that of StringIO.StringIO.
- CachedFiles.Store.CloseOne: not for a file that was created and not written to, for which CachedFiles.Store.Fclose says what happens.
- CachedFiles.Store.Put: the functions that write are one assignment of the data; the position in the file is that of StringIO.StringIO.
- CachedFiles.Store.Fclose: not for a file whose name the cache has for another File object by now, which takes a second Fopen of a name after the open file was evicted; CachedFiles.Store.Save and CachedFiles.Store.Shut likewise.
- CachedFiles.Store.Run: no second open of a name that is open, which the source reports as a bug, and a file that is created is written to before it is closed, as the exact condition of CachedFiles.Store.Fclose asks for. Saves may fail.
- StringIO.StringIO.Shift: for a size that is positive, as it is in all three calls; what Malloc makes of another one is not part of this model.
- StringIO: trunc_StringIO, which does not update the size, printf-like output, and loading and saving.
- Queue: dequeue_Queue, which leaves the next pointer of the new head as it was.
- ListSort.Sort: alphasort_StringList (src/StringList.c:168) is not transitive, so it is no order that this speaks about.
- Telnet.StreamDelivered: a byte 255 inside a window size or a variable, sent doubled, which the source does not decode; a second value for one variable; subnegotiations of other options; and a variable without a value at the end of a list, for which see Telnet.BareVariable.
- WordWrap.Editor.Wrap: not for prompts of more than two characters, which no caller has; what edit_putchar and edit_wrap send to the screen; the keys that delete, insert a tab or choose a colour.
- WordWrap.LinesWellBroken: for a width and prompt that do not change while typing.
- Passwd.VerifyPhrase: the branch for a crypt(3) that takes whole phrases, and the detection of that.
- Passwd.CryptPhrase: crypt(3) is uninterpreted, but for the form of its answer.
- Helper.Pool.GetHelper: the messages to the user, and users who log out while they stand in the queue.
- Easy parts of the repository: KVPair, Param, Category, HostMap and the netmasks of Wrapper.c.
