# Prismio runtime: a Dafny model and its proofs

Prismio's C runtime holds several small stateful algorithms whose correctness rests on invariants
that span many functions: a Bacon-Rajan cycle collector, a slab allocator shared by threads,
containers that own their elements, a region stack, an in-place string append, a vectorised
substring search, a blocking channel, a line reader, argument quoting, a compiler pass that deletes
zero fills, and a build stamp. This project models them in Dafny, in the form the source has them
(classes whose methods update fields, loops, arrays; pure functions and state machines where the
source is pure or concurrent), and proves what each is for.

`dafny verify dfyconfig.toml` checks everything.

| files | what they model |
|---|---|
| `CycleGraph`, `CycleTrial`, `CycleFrames`, `CycleHeap`, `CycleExact`, `CycleCollector`, `CycleRuns`, `CycleLeak` | the cycle collector, from edge counting to whole runs and what they lose |
| `SlabGeometry`, `SlabState`, `SlabSteps`, `SlabShared`, `Slab` | the slab allocator under any interleaving of threads |
| `LoopNest`, `CoveredFill`, `CoveredFillExact` | the covered-fill elimination pass |
| `RcLists`, `OwnedList`, `ListBytes` | list ownership, counted and uncounted, and its byte moves |
| `BitCeil`, `StringAppend`, `Search`, `Arena` | consuming append, substring search, regions |
| `ChannelRing`, `Channel`, `LineReader`, `Quoting` | channel, line reader, argument quoting |
| `Stamp` | the toolchain stamp |
| `Basics` | what several of these share |

## What the proofs found

- **A bounded collection can leak.** A pass over 256 roots leaves white any garbage that is buffered
  for a later pass, and also unbuffered garbage that only such an object reaches. The buffered object
  is freed when its turn comes, as a zero-count root, without its children being looked at, so the
  unbuffered one is never freed. `CycleLeak.LeakWitness` is a program of allocations, stores, retains
  and releases whose 4096th candidate starts such a pass; whatever operations follow, its object 2 is
  neither freed nor reachable. `CycleRuns.Run` proves the permanence for every run: an object left
  white outside the buffer stays so, one left white in the buffer waits there with count zero until
  its own turn frees it. `CycleRuns.PassLosesNoneIff` says exactly when a pass, bounded or full, loses
  nothing, and `CycleCollector.Collector.Collect` exactly which objects any pass frees. Safety is not
  affected: `CycleRuns.Run`.
- **Freeing at count zero leaks what the object references.** `cyc_free_object` frees the storage and
  the non-cyclic fields and follows no cyclic one (`runtime/lang_runtime.c:2200-2212`), and neither
  `cyc_release` nor the zero-count branch of `cyc_collect` gives those references back, so the counts of
  the children never drop. `CycleLeak.ChainWitness`: dropping the only holder of a two-object chain
  frees the first object, and the second is never freed. This is exact: `CycleExact.Balanced` is an
  equation for every live count, and `CycleRuns.ToExit` says that what the pass at exit leaves unfreed is
  what the program can still reach, what a bounded pass lost, what is reachable from the references
  of an object freed at count zero, and what is reachable from an object whose last hold was stored
  into itself; nothing else is ever lost.
- **A zero count does not always free at once.** An object whose last count goes while it is in the
  candidate buffer is freed by the collection that takes it out, as the code does
  (`runtime/lang_runtime.c:2395-2408`).
- **A full slab cache shares its newest blocks.** A spill takes the first 64 of a last-in first-out list,
  so it hands over the blocks freed last, the one just freed first (`Slab.FreedIs`); the comments beside
  it (`runtime/lang_runtime.c:175-177`, `361`) speak of the oldest.
- **Covered-fill elimination relies on simplified loops.** The pass tests dominance by the nest's exit
  block but not that the exit has no predecessor outside the nest. With a shared exit its tests pass
  and the deletion is visible (`CoveredFill.SharedExitChangesMeaning`). The exact condition is that no
  path on which the fill ran and the nest has not run since ends in a block that may read
  (`CoveredFillExact.NoStaleReadIff`); a dedicated exit implies it (`CoveredFill.DedicatedIsSafe`).
  The pass is scheduled where loops are in simplified form (`runtime/llvm_bridge.cpp:493-494`), which
  gives dedicated exits.
- **The region allocator's size guard wraps** for requests within 16 bytes plus the used bytes of the
  end of the address space (`Arena.GuardExact`, `Arena.GuardFooled`); no C object is that large.
- **Windows command lines**: the arguments come back exactly when the program name has no quote in it
  (`Quoting.ArgumentsReadBackIff`; `Quoting.LostArgument` is the smallest loss), and the whole vector
  exactly when, besides, the name does not both need quotes and end in a backslash
  (`Quoting.ArgvReadBackIff`).
- **The build stamp relies on its own removal**, whose result the driver does not look at
  (`runtime/build_driver.c:4402`). Under a stamp that stayed, the write of any file is truthful exactly
  when it accords with the stamp's entries for it (`Stamp.KeptStampIff`), and a completed build passes
  through an untruthful state exactly when it emits an artifact the stamp has an entry for
  (`Stamp.Driver.EmitToolchain`, with the one exception `Stamp.Calm` names; `Stamp.KeptStampLies`).
- **The give-up bound of the search is tighter than promised**: at most
  `max(50, (last - from) / 9 + 1)` comparisons, not `/ 8` (`Search.FindNeedle`).

## Model

| member | source | states |
|---|---|---|
| `CycleTrial.MarkEdge` | runtime/lang_runtime.c:2213-2232 | the guard `rc > 0` of the marking loop never fails when every count covers the references from the live objects; the subtraction keeps the marking invariant, in which each count is the original minus the references of grey objects walked so far |
| `CycleTrial.MarkDone` | runtime/lang_runtime.c:2213-2232 | when marking ends the grey objects are closed under references and every count is the original minus its references from grey objects, with multi-edges counted |
| `CycleTrial.BlackEdge` | runtime/lang_runtime.c:2234-2249 | giving one reference back keeps the scanning invariant, and its target is a marked object that a surplus count upholds |
| `CycleTrial.Whiten` | runtime/lang_runtime.c:2251-2268 | a marked object with no count left may turn white without breaking the scanning invariants |
| `CycleTrial.WhiteExact` | runtime/lang_runtime.c:2251-2268 | a white object is not reachable from any surplus object; a black one is |
| `CycleTrial.ScanCounts` | runtime/lang_runtime.c:2213-2268 | after scanning, each count is its starting count minus only its references from white objects, and white objects count zero |
| `CycleTrial.ScanDone` | runtime/lang_runtime.c:2213-2268 | marking and scanning any root set is exact: white iff reached and not reachable from a reached object whose count exceeds its references from reached objects; all other counts restored; nothing outside touched |
| `CycleHeap.TrialConsistent` | runtime/lang_runtime.c:2213-2268 | a trial over counted roots keeps the heap consistent: what turns white has no outside holder and nothing live references it |
| `CycleHeap.AccessibleIsLive` | runtime/lang_runtime.c:2057-2075 | in every consistent heap whatever an outside holder can reach is neither freed nor white |
| `CycleHeap.SweepAll` | runtime/lang_runtime.c:2270-2295 | a sweep that went wherever it could leaves no white unbuffered object among those reached, provided no reached white object is buffered |
| `CycleHeap.SweepExact` | runtime/lang_runtime.c:2270-2295 | the sweep frees a sweepable object iff a root reaches it through sweepable objects only |
| `CycleHeap.CollectExact` | runtime/lang_runtime.c:2301-2330 | which objects a pass frees and which it leaves white, exactly, for any number of roots |
| `CycleHeap.CollectFreedAll` | runtime/lang_runtime.c:2301-2330 | a pass over the whole buffer frees every piece of garbage it reaches once |
| `CycleExact.TrialBalanced` | runtime/lang_runtime.c:2213-2268 | a trial keeps the equation of counts: every live count is its outside holds plus the references of live objects and of objects freed at count zero |
| `CycleExact.FreeBalanced` | runtime/lang_runtime.c:2200-2212 | freeing at count zero keeps it, with the freed object still counted as a holder, and what it references stays live |
| `CycleExact.FreeCovered` | runtime/lang_runtime.c:2387-2408 | after such a free every live object is still reached from a hold, a candidate, a reference of an object freed at count zero, or an object left to itself |
| `CycleExact.StoreCovered` | runtime/lang_runtime.c:2057-2075 | so it is after a store, whatever it overwrites |
| `CycleExact.PassCovered` | runtime/lang_runtime.c:2301-2330 | and after a pass over any number of roots, although they are no longer candidates: no live object is forgotten |
| `CycleExact.LeakedIsLive` | runtime/lang_runtime.c:2200-2212 | what an object freed at count zero references, and all that is reachable from there, is never freed nor white |
| `CycleExact.UnfreedIff` | runtime/lang_runtime.c:2301-2347 | with no candidate left, an object is unfreed iff it is accessible, was left white, or is leaked in one of the two ways |
| `CycleCollector.Collector.WalkPush` | runtime/lang_runtime.c:2182-2189 | appends to the shared child window, whatever its capacity |
| `CycleCollector.Collector.PushChildren` | runtime/lang_runtime.c:2213-2220 | the window gains exactly the object's references, in order |
| `CycleCollector.Collector.MarkGrey` | runtime/lang_runtime.c:2213-2232 | the recursive marking terminates, greys only what it reaches, walks each newly grey object whole, and leaves the caller's window slice as it was |
| `CycleCollector.Collector.MarkChild` | runtime/lang_runtime.c:2222-2230 | one turn of the marking loop, including the reference that is null |
| `CycleCollector.Collector.MarkRoots` | runtime/lang_runtime.c:2325 | marking all roots greys exactly what they reach, with every inner reference subtracted |
| `CycleCollector.Collector.ScanBlack` | runtime/lang_runtime.c:2234-2249 | terminates, blackens, gives every reference of each newly black object back, disturbs no caller's window slice |
| `CycleCollector.Collector.BlackChild` | runtime/lang_runtime.c:2240-2247 | one turn of the blackening loop |
| `CycleCollector.Collector.Scan` | runtime/lang_runtime.c:2251-2268 | terminates; the object is no longer grey; black objects stay black; every newly white object's references have all been scanned |
| `CycleCollector.Collector.ScanChildren` | runtime/lang_runtime.c:2259-2267 | the children of an object that has just turned white, in order |
| `CycleCollector.Collector.ScanRoots` | runtime/lang_runtime.c:2326 | after scanning all roots none is grey and the scanning invariants hold |
| `CycleCollector.Collector.Trial` | runtime/lang_runtime.c:2325-2326 | mark and scan from live counted roots: the exact outcome, on a consistent heap |
| `CycleCollector.Collector.CollectWhite` | runtime/lang_runtime.c:2270-2295 | terminates; every object is untouched or was white and unbuffered, is now black and has been freed once more than before; freed headers are looked at again without harm |
| `CycleCollector.Collector.Sweep` | runtime/lang_runtime.c:2327 | sweeping from all roots frees only what they reach through white unbuffered objects, each once |
| `CycleCollector.Collector.TakeRoots` | runtime/lang_runtime.c:2301-2313 | takes the oldest candidates in order, clears exactly their flags |
| `CycleCollector.Collector.DropZeroRoots` | runtime/lang_runtime.c:2315-2323 | frees exactly the roots whose count is zero, keeps exactly the others |
| `CycleCollector.Collector.CollectRoots` | runtime/lang_runtime.c:2301-2330 | the exact effect of a pass over the first `take` candidates |
| `CycleCollector.Collector.Collect` | runtime/lang_runtime.c:2301-2330 | takes everything or at most 256 roots; the exact set freed; a full pass frees every piece of garbage reached and leaves white only what was white outside the buffer before |
| `CycleCollector.Collector.Final` | runtime/lang_runtime.c:2337-2347 | the pass at exit empties the buffer and frees exactly the zero-count candidates and the garbage they reach, all of it |
| `CycleCollector.Collector.Alloc` | runtime/lang_runtime.c:2349-2378 | a new object is black, unbuffered, with count zero and null fields |
| `CycleCollector.Collector.Retain` | runtime/lang_runtime.c:2380-2385 | one more count, nothing else, and the heap stays consistent |
| `CycleCollector.Collector.Release` | runtime/lang_runtime.c:2387-2419 | a null or uncounted object: nothing; last count: freed at once unless buffered, its references not given back; otherwise a candidate, and a bounded pass when the buffer holds 4096 |
| `CycleCollector.Collector.Store` | runtime/lang_runtime.c:2057-2075 | storing a counted reference moves one hold into a field and the old one out, keeping the heap consistent |
| `CycleRuns.Run` | runtime/lang_runtime.c:2301-2429 | over every run of allocations, retains, releases, stores and collections, each having exactly its effect on every header, count, hold and candidate: nothing an outside holder reaches is freed or white, nothing is freed twice, freed stays freed; an object white, unfreed and unbuffered stays so, a buffered white one stays white with count zero or has been freed once; what an object freed at count zero references is never freed; what is out of reach stays so; every live object stays reached from a hold, a candidate or a leak |
| `CycleRuns.ToExit` | runtime/lang_runtime.c:2301-2429 | over every such run from the start, and the full pass at exit: an object is left unfreed iff the program can still reach it, a bounded pass left it white outside the buffer, or it is reachable from a reference of an object freed at count zero or from an object left to itself |
| `CycleRuns.PassLosesNoneIff` | runtime/lang_runtime.c:2301-2330 | a pass, bounded or full, leaves nothing white outside the buffer iff nothing was before and every piece of garbage found outside the rest of the buffer is reached from the roots without passing through an object that still waits there |
| `CycleRuns.FullPassLeavesNoneIff` | runtime/lang_runtime.c:2301-2330 | a full pass leaves no garbage white iff all white objects were still buffered |
| `CycleLeak.LeakWitness` | runtime/lang_runtime.c:2301-2419 | from an empty heap, allocations, stores, retains and releases alone, the last release starting the bounded pass at 4096 candidates, lose object 2: after any further operations it is white, unfreed, unbuffered and inaccessible |
| `CycleLeak.LeakPass` | runtime/lang_runtime.c:2301-2330 | any pass with 0 among its roots and 1 left in the buffer condemns 2 and does not free it |
| `CycleLeak.ChainWitness` | runtime/lang_runtime.c:2387-2408 | a two-object chain: dropping the only hold on the first frees it, and the second, out of reach, is never freed whatever follows |
| `SlabGeometry.ClassFor` | runtime/lang_runtime.c:338-358 | the smallest class that holds the request, class 0 for a zero-byte request |
| `SlabGeometry.WindowCount` | runtime/lang_runtime.c:312-333 | a window is at least 8 blocks, and 8 KiB worth of them where that is more |
| `SlabGeometry.WindowIsFull` | runtime/lang_runtime.c:312-333 | no window could be longer: it is the least of 8, or one block more would pass 8 KiB |
| `SlabGeometry.FreshSpanFits` | runtime/lang_runtime.c:312-333 | a fresh span holds a whole window of any class despite the stagger |
| `SlabGeometry.BlockPlaced` | runtime/lang_runtime.c:312-333 | every block is 16-byte aligned, wholly inside its span, and `off >> 16` finds that span |
| `SlabGeometry.BlocksDisjoint` | runtime/lang_runtime.c:312-333 | two different blocks never overlap, in one span or two |
| `SlabGeometry.ReallocRoom` | runtime/lang_runtime.c:397-410 | a block that must move goes to a strictly larger class, so its whole old size fits |
| `SlabState.ExactlyOnePlace` | runtime/lang_runtime.c:213-226 | a block is somewhere iff it has been cut from a span, and then in exactly one place: with the program, in one thread's window, or on one cache list, batch or loose list, at one position |
| `SlabSteps.PopOk` | runtime/lang_runtime.c:342-347 | taking the head of a cache list keeps the invariant |
| `SlabSteps.CutOk` | runtime/lang_runtime.c:279-288 | cutting the next block of a window keeps the invariant |
| `SlabSteps.PushOk` | runtime/lang_runtime.c:378-386 | freeing onto a cache list keeps the invariant |
| `SlabSteps.TransferOk` | runtime/lang_runtime.c:288-311 | moving the first blocks of one list to another keeps the invariant |
| `SlabSteps.BatchOk` | runtime/lang_runtime.c:288-298 | taking a shared batch of 64 and serving its first block keeps the invariant |
| `SlabShared.LooseOk` | runtime/lang_runtime.c:299-311 | taking up to 64 loose blocks keeps the invariant |
| `SlabShared.SpillOk` | runtime/lang_runtime.c:362-374 | spilling makes a batch of exactly 64 and keeps the invariant |
| `SlabShared.DropOk` | runtime/lang_runtime.c:414-436 | putting one block on the loose list keeps the invariant |
| `SlabShared.WriteOk` | runtime/lang_runtime.c:338-374 | a program's store into a block it holds breaks no list |
| `SlabShared.CarveOk` | runtime/lang_runtime.c:312-333 | cutting a window from a span keeps the invariant |
| `SlabShared.CarveSpans` | runtime/lang_runtime.c:312-333 | and exactly the cut blocks stay somewhere: a class leaves a span only when no further window fits, so how much of it was cut is known |
| `Slab.Allocator.Alloc` | runtime/lang_runtime.c:338-359 | the head of the thread's own list when it has one, else what a refill serves with every other block of the batch, loose front or window in its place; a block nobody holds, of the class for the size; none iff the size is above 512 bytes, or list, window, batches and loose blocks are all empty and the reservation has no room for a window; no live block's words change; no cut is undone |
| `Slab.Allocator.Refill` | runtime/lang_runtime.c:279-334 | the window's next block; else the newest batch's first, its other 63 the thread's list; else the first loose one, the rest of the front of 64 the thread's list; else the first of a fresh window; none iff all of these are empty, no window fits in the class's span and the reservation is used up |
| `Slab.Allocator.TakeLoose` | runtime/lang_runtime.c:299-311 | the first 64 loose blocks or fewer: one served, the others the thread's list in order |
| `Slab.Allocator.Carve` | runtime/lang_runtime.c:312-333 | the next window of the class's span, right behind what was cut from it, or the first of a new span; failure exactly when the reservation is used up |
| `Slab.Allocator.Free` | runtime/lang_runtime.c:378-392 | exactly the freed block stops being live; it goes to the front of the freeing thread's list of the class the span table gives, and at 128 with threads on the first 64 become a batch |
| `Slab.FreedIs` | runtime/lang_runtime.c:362-392 | after a free the list is one longer, or 64 of its blocks became a batch: those freed last, this one first; a list under 128 stays so while threads run |
| `Slab.Allocator.Spill` | runtime/lang_runtime.c:362-374 | the first 64 blocks, in order, become the newest shared batch; nothing live changes |
| `Slab.Allocator.FlushStep` | runtime/lang_runtime.c:414-436 | one turn of a thread's exit: the window's next block, else the list's first, goes to the front of the loose list and everything else stays where it was; done iff list and window are empty, with count zero |
| `Slab.Allocator.Write` | runtime/lang_runtime.c:338-374 | a program's store changes one word of one block |
| `Slab.Allocator.Realloc` | runtime/lang_runtime.c:397-410 | kept in place while it fits; otherwise every word of the old class size is copied to the block an allocation answers, of the slab, or of libc exactly when the slab has none; the old block is freed, no other live block changes |
| `Slab.Run` | runtime/lang_runtime.c:279-436 | under every interleaving, each operation having exactly its effect: the blocks cut from the spans are exactly those that are somewhere, each in exactly one place; what was cut stays cut; each cache count its list's length (outside a flush), each batch 64, each loose count its list's length, the live blocks exactly those held |
| `Slab.PlacedApart` | runtime/lang_runtime.c:312-392 | in every reachable state two cut blocks share no byte, and the address arithmetic of free finds each block's span and so its class |
| `LoopNest.NestTiles` | runtime/llvm_bridge.cpp:281-310 | when every step is what the loops inside cover, the store hits every store-sized tile exactly once, in order, at any depth |
| `LoopNest.RunAgree` | runtime/llvm_bridge.cpp:254-310 | two runs over different contents end in the same outside state and agree on all the nest covers, whatever other stores occur |
| `LoopNest.CoverForgets` | runtime/llvm_bridge.cpp:254-310 | a nest that covers the array leaves nothing of what was there |
| `LoopNest.StoreCovers` | runtime/llvm_bridge.cpp:281-310 | decides, for any levels, whether the chain is not empty, every level is affine, runs every turn, steps by the span so far and stays within 2^40 bytes, and the product is the array's size |
| `LoopNest.ChainFits` | runtime/llvm_bridge.cpp:281-310 | what the check accepts is exactly a nest whose steps tile, up to the limit, and its product is the nest's span |
| `LoopNest.AcceptedCovers` | runtime/llvm_bridge.cpp:281-310 | when the check answers true, the nest's store hits every tile of the array once, in order, and the tiles are the whole array |
| `LoopNest.AcceptedIff` | runtime/llvm_bridge.cpp:281-310 | for a nest of any depth the check answers true iff its steps tile and its span is the array's size, within 2^40 bytes |
| `LoopNest.AcceptsExactly` | runtime/llvm_bridge.cpp:281-310 | for any levels and flags the check answers true iff they are those of such a nest ending at the array |
| `CoveredFill.DeletionMatches` | runtime/llvm_bridge.cpp:340-402 | where no read is stale, after any number of steps both programs are at the same place in the same outside state, and the arrays agree unless the fill ran and the nest has not since |
| `CoveredFill.DeletionPreservesMeaning` | runtime/llvm_bridge.cpp:340-402 | what the pass tests, `store_covers` included, and the absence of a stale read give, for every input, initial content and step count: same control, same outside state, and the same array wherever a block may read it |
| `CoveredFill.DedicatedIsSafe` | runtime/llvm_bridge.cpp:366-384 | on a graph the pass accepts, an exit block without predecessors outside the nest leaves no stale read |
| `CoveredFill.SharedExitChecked` | runtime/llvm_bridge.cpp:362-396 | a program with a shared exit passes every test the pass makes, and has a stale read |
| `CoveredFill.SharedExitChangesMeaning` | runtime/llvm_bridge.cpp:362-396 | and deleting its fill changes what it reads |
| `CoveredFillExact.WitnessChecked` | runtime/llvm_bridge.cpp:340-402 | on every graph the pass accepts there is, for every path, a program with the given reading blocks that the pass accepts and that follows the path |
| `CoveredFillExact.StaleReadShows` | runtime/llvm_bridge.cpp:340-402 | when the path ends in a stale read that program reads zero, and something else once the fill is deleted |
| `CoveredFillExact.NoStaleReadIff` | runtime/llvm_bridge.cpp:340-402 | the exact condition: on a graph the pass accepts no read is stale iff the deletion is unobservable in every program on it |
| `ChannelRing.WrapStep` | runtime/program_support.c:2311-2352 | compare-and-subtract is the remainder for the indices the byte ring uses |
| `ChannelRing.PutAppends` | runtime/program_support.c:2250-2266 | a store at `(head + len) mod cap` appends to the queue |
| `ChannelRing.TakeRemoves` | runtime/program_support.c:2270-2287 | a load at `head` removes the oldest message |
| `ChannelRing.PointerRing.constructor` | runtime/program_support.c:2234-2245 | an empty ring of at least one slot |
| `ChannelRing.PointerRing.Send` | runtime/program_support.c:2250-2266 | appends one message |
| `ChannelRing.PointerRing.Recv` | runtime/program_support.c:2270-2287 | removes and answers the oldest |
| `ChannelRing.ByteRing.constructor` | runtime/program_support.c:2300-2307 | an empty ring with cells of at least one byte |
| `ChannelRing.ByteRing.SendCopy` | runtime/program_support.c:2311-2329 | appends the message's bytes; the other messages' bytes are not disturbed |
| `ChannelRing.ByteRing.RecvCopy` | runtime/program_support.c:2335-2352 | removes and answers the oldest message's bytes |
| `Channel.StepKeepsInv` | runtime/program_support.c:2250-2364 | every step keeps: woken receivers cover queued messages while a receiver sleeps, woken senders cover free slots while a sender sleeps, received followed by queued is accepted |
| `Channel.RunKeepsInv` | runtime/program_support.c:2250-2364 | so does every run, with spurious wake-ups and any scheduling |
| `Channel.RecvAnswers` | runtime/program_support.c:2270-2287 | a receive's turn with a message queued, open or closed, delivers the queue's first and ends; with none it ends empty-handed iff the channel is closed, and waits otherwise |
| `Channel.SendAnswers` | runtime/program_support.c:2250-2266 | a send's turn is refused iff the channel is closed, accepted at the queue's end iff open with a free slot, and waits otherwise |
| `Channel.CallsOnlyStart` | runtime/program_support.c:2250-2287 | starting a call, closing and waking up queue and deliver nothing; only a close closes; a started send carries its message |
| `Channel.OthersOnlyWoken` | runtime/program_support.c:2250-2364 | no step does more to another thread than wake it, and a woken sender keeps its message |
| `Channel.TurnIff` | runtime/program_support.c:2250-2287 | a call in progress can take its turn iff its thread is not asleep |
| `Channel.ClosedIff` | runtime/program_support.c:2356-2364 | after a run the channel is closed iff some step was the close |
| `Channel.NothingMeansAll` | runtime/program_support.c:2268-2287 | over every run, a receive that ends with nothing means that somebody closed the channel and every accepted message has been received, in order |
| `Channel.Conserved` | runtime/program_support.c:2250-2352 | over every run, received followed by queued equals accepted, in order, never above capacity |
| `Channel.NobodyStranded` | runtime/program_support.c:2250-2287 | a sleeping receiver with messages queued implies a woken receiver; dually for senders |
| `Channel.NeverAllAsleep` | runtime/program_support.c:2250-2287 | senders and receivers never all sleep together |
| `Channel.ClosedMeansAwake` | runtime/program_support.c:2356-2364 | after close nobody sleeps |
| `Channel.OnlyRealWaits` | runtime/program_support.c:2250-2364 | when no call can move, all wait to receive from an empty open channel or all wait to send to a full open one |
| `RcLists.Heap.Retain` | runtime/lang_runtime.c:1992-1994 | a count goes up exactly with a new place that holds the value, which is marked as held |
| `RcLists.Heap.ReleaseValue` | runtime/lang_runtime.c:2043-2055 | a count goes down exactly with a place lost; the value is freed, and the cold block of a split one with it, exactly when that was the last; the early return for a zero count is never taken |
| `RcLists.Heap.Push` | runtime/lang_runtime.c:3593-3605 | appends, and every count stays the number of places |
| `RcLists.Heap.Insert` | runtime/lang_runtime.c:3421-3451 | sequence insertion, or nothing on a bad index |
| `RcLists.Heap.Set` | runtime/lang_runtime.c:3699-3719 | replaces one slot; the stored value is never freed, not even when it replaces itself; no value is forgotten, so a displaced value whose last place it was is freed |
| `RcLists.Heap.Swap` | runtime/lang_runtime.c:3112-3155 | exchanges two slots, no count changes, or nothing on a bad index; its bytes are `ListBytes.Swap` |
| `RcLists.Heap.Discard` | runtime/lang_runtime.c:3350-3364 | one slot's value is released at once or parked |
| `RcLists.Heap.Truncate` | runtime/lang_runtime.c:3393-3399 | keeps the prefix; what goes is released or parked from the last slot down |
| `RcLists.Heap.RemoveAt` | runtime/lang_runtime.c:3403-3416 | removes one slot, or nothing on a bad index |
| `RcLists.Heap.ReleaseList` | runtime/lang_runtime.c:3622-3663 | slots and parked values all released, the list gone |
| `RcLists.Run` | runtime/lang_runtime.c:1992-2055 | across any number of lists and any operations, each having exactly its effect, in every state: a value's count is its occurrences in live slots and graves, and it is freed, once, its cold block with it, exactly when it had been held and the last one went; no value once held is forgotten, no free undone |
| `OwnedList.List.constructor` | runtime/lang_runtime.c:2563-2596 | slots are fused with the header iff they take up to 256 bytes, by the element's own width when inline and by 8 bytes when not |
| `OwnedList.List.Grow` | runtime/lang_runtime.c:3572-3591 | doubles from 4; an outgrown fused block stays with its header, another is given back once unless the allocator keeps its place, and the new one is on record behind all others |
| `OwnedList.List.Reserve` | runtime/lang_runtime.c:3377-3389 | a new block only when it grows, the old one of its own then given back once |
| `OwnedList.List.Push` | runtime/lang_runtime.c:3593-3605 | the element moves in at the end; the storage is replaced exactly when full |
| `OwnedList.PushesTakeFew` | runtime/lang_runtime.c:3572-3605 | a list grown by n pushes has taken at most about log2(4 + 2n) blocks, and its capacity is at most 4 + 2n |
| `OwnedList.List.Insert` | runtime/lang_runtime.c:3421-3451 | push then rotate is sequence insertion, with the storage of a push, or nothing on a bad index |
| `OwnedList.List.Set` | runtime/lang_runtime.c:3699-3719 | the displaced element is parked, unless it is the one being stored |
| `OwnedList.List.SetNow` | runtime/lang_runtime.c:3726-3738 | the displaced element is released at once, unless it is the one being stored |
| `OwnedList.List.Swap` | runtime/lang_runtime.c:3112-3155 | exchanges two slots, ownership unchanged, or nothing on a bad index; its bytes are `ListBytes.Swap` |
| `OwnedList.List.RemoveAt` | runtime/lang_runtime.c:3403-3416 | released at once or parked, and the gap closed |
| `OwnedList.List.Truncate` | runtime/lang_runtime.c:3393-3399 | keeps the prefix; each element that goes is released once or parked once |
| `OwnedList.List.Release` | runtime/lang_runtime.c:3622-3663 | at the end of the list's life every element ever moved in, every data block and the header has been given back exactly once |
| `OwnedList.List.ReleaseParked` | runtime/lang_runtime.c:3341-3347 | parked elements are released last in, first out |
| `Basics.ParkedBackwards` | runtime/lang_runtime.c:3341-3364 | what goes from the last slot down is what the slots held, in reverse |
| `OwnedList.Life` | runtime/lang_runtime.c:2558-2596 | over any list's whole life every element moved in, every data block and the header is released exactly once, however elements were stored, replaced, removed or parked and whether or not a fused block was outgrown; which elements, in which order, and how many blocks is told from the operations alone |
| `ListBytes.MoveLast` | runtime/lang_runtime.c:3429-3444 | for every stride the rotation of the last element is sequence insertion of it |
| `ListBytes.CloseGap` | runtime/lang_runtime.c:3403-3416 | for every stride the move down is sequence removal |
| `ListBytes.Swap` | runtime/lang_runtime.c:3112-3155 | for every stride, in one copy each way for 4, 8 and 16 bytes and in words and then bytes otherwise: the two elements change places and no other byte-range does, or nothing on a bad index |
| `BitCeil.CeilIsLeast` | runtime/lang_runtime.c:1201-1211 | the bit smearing yields the least power of two that is at least 16 and at least the request |
| `BitCeil.CeilIsCapacity` | runtime/lang_runtime.c:1201-1211 | and so the result of doubling 16 until it suffices |
| `StringAppend.Measure` | runtime/lang_runtime.c:1267-1278 | accepts iff no length is negative and the sum stays within 31 bits |
| `StringAppend.Grow` | runtime/lang_runtime.c:1219-1249 | the base's bytes at the new place and every suffix that pointed into them rebased, whatever becomes of the old block |
| `StringAppend.CopyParts` | runtime/lang_runtime.c:1280-1286 | each suffix lands behind the last; none is overwritten before it is read |
| `StringAppend.AppendMany` | runtime/lang_runtime.c:1256-1289 | the base followed by all suffixes, terminated, even when suffixes are the base or views into it and the block moves; how many bytes its copies write; the geometric capacity promise is kept; nothing else in memory changes |
| `StringAppend.CapacityKept` | runtime/lang_runtime.c:1225-1227 | the capacity recomputed from the longer length is still within the block |
| `StringAppend.RunText` | runtime/lang_runtime.c:1256-1289 | over any run of appends the String spells its base followed by everything appended, in order |
| `StringAppend.RunIsLinear` | runtime/lang_runtime.c:1191-1250 | all bytes any run of appends copies, for suffixes and for moves of the base, are at most five times the final length plus 36 |
| `StringAppend.AppendAll` | runtime/lang_runtime.c:1191-1289 | executing any sequence of appends is such a run, and the bytes its copies write are the ones counted |
| `Search.MoveMaskFirst` | runtime/lang_runtime.c:1038-1060 | the lowest bit of the byte mask is the first matching lane |
| `Search.NeonMaskFirst` | runtime/lang_runtime.c:1003-1037 | so is a quarter of the lowest bit of the narrowed nibble mask |
| `Search.EightsConstant` | runtime/lang_runtime.c:1018-1035 | the mask is the constant 0x8888888888888888 |
| `Search.PairScan` | runtime/lang_runtime.c:1000-1066 | on every target the answer is the simple scalar scan's, and every 16-byte load is inside the string |
| `Search.ScanUnique` | runtime/lang_runtime.c:1000-1066 | so all targets answer the same |
| `Search.ChoosePair` | runtime/lang_runtime.c:1112-1132 | two distinct positions: the rarest byte, and the rarest that spells something else, whatever the ranks |
| `Search.FindNeedle` | runtime/lang_runtime.c:1106-1146 | the first match at or after `from`; -1 only if there is none (for needles of 2 to 32 bytes); giving up at a position means no match before it, after at least 50 comparisons that skipped under 8 bytes on average; at most max(50, (last - from) / 9 + 1) comparisons |
| `Arena.NeedCovers` | runtime/lang_runtime.c:1571-1573 | sizes are rounded up to 16, for every size whose rounding does not leave the address space |
| `Arena.GuardExact` | runtime/lang_runtime.c:1571-1577 | the wrapping guard admits only what fits iff request plus used bytes stay 16 short of the address space |
| `Arena.GuardFooled` | runtime/lang_runtime.c:1571-1577 | a request it wrongly admits |
| `Arena.BelowExact` | runtime/lang_runtime.c:1552-1569 | a pop ends exactly the blocks of the innermost region |
| `Arena.State.NewChunk` | runtime/lang_runtime.c:1518-1537 | from the pool when a default chunk will do, else a new chunk of the request's size or the default, whichever is more, else nothing |
| `Arena.State.Push` | runtime/lang_runtime.c:1539-1550 | one more empty region, refused at 64 |
| `Arena.State.Pop` | runtime/lang_runtime.c:1552-1569 | the region's chunks go to the pool while it holds under 8 and they have the default size, else back to the system; blocks of outer regions stay |
| `Arena.PoolAfterIs` | runtime/lang_runtime.c:1552-1569 | a pop adds as many of the region's default-size chunks as there is room for up to 8, in front of what the pool had, and nothing else |
| `Arena.State.AllocSlot` | runtime/lang_runtime.c:1571-1587 | for every request the guard judges rightly: the newest chunk if it has the room, else a pooled one, else a new one, else nothing has changed; the whole state after it, with a new aligned block of the named region, large enough |
| `Arena.DrawnFrom` | runtime/lang_runtime.c:1571-1587 | no other region and no earlier block changes; a chunk leaves the pool only from its front and to serve, a new one is made only when no pooled one will do, and there is no block iff newest chunk, pool and system all fail |
| `Arena.State.ServedWhere` | runtime/lang_runtime.c:1571-1587 | with 15 bytes more than asked for left in the newest chunk no other is touched; with less left than asked for it does not serve; a block lies right behind what its chunk has handed out |
| `Arena.State.FitsIff` | runtime/lang_runtime.c:1571-1587 | the newest chunk serves iff a multiple of 16 that covers the request is left in it |
| `Arena.State.Alloc` | runtime/lang_runtime.c:1589-1598 | the same for the innermost region, or the heap when there is none |
| `Arena.State.AllocAt` | runtime/lang_runtime.c:1610-1614 | the same for the named region, even through inner ones, or the heap for a slot that is not active |
| `Arena.State.Cleanup` | runtime/lang_runtime.c:1629-1644 | everything the thread ever took from the system is given back |
| `Arena.State.BlocksDisjoint` | runtime/lang_runtime.c:1518-1614 | in every reachable state the blocks of all regions are disjoint |
| `Arena.State.ExactlyOnePlace` | runtime/lang_runtime.c:1518-1614 | a chunk is in one region at one place, or in the pool |
| `Arena.Run` | runtime/lang_runtime.c:1518-1614 | over any sequence of push, pop, allocate and allocate-at-slot, each having exactly its effect: blocks of active regions are disjoint and backed by chunks of their own region, the pool holds at most 8 chunks of the default size, and the chunks ever taken are those given back, those in regions and those in the pool |
| `LineReader.SplitThenJoin` | runtime/program_support.c:1550-1553 | the specification split loses nothing and yields proper lines |
| `LineReader.JoinThenSplit` | runtime/program_support.c:1550-1553 | and is the only split that does |
| `LineReader.UsedOnce` | runtime/program_support.c:1638-1657 | any mix of requests uses each byte once, in order |
| `LineReader.NewlineFound` | runtime/program_support.c:1553-1570 | a newline among the bytes read so far settles the first line, whatever is read later |
| `LineReader.Reader.Fill` | runtime/program_support.c:1521-1548 | unread bytes kept, more appended unless input has ended, whatever the read's size |
| `LineReader.Reader.LinePending` | runtime/program_support.c:1553-1578 | true iff anything is left; the line found is the stream's first line |
| `LineReader.Reader.Next` | runtime/program_support.c:1583-1595 | the first line of the stream, its terminator removed, and exactly its bytes consumed |
| `LineReader.Reader.Bytes` | runtime/program_support.c:1644-1657 | a prefix of the stream, no longer than asked for (empty for a negative count), and shorter only when it is all that is left; also when a line was pending |
| `LineReader.AnswerMeans` | runtime/program_support.c:1597-1657 | what each kind of request is answered with, told of the stream alone: a first line, the first bytes, everything |
| `LineReader.Reader.All` | runtime/program_support.c:1615-1626 | everything not yet handed out |
| `LineReader.Reader.ServeAll` | runtime/program_support.c:1597-1657 | every mix of requests is answered from the stream alone, however it was split into reads |
| `LineReader.Reader.Lines` | runtime/program_support.c:1605-1611 | reading line by line to the end gives the specification split |
| `Quoting.PosixRoundTrip` | runtime/program_support.c:741-768 | double-quote removal by section 2.2.3 of the POSIX.1-2017 Shell Command Language gives every argument back, expands nothing, and stops at the closing quote whatever follows |
| `Quoting.ReadBody` | runtime/program_support.c:1108-1124 | a reader inside quotes takes the escaped body for what it spells: 2n and 2n+1 backslashes before a quote, n before anything else |
| `Quoting.ReadBare` | runtime/program_support.c:1091-1106 | an argument that needs no quotes is read back as written |
| `Quoting.AsWrittenIff` | runtime/program_support.c:1090-1106 | an argument is spelled as written iff it is not empty and has no blank, line break, vertical tab or quote; any other is put between quotes |
| `Quoting.ReadWinQuoted` | runtime/program_support.c:741-758 | so is an argument of a Windows shell line |
| `Quoting.ArgumentsReadBackIff` | runtime/program_support.c:1090-1144 | CommandLineToArgvW gives back the arguments behind the program, whatever they are, iff the program name has no quote in it |
| `Quoting.QuoteLosesArguments` | runtime/program_support.c:1090-1144 | a quote in the program name loses every argument list, the empty one included |
| `Quoting.LostArgument` | runtime/program_support.c:1090-1144 | the program `"` with the argument `x` is read as a backslash and ` x` |
| `Quoting.ArgvReadBackIff` | runtime/program_support.c:1090-1144 | the whole vector comes back iff the program name has no quote and does not both need quotes and end in a backslash |
| `Quoting.PutQuoted` | runtime/program_support.c:1108-1124 | writes the quoted form within 2n + 2 characters |
| `Quoting.SpawnQuote` | runtime/program_support.c:1090-1124 | writes the bare or quoted form, touching nothing before it |
| `Quoting.BuildLine` | runtime/program_support.c:1126-1144 | the command line, terminated, every write inside the computed bound |
| `Quoting.QuoteForShell` | runtime/program_support.c:741-768 | the quoted argument of either host, terminated, inside 2n + 3 characters |
| `Stamp.OccursIff` | runtime/build_driver.c:4240-4246 | a lookup of newline, name, space, key, newline finds exactly whole lines |
| `Stamp.HoldsOnlyWritten` | runtime/build_driver.c:4229-4246 | a stamp cut off anywhere holds nothing that was not written; a whole one holds every entry that fits the line buffer |
| `Stamp.CutStampTruthful` | runtime/build_driver.c:4393-4533 | whatever prefix of the stamp reached the disk, each entry a later build would accept names files emitted from inputs with that key |
| `Stamp.WholeStampHolds` | runtime/build_driver.c:4393-4533 | a whole stamp lets the next build reuse every artifact it names |
| `Stamp.KeptStampIff` | runtime/build_driver.c:4396-4402 | under a stamp that could not be removed, the write of any file, a module's or one of the runtime's, stays truthful iff it accords with every entry for its artifact |
| `Stamp.KeptStampLies` | runtime/build_driver.c:4396-4402 | a rebuild of a module with another key under such a stamp is at odds with it, and untruthful while the file is written and afterwards |
| `Stamp.BitcodeWrite` | runtime/build_driver.c:4412-4438 | the runtime's bitcode may be rewritten under an entry for it only while the hash file or other bitcode is missing |
| `Stamp.HashWrite` | runtime/build_driver.c:4412-4438 | and the hash file then only completes a runtime from the key of every entry |
| `Stamp.IsCalm` | runtime/build_driver.c:4396-4438 | whether a build accords with the stamp on disk can be decided before it starts |
| `Stamp.Buffer.Append` | runtime/build_driver.c:4208-4226 | appends one line, or refuses one of 384 characters or more, leaving the text as it was |
| `Stamp.StampHolds` | runtime/build_driver.c:4240-4246 | the search finds the line iff it occurs and fits |
| `Stamp.RuntimePresent` | runtime/build_driver.c:4339-4350 | every bitcode file, plain and verifying, and the hash file |
| `Stamp.Driver.WriteStamp` | runtime/build_driver.c:4528-4533 | every state the write passes through is truthful, whatever happened before; where no write fails the whole text is on the disk |
| `Stamp.Driver.ProvideRuntime` | runtime/build_driver.c:4412-4438 | with an entry for its key and its files there it is reused: success, and neither disk nor trace changes; else it is rebuilt; afterwards the files are there and, when keyed, from inputs with that key; it passes through an untruthful state only, and if it completes exactly, when it is at odds with a stamp that stayed |
| `Stamp.Driver.ProvideModule` | runtime/build_driver.c:4493-4525 | the same for one module: reused, with nothing changed, iff keyed with an entry for that key and its file there; else emitted from its source; no other file changes |
| `Stamp.Driver.EmitToolchain` | runtime/build_driver.c:4368-4546 | an artifact the recorded stamp lets it reuse keeps its files' content in every state; every disk state of a build is truthful when the old stamp is removed or the build accords with it; a completed build under a stamp that stayed passes through an untruthful state iff it does not; a completed one provides every module, drops those without a source, and claims exactly its own artifacts, truthfully; an undisturbed one completes and leaves the whole stamp of what it claims |
| `Stamp.Driver.BuildTwice` | runtime/build_driver.c:4368-4546 | a second undisturbed build from the same inputs reuses every keyed artifact: no state of it touches one of their files |
| `Stamp.Driver.History` | runtime/build_driver.c:4393-4533 | so is every state of any history of builds, each interrupted anywhere, with stamps that stayed as long as the builds accord with them: up to the first build at odds with a stamp it could not remove |

## Left out

- The collector's lock: its operations are atomic steps here, as `cyc_enter` and `cyc_leave` make them; the counters of objects and collections are not modelled.
- The memory of a freed collector object is not handed out again in the model; in the source its header may be reused after the pass that freed it. Within a pass the model looks at freed headers as the code does.
- The generated `children` and `release` functions: `children` reports the object's cyclic fields in order; `release` frees the storage, and the non-cyclic fields it also reclaims are not part of this model.
- Slab.Allocator.Realloc: a refused allocation is not modelled; the words copied into a block that libc serves are answered as a value, because libc's memory is outside the model.
- Slab steps fold the private work of one thread around a locked region into that region's step; the lock-free fast paths touch only the thread's own cache.
- Slab reservation (`mmap`), the first-use initialisation and blocks above 512 bytes, which libc serves.
- CoveredFillExact.NoStaleReadIff: the nest itself does not read the array; the pass does not test that, and where a shared exit dominates the nest it accepts one that does.
- The loop nest is one block of the control-flow graph in `CoveredFill`; scalar evolution, alias queries and the worklist over uses of the array appear as the facts they establish.
- List modes CYCLE and CYCLE_ATOMIC in `list_set`, `list_set_exclusive`, and pushing an inline element by its own address inside the list.
- Lists placed in a region: their blocks come from the arena model instead of the heap.
- Boxed String elements' packed words (`list_push_str`, `list_set_str`) beyond their ownership; atomic reference counts (`rc_retain_atomic`), which follow the same rules.
- Allocation failure in the list, string and line-reader code, where the source stops the program or treats it as the end of input.
- StringAppend.AppendMany: a null base or a negative base length, which the source rejects before anything else, cannot be written in the model.
- Search.FindNeedle: null strings; the native Two-Way search the caller continues with.
- Channel.Conserved: the failed allocation of the byte ring on first use, and the order in which the mutex is granted, which is arbitrary here.
- LineReader.Reader.Fill: a failed read or allocation is the end of the input; an interrupted read is retried and so has no effect.
- Quoting.ArgvReadBackIff: the reader is the documented rule of CommandLineToArgvW with blanks being space and tab; lengths beyond 31 bits are not modelled.
- Stamp.Driver.EmitToolchain: the content of `runtime.hash` is not claimed, because its write is not checked after the file is open; keys are opaque, inputs do not change during a build, and module names fit the 288-character entry buffer, as file names do. Whether a write or an emission fails is an input; an undisturbed build is one where none does.
- Profile counters, string hashing, decimal and float formatting, DataView copies, tasks, process spawning, file system, Windows recycler, freestanding shims and `--verify` reporting: easy or dominated by the operating system.
- The compiler front end, code generation and the other LLVM passes.
