# Verified models of the copy-on-write state, the image flattener and the polling stream

Three parts of the repository are modelled, each in the form its source has, and each is proved correct
over all inputs or all runs.

**Copy-on-write state** (`experimental/cow_state`). A slot manager keeps a free list of ranges, a current
table from logical pages to physical slots, one frozen table for each completed round, and a table of
slots waiting to be collected. Bit 63 of a table word says that the slot is private to the current round.
A memory manager maps a version of the state into memory, writes dirty pages back (in place if the slot
is private, to a new slot if it is shared), ends rounds, removes old ones and drops the current state.

- `SlotWords`, `SortedTables`, `FreeLists`, `RangeMaps`: words and tags, ordered tables, the allocator,
  run-length compressed mappings.
- `SlotTables`: the tables as one value, what each operation does to them, and the invariant `Safe`.
- `StatePages`, `CowStore`: the state file and the commit, at each of its intermediate points.
- `CowRuns`: runs of operations, the naive store, which copies everything, that they refine, and that
  no weaker conditions on a run keep the invariant.
- `Counting`, `CowConservation`, `CowCapacity`, `CowGrowth`: how many slots each step loses, how many
  rounds fit, and whether the file grows fast enough.
- `CowStale`, `CowStaleTables`: what a commit through a mapping that is not fresh does to snapshots, to
  the current state and to the tables.
- `CowHarm`, `CowHarmExact`: which steps lead to wrong reads, when all later steps are legal.
- `CowCheckpoints`: what a checkpoint is for, over runs that reopen the store.
- `CowHazards`: three runs of the code as it stands that lose a page or a snapshot.
- `SlotManager`, `MappedBytes`, `MemoryManager`: the objects with their fields updated in place, each
  method proved to do what the value-level operation does; and the byte-level round trips.

**Image flattener** (`toolchains/sysimage/docker_tar.py`). Layers of archive members, with whiteouts, are
applied to a tree of mutable inodes, which is then archived in a fixed order.

- `PathNames`, `LayerMap`: paths, the file system as a flat map from paths to entries, and which member of
  the layers decides each path.
- `LayerTree`: the tree of inode objects, proved to be the flat map at every step.
- `TarOrder`, `TarArchive`, `TarWriter`: the order of an archive, that it is the only listing, and that
  reading an archive back rebuilds the file system.

**Polling stream** (`experimental/qos`). A writer and a reader poll a socket that may be not ready, ready
for part of the bytes, or ready for all of them, and keep the rest for the next call.

- `PollStream`: both as state machines over poll outcomes; `PollReadWrite`: the objects.
- `Payloads`, `PayloadStream`: generator and checker, and the whole system over every schedule: what is
  returned, and that everything accepted is returned in the end.

`Basics` holds what all parts use. A step that panics or raises is an absent result (`None`, `false` or
`null`). Every table is a map; a transaction is one step; poll outcomes are parameters.

## What the source needs or gets wrong

Four operations keep the store safe only under a condition; a step that meets its condition is called
legal. A run that does not panic keeps the invariant `Safe`, and reads like the naive store after each of
its steps, if and only if every step is legal (`CowRuns.FaithfulExactly`). Beyond the invariant, a step
does harm if legal steps alone can then lead to a read that the naive store would not give.

- No legal step does harm (`CowHarm.LegalHarmless`).
- A removal does harm exactly when it is not legal (`CowHarm.RemoveHarmsExactly`); one commit shows it.
- So does a clear, where no slot waiting to be collected is freed in its tagged form
  (`CowHarm.ClearHarmsExactly`).
- Ending a round again that had more pages does harm at once. Ending a round, or reopening, too early does
  harm if a slot is free and nothing stale bars the removal that shows it (`CowHarm.IllegalHarms`). Where no collection entry is stale, `CowHarmExact.HarmsExactly` says
  exactly which steps do harm. Not all illegal ones do: in a full store nothing may ever be written again
  (`CowHarmExact.UnseenReopening`).

The conditions, one by one:

- `remove_rounds_below` frees the slots that expire but leaves them in the collection table, although its
  comment says that the table is to be emptied. The model follows the code (`RemoveBelow`). Removal is
  safe exactly when no expiring slot is in use again (`SlotTables.RemoveBelowExact`). Emptying the table
  (`PurgeBelow`) makes that condition hold of itself over whole runs
  (`CowConservation.DocumentedRunLegal`). `CowHazards.SecondRemovalCorrupts` is a run in which only a
  second removal breaks it, and then a commit of one page overwrites another.
- `clear_current` is safe exactly when no entry of the collection table is for a slot that a later round
  uses (`SlotTables.ClearCurrentExact`). Entries left by removals can be: as long as the current table
  holds the slot, the condition on removals protects it, and a clear takes that away.
  `CowHazards.ClearCorruptsSnapshot` is a run in which only the clear breaks a condition, every removal
  meets its own, and a retained snapshot is overwritten.
- `recover` restarts from the checkpointed round. That is safe exactly when no later round shares a slot
  with the current table (`SlotTables.ReopenExact`). `CowHazards.ReopenCorruptsSnapshot` is a run in which
  only reopening breaks a condition and a retained snapshot is overwritten.
- `end_round` is safe exactly when no later round shares a slot with the current table
  (`SlotTables.EndRoundExact`). Ending a round again shows the current state exactly when the round had
  no page that the current table lacks (`CowRuns.SnapshotShows`).

Slots are lost:

- `clear_current` drops shared mappings and says that they will be collected. No collection entry is made
  for them. Each is a slot lost (`CowConservation.ClearLoses`), and no later step of any kind gets it back
  (`CowConservation.DroppedForever`).
- A commit loses one slot for each time it lists a shared page again (`CowConservation.CommitLoses`), and
  a page committed twice through one map loses the slot of its first commit
  (`CowStale.SecondCommitLoses`).

Further:

- A mapping is captured when a map is made and not refreshed. A commit through a mapping of any age
  leaves all snapshots alone, whatever it writes, exactly when the mapping calls no slot private that a
  round uses (`CowStale.StaleCommitExact`), and shows exactly what it wrote exactly when each such slot
  is also still the page's own (`CowStale.StaleShowsExact`). One snapshot after the map was made is
  enough to break that (`CowStale.SnapshotMakesStale`). The tables stay safe besides exactly when each
  slot recorded as replaced is not free, unless this commit takes it and gives it up, is kept by no page
  and is used by no round after the last (`CowStaleTables.StaleSafeExact`). A commit can show the right contents and still record the slot of
  another page, which the next removal then frees (`CowStaleTables.WrongRecordHarms`).
- `checkpoint`, and every memory manager that is opened, starts the count of bytes written again, by
  which the file grows, but not what is stored. A commit of the whole heap, any of these, a snapshot and
  another commit use slots beyond the end of the file (`CowGrowth.ResetOutgrows`).
- `copy_to_heap` of no bytes at an unaligned offset returns a page that it does not touch
  (`MappedBytes.TouchedExactly`).
- A failed poll drops what was pending. The bytes carried are those accepted exactly when no poll failed
  (`PollStream.WriterConserves`).

## Model

| member | source | states |
|---|---|---|
| SlotWords.IsShared | experimental/cow_state/src/slot_mgr.rs:200-202 | the bit test is a comparison: shared means the invalid word or a word without the tag |
| SlotWords.SlotOf | experimental/cow_state/src/slot_mgr.rs:206-209 | the slot of a 64-bit word is the word without its tag |
| SlotWords.MarkPrivate | experimental/cow_state/src/slot_mgr.rs:732-742 | tagging keeps the slot, and for a slot below the bound gives a private word that is not the invalid one |
| SlotWords.Share | experimental/cow_state/src/slot_mgr.rs:460-473 | sharing keeps the slot and gives a shared word |
| FreeLists.Alloc | experimental/cow_state/src/slot_mgr.rs:648-691 | an allocation that succeeds returns as many words as were asked for |
| FreeLists.AllocTakesSmallest | experimental/cow_state/src/slot_mgr.rs:648-691 | from disjoint ranges it succeeds exactly when enough words are free, takes the smallest ones in ascending order, removes those and no others, and keeps the ranges disjoint |
| FreeLists.FragmentationIrrelevant | experimental/cow_state/src/slot_mgr.rs:648-691 | two free lists with the same words serve every request alike, however the words are cut into ranges |
| FreeLists.TakesSmallestUnique | experimental/cow_state/src/slot_mgr.rs:648-691 | taking the smallest words is a specification with one answer |
| FreeLists.PutBackAdds | experimental/cow_state/src/slot_mgr.rs:693-708 | returning words that are not free adds exactly those and keeps the ranges disjoint |
| FreeLists.PutBackAgain | experimental/cow_state/src/slot_mgr.rs:553-572 | freeing words that may be free already is harmless as long as none lies in a longer range |
| FreeLists.AllocThenPutBack | experimental/cow_state/src/slot_mgr.rs:648-708 | returning what was allocated restores the set of free words |
| RangeMaps.GetMappings | experimental/cow_state/src/slot_mgr.rs:578-615 | the ranges are sorted, disjoint and maximal, and expand to exactly the table |
| RangeMaps.CanonicalUnique | experimental/cow_state/src/slot_mgr.rs:578-615 | only one sequence of ranges is sorted, disjoint, maximal and expands to the table |
| RangeMaps.RangesDoNotMix | experimental/cow_state/src/slot_mgr.rs:578-615 | one range never holds both private and shared slots, and its slots are consecutive |
| RangeMaps.GetSlotInfo | experimental/cow_state/src/slot_mgr.rs:161-183 | the binary search gives for every page the tag and slot found in the table, and shared and invalid for a page that is not mapped |
| RangeMaps.GetLastSlot | experimental/cow_state/src/slot_mgr.rs:185-187 | the end of the last mapped page, if any page is mapped |
| SlotTables.FreshSafe | experimental/cow_state/src/slot_mgr.rs:356-367 | a new store satisfies the invariant and has every slot free |
| SlotTables.PublishSafe | experimental/cow_state/src/slot_mgr.rs:710-773 | publishing distinct words just taken off the free list keeps the invariant: no slot both free and used, one page to a slot, private slots in no round |
| SlotTables.EndRoundSafe | experimental/cow_state/src/slot_mgr.rs:449-496 | ending a round than which no later one shares a slot with the current table keeps the invariant |
| SlotTables.EndRoundExact | experimental/cow_state/src/slot_mgr.rs:449-496 | ending a round keeps the invariant if and only if no later round shares a slot with the current table |
| SlotTables.RemoveBelowExact | experimental/cow_state/src/slot_mgr.rs:525-576 | removal as written keeps the invariant if and only if no expiring slot is in use by the current table or free under its tag |
| SlotTables.PurgeBelowSafe | experimental/cow_state/src/slot_mgr.rs:515-576 | where no collection entry is stale, removal as documented keeps the invariant and leaves none stale: what is freed is used by neither the current table nor a kept round |
| SlotTables.PurgeBelowExact | experimental/cow_state/src/slot_mgr.rs:515-576 | removal as documented keeps the invariant under exactly the condition of removal as written |
| SlotTables.ClearCurrentSafe | experimental/cow_state/src/slot_mgr.rs:418-447 | if no collection entry is for a slot that a later round uses, dropping the current table keeps the invariant, although it enters tagged words in the free list |
| SlotTables.ClearCurrentExact | experimental/cow_state/src/slot_mgr.rs:418-447 | dropping the current table keeps the invariant if and only if no collection entry is for a slot that a later round uses |
| SlotTables.ReopenExact | experimental/cow_state/src/slot_mgr.rs:407-408 | reopening keeps the invariant if and only if no round after the checkpointed one shares a slot with the current table |
| CowStore.CommitKeepsRounds | experimental/cow_state/src/lib.rs:271-379 | after any number of pages of a commit are written, every completed round reads back as before |
| CowStore.CommitCurrent | experimental/cow_state/src/lib.rs:277-283 | after any number of pages are written, a slot of the current table has changed only if its page was written and is private |
| CowStore.CommitPointSafe | experimental/cow_state/src/lib.rs:271-379 | after the allocation, and after unused slots are returned, the invariant holds, and the words gone from the free list are exactly those used |
| CowStore.CommitCorrect | experimental/cow_state/src/lib.rs:243-380 | a commit through a fresh mapping fails exactly when fewer slots are free than pages given; otherwise it changes exactly the committed pages of the current state, changes no round, and keeps the invariant |
| CowRuns.StepExact | experimental/cow_state/src/lib.rs:1026-1097 | a step that does not panic keeps the invariant and does to what can be read what the naive store does if and only if it is legal |
| CowRuns.SnapshotShows | experimental/cow_state/src/slot_mgr.rs:449-496 | a snapshot shows exactly the current state if and only if an older table of the same number has no page that the current table lacks |
| CowRuns.RunRefines | experimental/cow_state/src/lib.rs:1026-1097 | over every run of commits, snapshots, removals, clears, checkpoints and reopenings whose steps meet their conditions, the current state and every retained round read exactly as in a store that copies everything |
| CowRuns.FaithfulExactly | experimental/cow_state/src/lib.rs:1026-1097 | a run that does not panic is safe and reads like the naive store after each step if and only if every step meets its condition |
| CowCheckpoints.RunMarks | experimental/cow_state/src/slot_mgr.rs:407-513 | over every legal run the last executed and the checkpointed round are those read off the steps: a snapshot sets the first, a checkpoint copies it to the second, reopening copies it back |
| CowCheckpoints.CheckpointThenReopen | experimental/cow_state/src/slot_mgr.rs:498-513 | reopening right after a checkpoint is legal on every safe store, keeps the last round and all tables, and reads as before |
| CowCheckpoints.ReopenRestores | experimental/cow_state/src/slot_mgr.rs:407-513 | in every legal run with no round ended after its checkpoint, reopening is legal, changes no table and nothing that is read, and the last round is that of the last snapshot before the checkpoint |
| CowHarm.LegalHarmless | experimental/cow_state/src/lib.rs:1026-1097 | after a legal step on any safe store no legal steps lead to a read that the naive store would not give |
| CowHarm.RemoveHarms | experimental/cow_state/src/slot_mgr.rs:525-576 | a removal that frees a slot in use or already free is seen after one possible commit |
| CowHarm.RemoveHarmsExactly | experimental/cow_state/src/slot_mgr.rs:525-576 | on every safe store, legal steps after a removal lead to a wrong read if and only if it frees a slot in use or already free |
| CowHarm.ClearHarms | experimental/cow_state/src/slot_mgr.rs:418-447 | a clear over a collection entry for a slot of a later round is seen after the legal removal up to that entry and a commit, if no slot that expires with it is freed in its tagged form |
| CowHarm.ClearHarmsExactly | experimental/cow_state/src/slot_mgr.rs:418-447 | where no slot waiting to be collected is freed in its tagged form, legal steps after a clear lead to a wrong read if and only if some entry is for a slot that a later round uses |
| CowHarm.LateHarms | experimental/cow_state/src/slot_mgr.rs:449-576 | a round after the last executed one that shares a slot with the current table is read wrongly after a commit of the page, the removal of the rounds up to the last, and a commit, all legal, if a slot is free and nothing else that expires is in use or free |
| CowHarm.IllegalHarms | experimental/cow_state/src/lib.rs:1026-1097 | a step that breaks its condition, on any safe store, is followed by legal steps that lead to a wrong read: always for a removal, and otherwise if a slot is free where one is needed and no stale entry bars the removal that shows it |
| CowHarmExact.QuietRun | experimental/cow_state/src/lib.rs:1026-1097 | with no free slot, and none to come before the late rounds are removed, every legal run reads like the naive store, although the invariant is broken |
| CowHarmExact.HarmsExactly | experimental/cow_state/src/lib.rs:1026-1097 | on every safe store with no stale collection entry, legal steps after a step lead to a wrong read if and only if it ends again a round that had more pages, or makes a round the last one before a round that shares a slot with the current table while a slot is free, or becomes free by a removal that keeps that round |
| CowHarmExact.UnseenReopening | experimental/cow_state/src/slot_mgr.rs:407-408 | in a store of one slot, reopening before a round that shares it is not legal and yet never leads to a wrong read by legal steps |
| CowConservation.DocumentedRunLegal | experimental/cow_state/src/slot_mgr.rs:515-576 | in runs that keep the callers' order, with removal as documented, collection never needs a condition and never frees a slot in use |
| CowConservation.RepeatsCounted | experimental/cow_state/src/lib.rs:271-379 | writing pages takes one word for each page to publish and one more for each time a shared page is listed again |
| CowConservation.CommitLoses | experimental/cow_state/src/lib.rs:271-379 | a commit loses exactly as many slots as it lists shared pages again, and gets none back |
| CowConservation.CommitConservesExactly | experimental/cow_state/src/lib.rs:271-379 | a commit conserves slots if and only if it lists no shared page twice |
| CowConservation.DistinctLosesNothing | experimental/cow_state/src/lib.rs:271-379 | a commit that lists no shared page twice loses no slot and gets none back, on every safe store |
| CowConservation.ClearConservesExactly | experimental/cow_state/src/slot_mgr.rs:418-447 | dropping the current table conserves slots if and only if no mapping in it is shared |
| CowConservation.ClearLoses | experimental/cow_state/src/slot_mgr.rs:418-447 | a clear loses exactly one slot for each shared mapping |
| CowConservation.LostForever | experimental/cow_state/src/slot_mgr.rs:525-576 | over every run whose steps meet their conditions, with removal as written or as documented, a lost slot stays lost |
| CowConservation.DroppedForever | experimental/cow_state/src/slot_mgr.rs:418-447 | a shared slot dropped by a clear, and not in the collection table, is after every later run neither free nor mapped nor waiting to be collected |
| CowConservation.RunLeaks | experimental/cow_state/src/slot_mgr.rs:648-743 | over every run with removal as documented the number of lost slots grows by exactly what its commits and clears lose |
| CowConservation.SlotsAccounted | experimental/cow_state/src/slot_mgr.rs:356-367 | free words, mapped pages, collection entries and lost slots add up to the size of the store |
| CowConservation.StepConservesExactly | experimental/cow_state/src/slot_mgr.rs:648-743 | every other step conserves slots; each of the two that may not does so exactly under its condition |
| CowConservation.RunConserves | experimental/cow_state/src/slot_mgr.rs:648-743 | over every run of conserving steps each slot is exactly one of free, mapped, or waiting to be collected |
| CowConservation.FreshConserved | experimental/cow_state/src/slot_mgr.rs:356-367 | a new store is conserved and has nothing waiting |
| CowCapacity.RunRetains | experimental/cow_state/src/slot_mgr.rs:541-563 | over runs with removal as documented in which rounds end in increasing order, removals never go past the last executed round and the store is reopened only with every round checkpointed, shared mappings are those of the last round and every collection entry is for a slot its round still uses; clears and repeated pages are allowed |
| CowCapacity.CapacityBound | experimental/cow_state/src/lib.rs:867-871 | with K retained rounds over P pages, all slots but K*P, one for each private page and the lost ones are free |
| CowCapacity.CommitFitsCapacity | experimental/cow_state/src/slot_mgr.rs:648-691 | after any such run a commit of n pages cannot fail if K*P, the private pages, n and the slots the run lost fit in the store |
| CowCapacity.LeaksBounded | experimental/cow_state/src/slot_mgr.rs:418-447 | if commits list distinct pages, a run loses at most P slots for each clear in it |
| CowCapacity.NeverExhausted | experimental/cow_state/src/lib.rs:867-871 | with the sizes of the store, after any such run no commit of distinct state pages fails while K+2 times the state pages and the slots the run lost fit; so with at least three rounds fewer than the maximum and at most HEAP_LEN - MAX_ROUNDS + 1 slots lost |
| CowCapacity.UpgradesFit | experimental/cow_state/src/lib.rs:1093-1097 | if commits list distinct pages, each clear costs no more than one more retained round |
| CowGrowth.CommitInFile | experimental/cow_state/src/lib.rs:243-255 | after a commit of at most GROW_SIZE bytes grew the file, every slot it may write and every mapped slot lies wholly in the file, past the metadata page, if the slots missed by the count of bytes written fit in its initial value less one page |
| CowGrowth.RunInFile | experimental/cow_state/src/lib.rs:370-376 | over every legal run whose commits are at most GROW_SIZE bytes, checkpoints, reopenings, further managers and repeated pages included, every mapped slot and every slot of a round lies in the file as long as the slots missed fit in the initial count less one page |
| CowGrowth.NothingMissed | experimental/cow_state/src/lib.rs:370-376 | without checkpoint, reopening, further manager and repeated shared pages no slot is missed |
| CowGrowth.ResetOutgrows | experimental/cow_state/src/lib.rs:813-828 | for a checkpoint, a reopening and a further manager alike: a legal run with one of them after which a slot in use lies outside the file |
| CowGrowth.SecondCommit | experimental/cow_state/src/lib.rs:243-255 | in general, committing again all pages of a round outgrows any file that does not grow for it and holds fewer than two slots for each page |
| CowGrowth.CommitSizeBounded | experimental/cow_state/src/lib.rs:74-75 | a commit of distinct state pages never exceeds the growth increment |
| CowGrowth.FreshHeadroom | experimental/cow_state/src/lib.rs:243-255 | a new store is where the growth argument starts, with nothing missed |
| CowStale.StaleCommitExact | experimental/cow_state/src/lib.rs:271-379 | a commit through any mapping leaves every round alone, for all contents, if and only if the mapping calls no slot private that a round uses |
| CowStale.StaleShowsExact | experimental/cow_state/src/lib.rs:271-379 | a commit through any mapping changes exactly the committed pages of the current state and no round, for all contents, if and only if each slot the mapping calls private is still that page's own and used by no round |
| CowStaleTables.StaleSafeExact | experimental/cow_state/src/lib.rs:271-379 | a commit through any mapping shows exactly what it wrote, for all contents, and keeps the invariant with no stale collection entry, if and only if it writes in place only to slots that are the page's own and no round's, and records as replaced only slots that are not free, or that it takes and gives up itself, kept by no page and used by no round after the last |
| CowStaleTables.StaleConservesExact | experimental/cow_state/src/lib.rs:271-379 | a commit through any mapping that writes in place only to its pages' own slots loses no slot if and only if it records every slot that one of its pages moves away from, or that it takes for a page listed again and gives up |
| CowStaleTables.GivenUpExactly | experimental/cow_state/src/lib.rs:271-379 | the slots a commit takes and maps to no page are exactly those of the words, in the order of the shared pages listed, whose page is listed again later |
| CowStaleTables.WrongRecordHarms | experimental/cow_state/src/lib.rs:357-359 | recording the slot of a page that keeps it makes the next removal free a slot in use, even where the commit showed the right contents |
| CowStale.AgreeingCommit | experimental/cow_state/src/lib.rs:271-379 | a mapping of any age that agrees with the current table on the committed pages is as good as a fresh one |
| CowStale.SecondCommitLoses | experimental/cow_state/src/lib.rs:959 | a page committed twice through one map, shared at first, loses the slot of its first commit |
| CowStale.FreshNeverTrespasses | experimental/cow_state/src/lib.rs:959 | a mapping just made from the current table calls no such slot private |
| CowStale.SnapshotMakesStale | experimental/cow_state/src/lib.rs:959 | a snapshot after the mapping was made turns each of its private pages into one whose commit would overwrite the snapshot |
| CowHazards.ReuseReached | experimental/cow_state/src/slot_mgr.rs:553-572 | a legal run after which an expired slot is in use again and removal is no longer safe |
| CowHazards.SecondRemovalCorrupts | experimental/cow_state/src/slot_mgr.rs:553-572 | a run from a new store, a second removal its only illegal step, at the end of which a commit of one page has replaced the contents of another |
| CowHazards.ClearCorruptsSnapshot | experimental/cow_state/src/slot_mgr.rs:418-447 | a run from a new store, a clear its only illegal step, at the end of which a retained snapshot is overwritten |
| CowHazards.ReopenCorruptsSnapshot | experimental/cow_state/src/slot_mgr.rs:407-408 | a run from a new store, reopening its only illegal step, at the end of which a retained snapshot is overwritten |
| SlotManager.SlotMgr.constructor | experimental/cow_state/src/slot_mgr.rs:356-367 | a new manager is the fresh store |
| SlotManager.SlotMgr.AllocFreeSlots | experimental/cow_state/src/slot_mgr.rs:648-691 | the cursor loop over the free list is the allocation specified; when it fails nothing has changed |
| SlotManager.SlotMgr.FreeUnusedSlots | experimental/cow_state/src/slot_mgr.rs:693-708 | the loop returns exactly the given words |
| SlotManager.SlotMgr.UpdateMappings | experimental/cow_state/src/slot_mgr.rs:710-743 | the page maps to the tagged word, and a valid overwritten slot is recorded with the last executed round |
| SlotManager.SlotMgr.PutAllMappings | experimental/cow_state/src/slot_mgr.rs:762-773 | entering the mappings one by one, in any order, publishes them all |
| SlotManager.PutMappingsStep | experimental/cow_state/src/slot_mgr.rs:710-743 | publishing a set of mappings is publishing all but one and then that one |
| SlotManager.FreezeInto | experimental/cow_state/src/slot_mgr.rs:449-481 | the loop turns every mapping shared and adds the untagged slots to the round's table |
| SlotManager.ExpiringSlots | experimental/cow_state/src/slot_mgr.rs:553-563 | the scan finds exactly the slots dropped before the bound |
| SlotManager.SlotMgr.EndOfRound | experimental/cow_state/src/slot_mgr.rs:449-496 | the current table is frozen as the round's table and all its mappings become shared |
| SlotManager.SlotMgr.TakeCheckpoint | experimental/cow_state/src/slot_mgr.rs:498-513 | the last executed round becomes the checkpointed one, and nothing else changes |
| SlotManager.SlotMgr.Recover | experimental/cow_state/src/slot_mgr.rs:369-416 | the checkpointed round becomes the last executed one |
| SlotManager.SlotMgr.RemoveRoundsBelow | experimental/cow_state/src/slot_mgr.rs:525-576 | rounds below the bound are gone and what expired is on the free list and still in the collection table |
| SlotManager.SlotMgr.Clear | experimental/cow_state/src/slot_mgr.rs:418-447 | the current table is empty and its private words, tagged, are on the free list |
| SlotManager.SlotMgr.GetCurrentRoundMappings | experimental/cow_state/src/slot_mgr.rs:617-622 | the canonical ranges of the current table |
| SlotManager.SlotMgr.GetMappingsForRound | experimental/cow_state/src/slot_mgr.rs:624-630 | the canonical ranges of a completed round's table |
| SlotManager.SlotMgr.GetCompletedRounds | experimental/cow_state/src/slot_mgr.rs:632-641 | exactly the completed rounds, ascending |
| MappedBytes.TouchedExactly | experimental/cow_state/src/lib.rs:455-477 | the pages returned are exactly those the byte range touches if and only if the range is not empty or starts on a page boundary |
| MappedBytes.TouchedOnce | experimental/cow_state/src/lib.rs:455-477 | the pages returned are in ascending order, each once, and as many as pages the bytes lie on |
| MappedBytes.HeapWriteConserves | experimental/cow_state/src/lib.rs:455-477 | committing the pages returned through a fresh mapping loses no slot |
| MappedBytes.CommitMaps | experimental/cow_state/src/lib.rs:243-380 | if the memory differs from the stored state only on committed pages, mapping again after the commit gives the same memory |
| MappedBytes.HeapWriteRoundTrip | experimental/cow_state/src/lib.rs:447-477 | copying bytes to any offset of the heap, committing the pages returned and mapping again changes exactly those bytes, globals included, and no round |
| MappedBytes.GlobalsRoundTrip | experimental/cow_state/src/lib.rs:434-445 | updating the globals and mapping again changes exactly the given bytes of the globals page, and no round |
| MemoryManager.Overlay | experimental/cow_state/src/lib.rs:880-962 | overlaying the ranges one by one gives the contents of the table over the file, zero where nothing is mapped |
| MemoryManager.OffsetIgnoresTag | experimental/cow_state/src/lib.rs:930-945 | in wrapping 64-bit arithmetic the file offset of a tagged word is that of its slot |
| MemoryManager.MappedState.CommitPages | experimental/cow_state/src/lib.rs:243-380 | the loop over pages, slots, file and mappings is the commit specified; when slots run out only the file has grown |
| MemoryManager.MappedState.WriteOut | experimental/cow_state/src/lib.rs:273-359 | each page goes in place or to the next allocated slot, and the mappings to publish are recorded |
| MemoryManager.MappedState.CommitHeap | experimental/cow_state/src/lib.rs:447-453 | a heap commit is a commit of the pages shifted by the heap's offset |
| MemoryManager.MappedState.CopyToHeap | experimental/cow_state/src/lib.rs:455-477 | exactly the given bytes of the mapped memory change, and the pages returned are those touched, in ascending order, each once, and lie in the heap |
| MemoryManager.MappedState.CopyFromHeap | experimental/cow_state/src/lib.rs:382-388 | the bytes at that place in the heap |
| MemoryManager.MappedState.UpdateGlobals | experimental/cow_state/src/lib.rs:434-445 | globals that are too long change nothing; others are copied and committed |
| MemoryManager.CowMemoryManager.GetMap | experimental/cow_state/src/lib.rs:1026-1039 | a fresh map of the current table's contents |
| MemoryManager.CowMemoryManager.GetMapForSnapshot | experimental/cow_state/src/lib.rs:880-980 | a map of the round's contents, or of the current state for a round later than all completed ones |
| MemoryManager.CowMemoryManager.CreateSnapshot | experimental/cow_state/src/lib.rs:1046-1053 | the snapshot step; the manager stays valid if and only if no later round shares a slot with the current table |
| MemoryManager.CowMemoryManager.MakeCheckpoint | experimental/cow_state/src/lib.rs:1055-1082 | the checkpoint step, keeping the manager valid; the checkpointed round is the last one, and reopening is legal |
| MemoryManager.CowMemoryManager.Attach | experimental/cow_state/src/lib.rs:813-828 | a further manager on the store in use counts the bytes written from the start and changes nothing else |
| MemoryManager.CowMemoryManager.Reopen | experimental/cow_state/src/lib.rs:813-828 | a manager in a new process: the reopening step, valid if and only if no round after the checkpointed one shares a slot with the current table |
| MemoryManager.CowMemoryManager.RemoveStatesBelow | experimental/cow_state/src/lib.rs:1084-1091 | the removal step; the manager stays valid if and only if no expiring slot is in use again |
| MemoryManager.CowMemoryManager.Upgrade | experimental/cow_state/src/lib.rs:1093-1097 | the clearing step; the manager stays valid if and only if no collection entry is for a slot that a later round uses |
| MemoryManager.CowMemoryManager.WriteHeap | experimental/cow_state/src/lib.rs:1209-1211 | mapping, copying to the heap, committing and mapping again shows exactly those bytes changed, in no round; it fails, with nothing changed but that the file may have grown, exactly when fewer slots are free than pages the bytes lie on; no slot is lost; the length of the file and that the manager stays valid |
| MemoryManager.RegionCommit | experimental/cow_state/src/lib.rs:243-380 | a commit of pages of the region keeps the invariant and maps no page outside it |
| PathNames.SplitJoined | toolchains/sysimage/docker_tar.py:225-226 | taking a joined path apart gives the directory's parts and the name |
| PathNames.SplitArchived | toolchains/sysimage/docker_tar.py:279-303 | an archived path taken apart gives the path it was made from |
| LayerMap.AddDirKeeps | toolchains/sysimage/docker_tar.py:149-164 | adding a directory stores it with the metadata given, adds one path at most, keeps every other entry, descendants included, and keeps the map well-formed |
| LayerMap.AddLeafKeeps | toolchains/sysimage/docker_tar.py:166-176 | a file or link is stored as given in place of the whole subtree at its path, and nothing else changes |
| LayerMap.ClearDirKeeps | toolchains/sysimage/docker_tar.py:139-140 | an opaque whiteout removes exactly the strict descendants, keeps every other entry and leaves a well-formed map |
| LayerMap.WhiteoutTarget | toolchains/sysimage/docker_tar.py:225-226 | a whiteout acts on the named entry of its own directory |
| LayerMap.ProcessExact | toolchains/sysimage/docker_tar.py:220-245 | a member can be applied if and only if its directory exists, a whiteout finds its entry, a directory finds nothing else at its path, and its kind is known |
| LayerMap.ProcessAllExact | toolchains/sysimage/docker_tar.py:214-245 | a layer can be applied if and only if each of its members can, in turn |
| LayerMap.PlaceIsPath | toolchains/sysimage/docker_tar.py:220-223 | the place of a member that is no whiteout is its whole path, name by name |
| LayerMap.ProcessDecides | toolchains/sysimage/docker_tar.py:220-245 | a member that applies, to any map, stores its own entry at its own path, removes the other paths it decides, and leaves every other path as it was |
| LayerMap.MemberStored | toolchains/sysimage/docker_tar.py:228-243 | after a member that is no whiteout its path holds its kind, metadata, link name and contents, whatever was there before |
| LayerMap.WhiteoutRemoves | toolchains/sysimage/docker_tar.py:223-226 | a whiteout removes exactly the subtree at its target, an opaque one exactly what is below its directory, and no other entry changes |
| LayerMap.LastDecides | toolchains/sysimage/docker_tar.py:214-245 | after a layer each path is as the last member that decides it says, and as before the layer if none does |
| LayerMap.ProcessKeeps | toolchains/sysimage/docker_tar.py:214-245 | every member keeps the map prefix-closed, with usable names none of which is a whiteout, and keeps the root |
| LayerMap.ProcessAllKeeps | toolchains/sysimage/docker_tar.py:214-245 | so does every layer |
| LayerTree.ReplacedLinked | toolchains/sysimage/docker_tar.py:166-176 | hanging a new inode in place of a subtree keeps pointers and paths in agreement, with no inode on two paths |
| LayerTree.RemovedLinked | toolchains/sysimage/docker_tar.py:142-147 | so does removing a subtree |
| LayerTree.EmptiedLinked | toolchains/sysimage/docker_tar.py:139-140 | so does clearing a directory |
| LayerTree.FS.constructor | toolchains/sysimage/docker_tar.py:135-137 | a new tree is the empty file system |
| LayerTree.FS.Lookup | toolchains/sysimage/docker_tar.py:182-187 | following entries from the root finds the inode of the path, or fails exactly when there is none |
| LayerTree.FS.AddDirectory | toolchains/sysimage/docker_tar.py:149-164 | the tree after it is the flat map after adding a directory; on an exception nothing has changed |
| LayerTree.FS.AddNode | toolchains/sysimage/docker_tar.py:166-176 | the same for files and links |
| LayerTree.FS.RemoveEntry | toolchains/sysimage/docker_tar.py:142-147 | the same for unlinking: exactly the subtree is gone |
| LayerTree.FS.ClearDirectory | toolchains/sysimage/docker_tar.py:139-140 | the same for clearing: exactly the strict descendants are gone |
| LayerTree.FS.ChangeMode | toolchains/sysimage/docker_tar.py:178-180 | the same for changing a mode |
| LayerTree.FS.ApplyMember | toolchains/sysimage/docker_tar.py:220-245 | the tree after a member is the flat map after that member |
| LayerTree.FS.ApplyLayer | toolchains/sysimage/docker_tar.py:214-245 | the loop succeeds exactly when the flat map does, with the same result |
| TarOrder.PathStrict | toolchains/sysimage/docker_tar.py:279-280 | path order is irreflexive |
| TarOrder.PathTransitive | toolchains/sysimage/docker_tar.py:279-280 | path order is transitive |
| TarOrder.PathTotal | toolchains/sysimage/docker_tar.py:279-280 | path order is total |
| TarOrder.SortedNames | toolchains/sysimage/docker_tar.py:279-280 | the names of a directory, each once, in strictly ascending order |
| TarArchive.ArchiveIsListing | toolchains/sysimage/docker_tar.py:279-303 | the recursion lists every path but the root exactly once, with its entry, strictly ascending in path order |
| TarArchive.ListingUnique | toolchains/sysimage/docker_tar.py:279-303 | a file system has one such listing, so histories that lead to the same files archive identically |
| TarArchive.ReplayArchive | toolchains/sysimage/docker_tar.py:279-303 | reading an archive back as one layer never fails and rebuilds the file system |
| TarWriter.AddToTar | toolchains/sysimage/docker_tar.py:279-303 | walking the inode tree appends the members of the listing below the directory |
| TarWriter.FlattenExact | toolchains/sysimage/docker_tar.py:264-276 | extraction succeeds if and only if each member, in turn, can be applied to what the ones before it made, and the three files whose modes are set exist in the end |
| TarWriter.ChmodAllSets | toolchains/sysimage/docker_tar.py:178-180 | the paths given get the fixed mode, and every other field and every other entry is as before |
| TarWriter.FlattenDecides | toolchains/sysimage/docker_tar.py:247-276 | every path of an image is as the last member of all layers that decides it says, with mode 0o644 set on the three fixed files and nothing else changed |
| TarWriter.FlattenKeeps | toolchains/sysimage/docker_tar.py:264-276 | flattening any layers gives a well-formed file system with the initial root |
| TarWriter.ImageRoundTrip | toolchains/sysimage/docker_tar.py:264-303 | the archive of any flattened image is its listing, and reads back as the same file system |
| TarWriter.ExtractFs | toolchains/sysimage/docker_tar.py:264-276 | the tree built from the layers is the flattened image, and fails exactly when flattening does |
| TarWriter.TarFs | toolchains/sysimage/docker_tar.py:306-317 | the archive written is the members of the listing |
| PollStream.ProcessWriteCarries | experimental/qos/src/poll_rw.rs:25-47 | a ready poll moves as many bytes to the wire as it is ready for and loses none; a pending one moves none; one that fails loses all that was pending; nothing empty is left pending |
| PollStream.ProcessWriteMoves | experimental/qos/src/poll_rw.rs:25-36 | a ready poll puts exactly the first pending bytes, as many as it is ready for, on the wire, and nothing is left pending if and only if that is all of them |
| PollStream.SendFlushes | experimental/qos/src/poll_rw.rs:59-84 | polls ready for all there is put what was pending and the new payload on the wire |
| PollStream.SendCarries | experimental/qos/src/poll_rw.rs:59-84 | an accepted payload is added whole to what is carried; a full writer hands the payload back with none of it carried |
| PollStream.WriterConserves | experimental/qos/src/poll_rw.rs:25-84 | over every schedule the bytes on the wire and pending are those of the accepted payloads if and only if no poll failed |
| PollStream.ReceiveCarries | experimental/qos/src/poll_rw.rs:102-151 | what a receive takes off the socket it returns or holds, in order, and it returns whole frames only |
| PollStream.ReceiveMoves | experimental/qos/src/poll_rw.rs:102-116 | a ready poll takes exactly as many bytes as it is ready for, as there are and as still fit, and returns a payload if and only if that fills the frame |
| PollStream.ReceiveIdles | experimental/qos/src/poll_rw.rs:117-126 | a poll that is not ready takes nothing; one that fails drops what was held |
| PayloadStream.SendKeeps | experimental/qos/src/test_client.rs:15-33 | sending, and sending again what was handed back, keeps the accepted payloads the generator's, in order |
| PayloadStream.ReceiveKeeps | experimental/qos/src/test_server.rs:26-31 | receiving keeps what is returned and held equal to what was taken off the wire, and every check passing |
| PayloadStream.EndToEnd | experimental/qos/src/poll_rw.rs:102-151 | for every schedule without errors the payloads returned are a prefix of those accepted, one for each whole frame read, and all of them once nothing is pending or unread; no check ever fails, across wrap-around too |
| PayloadStream.Delivered | experimental/qos/src/poll_rw.rs:25-151 | progress: after every schedule without errors, and however it goes on, everything accepted so far is returned after as many sends with a ready first poll as bytes were pending, and then as many ready receives as bytes were accepted |
| PayloadStream.Quiesces | experimental/qos/src/poll_rw.rs:25-151 | after every schedule without errors, a send whose polls are ready for all there is and enough ready receives make the payloads returned exactly those accepted |
| PollReadWrite.PollWriter.ProcessPending | experimental/qos/src/poll_rw.rs:25-47 | taking the payload out, polling and putting the rest back is one step of the state machine |
| PollReadWrite.PollWriter.SendPayload | experimental/qos/src/poll_rw.rs:59-84 | sending is the send of the state machine |
| PollReadWrite.PollReader.ProcessPending | experimental/qos/src/poll_rw.rs:102-126 | filling the buffer in place is one step of the state machine |
| PollReadWrite.PollReader.ReceivePayload | experimental/qos/src/poll_rw.rs:140-151 | receiving is the receive of the state machine |
| Payloads.PayloadGenerator.Generate | experimental/qos/src/payload.rs:11-16 | the next pattern, wrapping around, in every byte of a frame, which a checker at the same pattern passes |
| Payloads.PayloadChecker.Check | experimental/qos/src/payload.rs:32-60 | no assertion fails if and only if the payload is not empty, all bytes alike and of the next pattern |
| Payloads.CountFirst | experimental/qos/src/payload.rs:35-40 | the count is the length exactly when all bytes equal the first |

## Left out

- The mapping database: its files, flags and cursors, and the scan of its meta table on reopening. Tables are maps and a transaction is one step.
- Memory mapping, page protection, pipes and splicing: kept is only which page goes to which slot and which range is read from where.
- Locks, the list of open managers, feature flags, the fake managers and the validity checks on the metadata page.
- Crashes in the middle of a commit: the points between its transactions are covered, a lost transaction is not.
- Page size: fixed at 4096 bytes; the source uses larger pages on some targets.
- MemoryManager.OffsetIgnoresTag: models the offset in wrapping arithmetic; a build with overflow checks would stop on a tagged word.
- MemoryManager.CowMemoryManager.GetMapForSnapshot: a round that was removed makes the source panic; here the result is absent.
- CowGrowth.RunInFile: sufficient and not necessary; how far a file may fall behind also depends on which slots are free again.
- CowCapacity.NeverExhausted: speaks of removal as documented and of rounds that end in increasing order, like the other capacity results.
- CowHarm.IllegalHarms: one way, under a condition; where stale entries bar the legal steps that would show a clear, an ended round or a reopening, whether other legal steps show it is not decided.
- CowHarm.ClearHarmsExactly: where no slot waiting to be collected is freed in its tagged form, for the same reason.
- Several memory managers at work on one store at a time, each with its own count of bytes written: a further manager takes the place of the one before.
- FreeLists.Alloc: does not model the truncation of the number of pages to 32 bits.
- LayerMap.ProcessKeeps: assumes that a member's path ends in a name, as archive readers deliver it; a whiteout acts on what is there when it is read, not only on earlier layers, as in the source.
- TarWriter.TarFs: members and not bytes; archive encoding, hashes and calls to docker are not part of this model.
- Hard links: archived as symbolic links by the source, so both are one kind of member here.
- PayloadStream.Delivered: for schedules without poll errors, like EndToEnd.
- PayloadStream.EndToEnd: for schedules without poll errors; what an error does is in PollStream.WriterConserves. Payloads given to the writer are not empty, since the source reads their first byte.
- The awaiting and actor-based readers and writers, and the older client and server: wrappers around the same polls.
- The other directories (scalability, policy monitoring, image builders, encoders' benchmarks): scripts, network clients and generated code that would add only easy members.
