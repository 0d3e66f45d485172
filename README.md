# EmbedSanitizer runtime: a Dafny model of its FastTrack race detector

EmbedSanitizer is a dynamic data-race detector for embedded ARM programs.
A compiler pass instruments every memory access, thread creation and
join, and lock operation. The instrumentation calls `__tsan_*` callbacks,
which run the FastTrack happens-before algorithm on vector clocks. This
project models that runtime core and proves its properties:

- `epochs.dfy` (module `Epochs`): the 32-bit epoch. The owner thread id
  sits in the high 8 bits and a 24-bit logical clock in the low bits.
  `READ_SHARED` is the sentinel for shared read mode.
- `vector_clocks.dfy` (module `VectorClocks`): the vector clock helpers
  `newVectorClock`, `ExtendVectorClock` and `ExtendVectorClocks`. It also
  defines the elementwise maximum that the join loops compute and the
  slotwise order used to state happens-before.
- `defs.dfy` (module `Defs`):
  - the thread, variable and lock states;
  - the process-wide registries with their get-or-create lookups
    `getState`, `getVarState` and `getLockState`, and
    `UpdateThreadClocks`;
  - the registry invariant that every lookup and write-back keeps.

  The registries and the globals `NumThreads` and `isConcurrent` are the
  fields of one `Runtime` object.
- `fasttrack.dfy` (module `FastTrack`): the six transitions `ft_read`,
  `ft_write`, `ft_acquire`, `ft_release`, `ft_fork` and `ft_join`, plus
  the lemmas that they keep registry states consistent.
- `tsan_interface.dfy` (module `TsanInterface`): the callback dispatch.
  Each callback looks up its operands, runs a transition and writes the
  results back. The caller's thread id is a parameter.
- `happens_before.dfy` (module `HappensBefore`): what the transitions
  achieve together. A thread's own accesses never race. A write ordered
  after another thread's race-free write by a lock hand-over, a fork or a
  join does not race. Two writes, a write and a read, or a write after
  shared reads that no synchronisation orders are reported.
- `text.dfy` (module `Text`): the `std::string` operations the report and
  the path helper rely on:
  - decimal output of integers;
  - the library's lexicographic `<`;
  - `find` for a substring and for a character;
  - line framing.
- `race.dfy` (module `Races`): the race record of `etsan/race.h`. It
  covers the constructor, the indented call-stack text, the report built
  once and cached, and the `race_compare` ordering, together with the
  order evidently intended.
- `debug_info.dfy` (module `DebugInfo`): `createAbsoluteFileName` and the
  `(` truncation of `getFuncNameStr` from the instrumentation pass.

### Modelling choices

**Epochs.** Epochs are the source's `int` values, and `TID` and `CLOCK`
are its masks on the two's-complement bit pattern. `READ_SHARED` is the
unsigned literal `0xEFFFFFFF` as it reads back from an `int` field. The
registry admits at most 127 threads. Every epoch therefore stays a
non-negative 32-bit `int`, and no epoch of a registered thread is the
sentinel.

**References.** The source hands out references into its hash maps, and
the transitions update the entries through them. In the model the
registries are `map` fields of `Runtime` holding records. A transition
receives the records and returns their new values. The callback then
writes the new values back under the same keys (`Runtime.StoreVar` and
its siblings). Each write-back keeps the registry invariant
`Defs.Registry`:
- thread ids are distinct and below the registry size;
- every thread's clock is well formed, covers the registry, and holds the
  thread's epoch in its own slot;
- every stored epoch belongs to a registered thread;
- `NumThreads` is one more than the registry size;
- the gate is never negative.

**Return values.** `ft_read` and `ft_write` are declared `void`, but
their fast paths return `reportIsRacy`. They are modelled as answering
whether this call detected a race.

### Points of the code the model follows closely

- A new lock's clock holds `i << 24` in slot `i`, clock 0 of every
  thread, as `newVectorClock` writes it (`etsan/defs.h:327`).
- The exclusive-read test of `ft_read` compares whole epochs
  (`x.R <= t.C[TID(x.R)]`, `etsan/fasttrack.h:41`), while the write tests
  compare `CLOCK` parts. Both epochs have the same owner there, so on
  registry states the two tests agree
  (`FastTrack.VisibleIffNotAhead`).
- A second `createRaceMessage` leaves the caller's string alone and
  answers `true` (`etsan/race.h:76-78`). It does not hand the cached text
  back.
- `race_compare` is not a strict order, and a new thread's id is one
  past the slot its clock gets. Both appear under "## Findings".

## Model

| member | source | states |
|---|---|---|
| Epochs.Tid | etsan/defs.h:33 | The owner of an epoch is its high byte, a number below 256. |
| Epochs.Clock | etsan/defs.h:34 | The clock of an epoch is its low 24 bits, at most `0xFFFFFF`, negative epochs included. |
| Epochs.EpochParts | etsan/defs.h:33-34 | `TID` and `CLOCK` unpack `(t << 24) + c` to exactly `t` and `c` for every `t` below 256 and every 24-bit `c`. |
| Epochs.OwnedByParts | etsan/defs.h:33-34 | Any epoch of thread `t` decodes to owner `t` and to its distance from `t << 24` as clock. |
| Epochs.ReadSharedIsNoEpoch | etsan/defs.h:36 | `READ_SHARED` decodes to owner `0xEF` with the largest clock, and it equals no epoch of a thread below 128. |
| Epochs.TidBelow | etsan/defs.h:33 | An epoch below `n << 24` has an owner below `n`. Registry epochs therefore index registry clocks. |
| VectorClocks.JoinMax | etsan/fasttrack.h:101-103 | The join has the operands' length. Each slot is at least both operands' slots and equal to one of them. |
| VectorClocks.NewVectorClock | etsan/defs.h:280-284 | The clock has exactly `size` slots and slot `t` holds `t << 24`. Nothing of the old contents survives. |
| VectorClocks.ExtendVectorClock | etsan/defs.h:290-298 | The call changes nothing when the clock already has `totalThreads` slots. Otherwise the clock reaches exactly `totalThreads` slots, the old prefix is kept, and new slot `t` is `t << 24`. |
| VectorClocks.ExtendVectorClocks | etsan/defs.h:305-313 | Both clocks end at the longer length. Each keeps its prefix and gets fresh epochs in the new slots. |
| VectorClocks.FreshWellFormed | etsan/defs.h:280-284 | Every slot of a fresh clock is an epoch of the thread it belongs to. |
| VectorClocks.ExtendedFacts | etsan/defs.h:290-298 | Extension keeps the prefix and only raises the slotwise order. It keeps a well-formed clock well formed, and extending again to the same length changes nothing. |
| VectorClocks.JoinMaxIsLeastUpperBound | etsan/fasttrack.h:100-103 | The elementwise maximum is the least upper bound of both clocks in the slotwise order. |
| VectorClocks.JoinMaxWellFormed | etsan/fasttrack.h:100-103 | Joining two well-formed clocks yields a well-formed clock. |
| Defs.ThreadState.UpdateEpoch | etsan/defs.h:79 | Keeps the id and the clock and re-establishes `epoch == C[tid]`. |
| Defs.ThreadState.Increment | etsan/defs.h:80-84 | Raises the epoch by exactly one and writes it into the own slot. The clock keeps its length and every other slot. |
| Defs.IncrementTicksOwnSlot | etsan/defs.h:77-84 | On a state with `epoch == C[tid]`, `increment` raises the own slot by one and keeps the invariant. |
| Defs.GrownClockFacts | etsan/defs.h:125-132 | Characterises `GrownClock`, one clock grown by `UpdateThreadClocks`: it keeps its old slots and reaches the registry size. New slot `idx` is `idx << 24`, one more for the owner's own slot. A well-formed clock that covers its owner stays well formed. |
| Defs.Runtime.UpdateThreadClocks | etsan/defs.h:117-134 | The registry keys are unchanged. Every entry keeps its id and epoch, and its clock is grown to the registry size as `GrownClockFacts` describes. |
| Defs.GrownKeepsThreadOk | etsan/defs.h:117-134 | Growing a consistent thread's clock to a registry one larger keeps that thread consistent in it. |
| Defs.FirstClock | etsan/defs.h:147-154 | The empty clock of a new entry, grown to `n` slots when the thread takes the last index, is the fresh clock with its own slot ticked once. |
| Defs.RegisteredEntry | etsan/defs.h:147-154 | Growing the new entry gives the registered state. Its own slot already holds its epoch, whose owner is its id and whose clock is 1. |
| Defs.RegisteredThreadOk | etsan/defs.h:147-154 | The registered state is consistent in the registry it joins. |
| Defs.InsertedThreadGrown | etsan/defs.h:145-157 | After the insertion, `UpdateThreadClocks` and the write of the own slot, the registry is exactly `Registered(old, id)`: the key set has grown by the new id, the new entry is the registered state with clock 1, and every earlier entry is its old state with a grown clock. |
| Defs.GrownThreadsOk | etsan/defs.h:145-156 | After a registration every thread, old or new, is consistent in the larger registry. Old threads keep ids and epochs, and their clocks only grow. |
| Defs.Registered | etsan/defs.h:139-164 | The thread registry after `getState(id)` holds the old keys plus `id`; `Runtime.InsertThread` and `Runtime.GetState` are proved to leave exactly this map. |
| Defs.RegisteredMap | etsan/defs.h:145-157 | A registry that holds the registered state under the new id and every earlier entry with its clock grown by `GrownClock` is `Registered`. |
| Defs.GrownTidsDistinct | etsan/defs.h:145-156 | The new thread's id is taken by no earlier thread, so ids stay pairwise distinct. |
| Defs.RegisterKeepsRegistry | etsan/defs.h:145-156 | A registration keeps the whole registry invariant, with `NumThreads` one above the new size. |
| Defs.VarsOkInLargerRegistry | etsan/defs.h:145-156 | Variable states valid for a registry stay valid once it grows. |
| Defs.VarOkGrows | etsan/defs.h:145-156 | One variable state valid for a registry stays valid once it grows. |
| Defs.EpochBelowRegistry | etsan/defs.h:230-237 | A registered thread's epoch and its zero epoch are epochs of registered threads, so a new variable state speaks only of registered threads. |
| Defs.StoreVarKeepsRegistry | etsan/defs.h:239-246 | Replacing a variable entry with a state of registered threads keeps the invariant. |
| Defs.StoreThreadKeepsRegistry | etsan/defs.h:158-163 | Replacing a thread entry with a consistent state of the same id keeps the invariant. |
| Defs.StorePairKeepsRegistry | etsan/defs.h:158-163 | Replacing two thread entries, and setting any non-negative gate, keeps the key set and the invariant. |
| Defs.StoreLockKeepsRegistry | etsan/defs.h:330-334 | Replacing a lock entry with a well-formed clock keeps the invariant. |
| Defs.SourceTidOutOfRange | etsan/defs.h:145-154 | On the registration as written (`SourceRegistered`), in every registry state the new thread's id equals the length of its grown clock and is one more than the threads registered before, so `C[tid]` is one past the end and the entry is never consistent. The first thread gets id 1. |
| Defs.Runtime.constructor | etsan/defs.h:61-67 | At process start the registries are empty, `NumThreads`, the gate and both counters are 0, and the invariant holds. |
| Defs.Runtime.GetState | etsan/defs.h:139-164 | The registry becomes exactly `Registered(old, id)`: a known id changes nothing, an unseen id joins as the registered state with clock 1 and every earlier entry is its old state with its clock grown by `GrownClock`. The result is the entry, consistent; the invariant is kept and variables and locks are untouched. |
| Defs.Runtime.Register | etsan/defs.h:145-157 | The first-use branch: the registry becomes exactly `Registered(old, id)`. The new state is consistent with clock 1, earlier threads keep ids and epochs while their clocks grow, and the invariant is kept. |
| Defs.Runtime.InsertThread | etsan/defs.h:145-157 | The new thread takes the next free index with epoch `(tid << 24) + 1`. Every existing entry becomes its old state with its clock grown by `GrownClock`, so the registry is exactly `Registered(old, id)`, and `NumThreads` ends one above the registry size. |
| Defs.Runtime.GetVarState | etsan/defs.h:223-247 | A known address returns its entry and changes nothing. A new address first registers the caller (the registry becomes `Registered(old, self)`) and gets `NewVarState`: `W` and `R` at the caller's zero epoch except the field of the access kind, which holds the caller's epoch; `Rvc` empty and `Racy` false. Only that key is added. |
| Defs.Runtime.GetLockState | etsan/defs.h:319-335 | A known lock returns its entry and changes nothing. A new lock is added under exactly that key with the clock `Fresh(NumThreads)`: `NumThreads` slots, slot `i` holding `i << 24`. |
| Defs.Runtime.StoreVar | etsan/defs.h:239-246 | Writing through the returned reference replaces exactly that variable entry and keeps the invariant. |
| Defs.Runtime.StoreThread | etsan/defs.h:158-163 | Writing through the returned reference replaces exactly that thread entry and keeps the invariant. |
| Defs.Runtime.StoreThreadLock | etsan/defs.h:330-334 | Writes back the thread and the lock a lock callback changed, keeping the invariant. |
| Defs.Runtime.StoreThreadPair | etsan/defs.h:158-163 | Writes back the two threads and the gate a fork or join changed, keeping the invariant. |
| Defs.Runtime.StoreLock | etsan/defs.h:330-334 | Replaces exactly that lock entry and keeps the invariant. |
| FastTrack.SetSlot | etsan/fasttrack.h:50-51 | Writes one slot of the read clock, growing the clock with fresh epochs first when it is too short. Every other slot is kept. |
| FastTrack.FtRead | etsan/fasttrack.h:14-57 | The read counter always rises by one, and the new state is `ReadEffect` of the operands. The `Racy` and same-epoch fast paths change nothing and report no race. Otherwise the read races iff the last write is not visible to the thread. A race latches `Racy` and leaves the read state. Without a race, shared mode sets `Rvc[tid]`, a visible exclusive reader is replaced, and an invisible one switches to shared mode holding both readers. |
| FastTrack.SourceReadSlotOutOfRange | etsan/fasttrack.h:34-51 | As written, a state the registry allows makes `ft_read` write `Rvc[t.tid]` past the end of `Rvc`. |
| FastTrack.FtWrite | etsan/fasttrack.h:60-91 | The write counter always rises by one, and the new state is `WriteEffect` of the operands. The fast paths change nothing. Otherwise the write races iff the last write, the exclusive read, or any shared read up to the shorter clock is not visible. A race latches `Racy` and keeps `W`. Without a race, `W` becomes the thread's epoch, shared read mode resets `R` to the writer's zero epoch, and `Rvc` is untouched. |
| FastTrack.JoinLoop | etsan/fasttrack.h:101-103 | The index loop `a[i] := max(a[i], b[i])` computes the elementwise maximum. |
| FastTrack.Joined | etsan/fasttrack.h:98-107 | The thread's id need only fit the longer of the two clocks. A thread that learns a clock keeps its id, stays consistent, has the longer length, and lies above both its old clock and the clock it learned. |
| FastTrack.Ticked | etsan/fasttrack.h:114-123 | The thread's id need only fit the clock after it is grown. A tick raises the epoch by one, keeps the id and consistency, grows the clock to the requested length, and keeps every other old slot. |
| FastTrack.FtAcquire | etsan/fasttrack.h:94-108 | The lock clock is only extended. The thread becomes `Joined(t, L)`: its clock is the slotwise maximum of both extended clocks with `epoch == C[tid]`, so it lies above its old clock and the lock's. |
| FastTrack.FtRelease | etsan/fasttrack.h:110-124 | The lock clock becomes the thread's clock before the tick, extended. The thread becomes `Ticked(t, |L|)`: epoch and own slot rise by one, every other slot is kept, and the old clock lies below the lock's. |
| FastTrack.FtFork | etsan/fasttrack.h:126-144 | The gate rises by one. The child becomes `Joined(u, t.C)`, the maximum of both clocks with its epoch refreshed. The parent becomes `Ticked(t, |u.C|)`, and the child ends above both old clocks. |
| FastTrack.FtJoin | etsan/fasttrack.h:147-169 | The gate falls by one unless it is 0, so it is never negative. The parent becomes `Joined(t, u.C)`, the maximum of both clocks with its epoch refreshed. The child becomes `Ticked(u, |t.C|)`, and the parent ends above both old clocks. |
| FastTrack.AcquireFromShorterClock | tests/fasttrack_sync_test.cpp:16-36 | `ft_acquire` by thread 3 with a three-slot clock on a five-slot lock clock: both clocks end with five slots, the epoch equals the thread's own slot, and slot `i` is `(i << 24) + i`. |
| FastTrack.ReleaseFromShorterClock | tests/fasttrack_sync_test.cpp:38-65 | `ft_release` by the same thread on the same lock: the lock receives the thread's clock extended with `3 << 24` and `4 << 24`, the thread's clock agrees with it everywhere except its own slot, and that slot holds the old epoch plus one. |
| FastTrack.RegisteredAccessInRange | etsan/fasttrack.h:26-41 | On registry states the dominance tests index inside the thread's clock, and a thread's epoch has its own id as owner. |
| FastTrack.VisibleIffNotAhead | etsan/fasttrack.h:26 | Characterises `Visible`: on registry states an epoch of another thread passes the `CLOCK` test exactly when it is at most the thread's slot for its owner, as a whole epoch. |
| FastTrack.WriteRacesIffAhead | etsan/fasttrack.h:73-83 | Characterises `WriteRaces`: on registry states a write races exactly when the last write, the exclusive last read, or a shared reader over the common slots is another thread's epoch ahead of the writer's slot for it. |
| FastTrack.ReadKeepsVarOk | etsan/fasttrack.h:34-53 | The read state `ft_read` leaves behind speaks only of registered threads. |
| FastTrack.WriteKeepsVarOk | etsan/fasttrack.h:85-88 | The write and read epochs `ft_write` leaves behind belong to registered threads. |
| FastTrack.JoinKeepsThreadOk | etsan/fasttrack.h:98-107 | A join with a well-formed clock keeps a registered thread consistent. |
| FastTrack.TickKeepsThreadOk | etsan/fasttrack.h:114-123 | A tick that does not saturate the clock keeps a registered thread consistent. |
| TsanInterface.AccessOperands | etsan/tsan_interface.cc:23 | The operands of an access: `getVarState`'s entry, then the caller's. The registry becomes exactly `Registered(old, self)` and the thread operand is its entry. The variable operand is the old entry of a known address, else `NewVarState` of the caller, and only that address's entry is added. Both speak of registered threads. |
| TsanInterface.RegisteredRead | etsan/tsan_interface.cc:23 | `ft_read` on registry states: its tests stay inside the clocks, the new state is `ReadEffect` of the operands, the race verdict is "the last write is invisible" off the fast paths, and the state stays valid, ending racy or with the read recorded. |
| TsanInterface.RegisteredWrite | etsan/tsan_interface.cc:45 | `ft_write` on registry states: its tests stay inside the clocks, the new state is `WriteEffect` of the operands, the race verdict is `WriteRaces` off the fast paths, and the state stays valid, ending racy or with `W` at the writer's epoch. |
| TsanInterface.Read | etsan/tsan_interface.cc:21-41 | While the gate is closed nothing changes. Otherwise the read counter rises by one, the caller is registered (`Registered(old, self)`), and the address's entry, and no other, becomes `ReadEffect` of its old or newly created state and the caller's state. It ends racy or with the read recorded, and the invariant is kept. |
| TsanInterface.Write | etsan/tsan_interface.cc:43-61 | While the gate is closed nothing changes. Otherwise the write counter rises by one, the caller is registered (`Registered(old, self)`), and the address's entry, and no other, becomes `WriteEffect` of its old or newly created state and the caller's state. It ends racy or last written at the caller's epoch, and the invariant is kept. |
| TsanInterface.LockOperands | etsan/tsan_interface.cc:86 | The caller's entry, then the lock's. The registry becomes exactly `Registered(old, self)`. The lock operand is the old entry of a known lock, else `Fresh(NumThreads)`, and the lock registry gains exactly that entry. The caller is consistent and the lock clock well formed. |
| TsanInterface.RegisteredAcquire | etsan/tsan_interface.cc:86 | `ft_acquire` on registry states: the lock clock is only extended, the thread becomes `Joined(t, L)`, both stay consistent, and the thread ends above the lock's clock and its own old clock. |
| TsanInterface.RegisteredRelease | etsan/tsan_interface.cc:90 | `ft_release` on registry states: the lock receives the thread's clock before the tick, extended, and the thread becomes `Ticked(t, |L|)`. Both stay consistent, and the lock clock lies between the old and the new thread clock. |
| TsanInterface.Lock | etsan/tsan_interface.cc:85-87 | The caller is registered (`Registered(old, self)`) and the lock created if new with `Fresh(NumThreads)`. Then the lock's entry becomes its clock extended to the caller's length, the caller's entry becomes `Joined(t, L)`, and no other thread or lock changes. The caller ends above the lock's new and old clocks and its own old clock, and the invariant is kept. |
| TsanInterface.Unlock | etsan/tsan_interface.cc:89-91 | The caller is registered and the lock created if new. Then the lock's entry becomes the caller's clock before the tick, extended to the lock's length, the caller's entry becomes `Ticked(t, |L|)`, and no other thread or lock changes. The lock holds all the caller knew, and the invariant is kept. |
| TsanInterface.ThreadOperands | etsan/tsan_interface.cc:74 | The parent's entry, then the child's: the registry becomes exactly `Registered(Registered(old, self), child)` and the operands are its two entries, both consistent. The parent's state is read again after the child's lookup has grown its clock. |
| TsanInterface.RegisteredFork | etsan/tsan_interface.cc:74 | `ft_fork` on registry states: the parent becomes `Ticked(t, |u.C|)` and the child `Joined(u, t.C)`. Both stay consistent, and the child ends above both old clocks. |
| TsanInterface.RegisteredJoin | etsan/tsan_interface.cc:82 | `ft_join` on registry states: the parent becomes `Joined(t, u.C)` and the child `Ticked(u, |t.C|)`. Both stay consistent, and the parent ends above both old clocks. |
| TsanInterface.ThreadCreate | etsan/tsan_interface.cc:71-75 | The gate rises by one. With `r` the registry after registering both, the registry becomes `r` with the parent `Ticked` and the child `Joined` with the parent's clock; no other entry changes. The child ends above the parent's and its own old clocks, and the invariant is kept. |
| TsanInterface.ThreadJoin | etsan/tsan_interface.cc:77-83 | The gate falls by one unless it is 0. With `r` the registry after registering both, the registry becomes `r` with the parent `Joined` with the child's clock and the child `Ticked`; no other entry changes. The parent ends above the child's and its own old clocks, and the invariant is kept. |
| HappensBefore.KnownGrows | etsan/fasttrack.h:100-103 | An epoch a clock covers stays covered by every clock above it in the slotwise order, such as the clock a join produces. |
| HappensBefore.WriteLeavesKnown | etsan/fasttrack.h:70-88 | After a race-free checking write, the writer's clock covers the variable's last write and its exclusive last read. |
| HappensBefore.KnownWriteDoesNotRace | etsan/fasttrack.h:70-84 | A write whose variable epochs the writer's clock covers reports no race. |
| HappensBefore.OrderedWrites | etsan/fasttrack.h:60-91 | After `t`'s write, a write by a thread whose clock is above `t`'s reports no race (unless `t` took its same-epoch fast path). The variable turns racy only if it was racy or `t`'s write raced. |
| HappensBefore.ReleaseAcquireScenario | etsan/fasttrack.h:60-124 | A write, a release, an acquire of the same lock by another thread and its write: the second write reports no race. |
| HappensBefore.ForkScenario | etsan/fasttrack.h:60-144 | A parent's write, a fork and the child's write: the child's write reports no race. |
| HappensBefore.JoinScenario | etsan/fasttrack.h:60-169 | A child's write, a join and the parent's write: the parent's write reports no race. |
| HappensBefore.UnknownIsAhead | etsan/fasttrack.h:73-83 | An epoch of thread `o` that a clock does not cover by the `CLOCK` test is above that clock's slot for `o` by the whole-epoch test of the shared loop. |
| HappensBefore.UnorderedWrites | etsan/fasttrack.h:60-91 | Two writes by different threads, the second thread not covering the first's epoch: one of them reports a race, and the variable ends racy. |
| HappensBefore.UnorderedWriteRead | etsan/fasttrack.h:14-91 | A write and then a read by a thread that does not cover the writer's epoch: one of them reports a race and the variable ends racy (unless the last read was the reader's own in its current epoch). |
| HappensBefore.UnorderedReads | etsan/fasttrack.h:14-57 | A read, then a read by a thread not covering the first reader's epoch: unless one of them races, the variable is in shared mode with the first reader's epoch in its slot. The last write is unchanged. |
| HappensBefore.SharedReadsThenWrite | etsan/fasttrack.h:14-91 | After those two reads, a write by a thread not covering the first reader's epoch: one of the three accesses reports a race and the variable ends racy, unless the write takes its same-epoch fast path. |
| HappensBefore.NewVarStateSoleAccessor | etsan/defs.h:229-240 | The state `getVarState` creates has its creator as sole accessor: not racy, exclusive reads, both epochs the creator's. |
| HappensBefore.TickKeepsSoleAccessor | etsan/defs.h:80-84 | Incrementing the thread's clock keeps it the sole accessor. |
| HappensBefore.SoleAccess | etsan/fasttrack.h:14-91 | A thread's access to a variable only it has touched reports no race. The thread stays sole accessor: a read becomes the exclusive read, a write the last write. |
| Text.Spaces | etsan/race.h:65 | `std::string(n, ' ')` holds exactly `n` blanks. |
| Text.NatText | etsan/race.h:86 | Unsigned output is a non-empty string of decimal digits. |
| Text.NatTextRoundTrip | etsan/race.h:86 | Reading the printed digits back gives the number printed. |
| Text.IntTextRoundTrip | etsan/race.h:85 | Signed output is an optional minus sign followed by digits. It reads back as the number printed and holds no line break. |
| Text.LexLessIrreflexive | etsan/race.h:115 | The string `<` is irreflexive. |
| Text.LexLessAsymmetric | etsan/race.h:115 | The string `<` is asymmetric. |
| Text.LexLessTransitive | etsan/race.h:115 | The string `<` is transitive. |
| Text.LexLessTotal | etsan/race.h:115 | Any two different strings are ordered by `<` one way. |
| Text.OccursIffOccursAt | llvm/lib/Transforms/Instrumentation/EmbedSanitizerDebugInfo.h:101 | `find(sub) != npos` holds exactly when `sub` starts at some position of the string. |
| Text.Find | llvm/lib/Transforms/Instrumentation/EmbedSanitizerDebugInfo.h:155 | `find(c)` is `npos` exactly when `c` is absent. Otherwise it is the first position of `c`. |
| Races.Race.constructor | etsan/race.h:32-45 | Copies the id, line, access kind, object and file name. The trace is empty and no message has been built. |
| Races.StackTextIsStackFrom | etsan/race.h:59-71 | Characterises `StackText` and `FrameLine`: the call stack built frame by frame equals the text read front to back, frame `k` being line `k`, indented by `1 + 4k` blanks. |
| Races.StackFromSplit | etsan/race.h:63-68 | Splitting the frames splits the text, the second part numbered from where the first ends. |
| Races.StackTextLines | etsan/race.h:63-68 | With names free of line breaks, the call stack has exactly one line per frame. |
| Races.Race.PrintStack | etsan/race.h:59-71 | The loop's text is one line per frame in trace order: `1 + 4k` blanks, ` '--->`, the name and `(...)`. |
| Races.FileLineMentions | etsan/race.h:84 | The file line mentions the file name. |
| Races.LineNoLineMentions | etsan/race.h:85 | The line-number line mentions the line number as printed. |
| Races.ThreadLineMentions | etsan/race.h:86-87 | The thread line mentions the thread id, the access kind and the object name. |
| Races.MessageMentions | etsan/race.h:80-91 | Characterises `MessageText` and `HeaderLines`: the report begins and ends with the same 45-`=` rule line and mentions the file name, line number, thread id, access kind and object name. |
| Races.Race.CreateRaceMessage | etsan/race.h:75-96 | The first call appends the report to `msg`, sets the flag and answers false. Every later call answers true and leaves `msg` alone, and the flag stays set. |
| Races.RaceCompareCases | etsan/race.h:100-116 | Characterises `RaceCompare`: across files the comparator is the string `<`. Within a file it says "less" iff line or access kind differ, so it is irreflexive. |
| Races.RaceCompareNotAsymmetric | etsan/race.h:103-113 | Two reports of one file on lines 1 and 2 are each "less" than the other. |
| Races.RaceLessIsStrictOrder | etsan/race.h:100-116 | The corrected order by file, line and access kind is irreflexive, asymmetric and transitive. Two keys are unordered exactly when they are equal. |
| Races.RaceLessRefinesCompare | etsan/race.h:100-116 | Wherever the corrected order says "less", the comparator as written says so too. Across files the two agree. |
| DebugInfo.AbsoluteFileNameCases | llvm/lib/Transforms/Instrumentation/EmbedSanitizerDebugInfo.h:79-109 | Characterises `AbsoluteFileName`: some names come back unchanged, with an empty directory or name, an absolute name, or a name without `./` that contains the directory. Every other name becomes the directory (less one trailing `/`), one `/` and the name (less a leading `./`). |
| DebugInfo.AbsoluteFileNameEndsWithName | llvm/lib/Transforms/Instrumentation/EmbedSanitizerDebugInfo.h:79-109 | The result ends with the name, less a leading `./`. |
| DebugInfo.JoinedStartsWithDir | llvm/lib/Transforms/Instrumentation/EmbedSanitizerDebugInfo.h:91-108 | A joined result starts with the directory, so the directory occurs in it. |
| DebugInfo.AbsoluteFileNameIdempotent | llvm/lib/Transforms/Instrumentation/EmbedSanitizerDebugInfo.h:79-109 | Applying the helper to its own result changes nothing. |
| DebugInfo.FuncNameStrIsPrefixBeforeParen | llvm/lib/Transforms/Instrumentation/EmbedSanitizerDebugInfo.h:153-160 | Characterises `FuncNameStr`: the result is the longest prefix of the name without `(`, the whole name or the part before the first `(`. Truncating again changes nothing. |

## Left out

- Mutexes and atomicity. The registry mutexes, the report lock and the
  atomicity of `isConcurrent` are not modelled. Every callback is one
  sequential step, and interleavings inside a callback are not
  captured.
- `pthread_self()` and `getThreadState`'s cast of the thread handle are
  not modelled. The caller's registry key is the parameter `self`.
- The address cast in the thread callbacks is not modelled.
  `__tsan_thread_create` reads the child id stored at its argument,
  while `__tsan_thread_join` truncates the pointer itself to 32 bits, so
  the two can name different keys. The model receives the resulting key
  as `child`.
- I/O is not modelled: the `printf` statistics in the registry
  destructors, `race_message`, and the `DEBUG` prints. The read and write
  counters are modelled as plain fields.
- LLVM IR construction and `demangleName` in the instrumentation pass are
  not modelled. `FuncNameStr` takes the demangled name as input.
- `llvm/lib/Transforms/Instrumentation/EmbedSanitizerExtension.h`,
  `etsan/raceReport.h` and `etsan/file_dictionary.h` are not part of this
  model.
- The call-stack tracker that fills `Race.trace` is not part of this
  model. `trace` is a field that callers set.
- `__tsan_init`, `__tsan_func_entry`, `__tsan_func_exit`,
  `__tsan_vptr_update` and `__tsan_vptr_read` have empty bodies and change
  no state, so they have no member.
- The four access widths of `__tsan_readN` and `__tsan_writeN` have
  identical bodies. Each kind is one member, `TsanInterface.Read` or
  `TsanInterface.Write`.
- Argument evaluation order is unspecified in C++. The model evaluates
  `getVarState` before `getThreadState`, `getThreadState` before
  `getLockState`, and the parent's lookup before the child's.
- References are modelled as records written back under their keys, so
  aliasing is not captured.
- TsanInterface.ThreadCreate: requires the parent and the child to be
  different keys. The source would pass two references to one entry.
- TsanInterface.ThreadJoin: requires the parent and the child to be
  different keys, for the same reason.
- Defs.Runtime.GetState: requires room in the registry, because at most
  127 threads keep every epoch inside a non-negative 32-bit `int`. The
  source has no bound: past 127 threads the epoch turns negative, and past
  255 it wraps.
- TsanInterface.ThreadCreate: requires that the parent's clock is not
  saturated (`CLOCK < 0xFFFFFF`). The source's `increment` would carry
  into the owner bits.
- TsanInterface.ThreadJoin: requires the same of the child's clock.
- TsanInterface.Unlock: requires the same of the caller's clock.
- `int` overflow of the counters and the gate is not modelled. The read
  and write counters are `unsigned int` in the source and wrap; here
  they are unbounded.
- Races.Race.constructor: `tid` is a natural number, not a 32-bit
  `unsigned int`.
- HappensBefore.OrderedWrites: concludes nothing about the second write
  when the first took its same-epoch fast path, since that path checks
  nothing. It also requires that an exclusive last read of the first
  thread's own is not ahead of its epoch. The registry invariant does not
  track that no stored epoch is later than its owner's clock.
- HappensBefore.ReleaseAcquireScenario: the same two limits as
  `OrderedWrites`.
- HappensBefore.ForkScenario: the same two limits as `OrderedWrites`.
- HappensBefore.JoinScenario: the same two limits as `OrderedWrites`,
  for the child's write.
- HappensBefore.SoleAccess: requires that the stored epochs are not
  later than the thread's epoch, for the same reason.
- HappensBefore.UnorderedWriteRead: concludes nothing when the last read
  is the reader's own in its current epoch, since the read's same-epoch
  fast path checks nothing.
- HappensBefore.SharedReadsThenWrite: concludes nothing when the writer's
  epoch is the last write, since the write's same-epoch fast path checks
  nothing.
- Test expectations that differ from the code are not followed.
  `tests/fasttrack_write_test.cpp:109-110` expects `W` to be updated
  after a detected race, but the `error` macro returns first
  (`etsan/defs.h:46-53`). The model follows the code.
- The ANSI colour sequences of the report are kept as literal
  characters and carry no terminal meaning.
- Text.LexLess: compares characters by code point, as `char_traits<char>`
  compares unsigned bytes. Signed `char` platforms are not distinguished.
- Races.MessageMentions: does not state the report's exact line count.
  The call stack's line count is proved in `Races.StackTextLines`.
- DebugInfo.AbsoluteFileNameIdempotent: requires that the directory does
  not itself start with `./`. For such a directory a second application
  can strip the joined name's leading `./`.
- Line 91 of `createAbsoluteFileName` reads `file_name[1]` of a
  one-character name. That character is the terminating NUL, so the
  model treats such a name as not starting with `./`.

## Findings

| source | as written | input that shows it | evidently intended | confidence | as-written member | corrected member |
|---|---|---|---|---|---|---|
| etsan/defs.h:149-154 | The new thread's id is the registry size after the insertion. `UpdateThreadClocks` grows its clock to that same size, so the write `C[tid] = epoch` is one past the end. | The first thread: id 1, a clock of one slot, and a write to `C[1]`. | Use the index the thread takes in the registry, the size before the insertion. | not executed | Defs.SourceTidOutOfRange | Defs.Runtime.InsertThread |
| etsan/fasttrack.h:36 | `ft_read` writes `Rvc[t.tid]` and `Rvc[TID(R)]` without growing `Rvc`. `Rvc` is sized by `NumThreads` when it is first allocated, and threads registered later have larger ids. | `Rvc` allocated with 3 slots in shared mode, then a read by the thread with id 3 in a registry of 4 threads. | Grow `Rvc` with fresh epochs before writing a slot past its end. | not executed | FastTrack.SourceReadSlotOutOfRange | FastTrack.FtRead |
| etsan/race.h:103-113 | Within one file the `int` results `-1` and `1` both convert to `true`. The comparator says "less" both ways for different lines or access kinds, so it is no strict weak order for the ordered report log. | Keys (`a.c`, 1, `read`) and (`a.c`, 2, `read`): each is "less" than the other. | Order by file name, then line number, then access kind. | not executed | Races.RaceCompareNotAsymmetric | Races.RaceLessIsStrictOrder |
