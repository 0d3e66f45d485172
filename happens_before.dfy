/** What the FastTrack transitions (etsan/fasttrack.h) achieve together: a
    thread's own accesses never race; an access ordered after another
    thread's race-free write by a lock hand-over, a fork or a join does not
    race with it; and accesses that no synchronisation orders are reported:
    two writes, a write and a read, and a write after shared reads. */
module HappensBefore {
  import opened Epochs
  import opened VectorClocks
  import opened Defs
  import opened FastTrack
  import opened TsanInterface

  /** Epoch `e` is covered by clock `C`: its owner has a slot there, whose
      clock is at least `e`'s. */
  predicate Known(e: int, C: seq<int>)
  {
    Tid(e) < |C| && Clock(e) <= Clock(C[Tid(e)])
  }

  /** What a well-formed clock covers, every well-formed clock above it in
      the slotwise order covers too. */
  lemma KnownGrows(e: int, a: seq<int>, b: seq<int>)
    requires WellFormed(a) && WellFormed(b) && Below(a, b) && Known(e, a)
    ensures Known(e, b)
  {
    var u := Tid(e);
    OwnedByParts(a[u], u);
    OwnedByParts(b[u], u);
  }

  /** After a race-free write by `t` on the checking path, both epochs of
      the variable are covered by `t`'s clock, and the read mode is
      exclusive. An exclusive read of `t`'s own must not be ahead of `t`. */
  lemma WriteLeavesKnown(x: VarState, t: ThreadState, n: nat)
    requires VarOk(x, n) && ThreadOk(t, n) && n <= MaxThreads
    requires x.R != ReadShared && Tid(x.R) == t.tid ==> Clock(x.R) <= Clock(t.epoch)
    requires !x.Racy && !WriteRaces(x, t)
    ensures var x' := x.(W := t.epoch, R := if x.R == ReadShared then ZeroEpoch(Tid(t.epoch)) else x.R);
      Known(x'.W, t.C) && x'.R != ReadShared && Known(x'.R, t.C)
  {
    RegisteredAccessInRange(x, t, n);
    EpochParts(t.tid, 0);
  }

  /** A write whose variable state is covered by the writer's clock does
      not race. */
  lemma KnownWriteDoesNotRace(x: VarState, t: ThreadState)
    requires x.R != ReadShared && Known(x.W, t.C) && Known(x.R, t.C)
    ensures !WriteRaces(x, t)
  {
  }

  /** `t` writes `x`; a later write by `u`, whose clock is above the one
      `t` had, happens after it: unless `t`'s write hit the same-epoch fast
      path on a state it did not check, `u`'s write reports no race, and it
      latches `Racy` only when the variable was racy already or `t`'s write
      raced. */
  method OrderedWrites(x: VarState, t: ThreadState, u: ThreadState, n: nat)
    returns (racyT: bool, racyU: bool, xU: VarState)
    requires VarOk(x, n) && ThreadOk(t, n) && ThreadOk(u, n) && n <= MaxThreads && Below(t.C, u.C)
    requires x.R != ReadShared && Tid(x.R) == t.tid ==> Clock(x.R) <= Clock(t.epoch)
    ensures x.Racy || x.W != t.epoch ==> !racyU
    ensures xU.Racy <==> x.Racy || racyT || racyU
    ensures !xU.Racy ==> xU.W == u.epoch
  {
    RegisteredAccessInRange(x, t, n);
    var xT, writes;
    racyT, xT, writes := FtWrite(x, t, 0);
    WriteKeepsVarOk(x, xT, t, n);
    RegisteredAccessInRange(xT, u, n);
    if !x.Racy && x.W != t.epoch && !racyT {
      WriteLeavesKnown(x, t, n);
      KnownGrows(xT.W, t.C, u.C);
      KnownGrows(xT.R, t.C, u.C);
      KnownWriteDoesNotRace(xT, u);
    }
    racyU, xU, writes := FtWrite(xT, u, writes);
  }

  /** Lock hand-over: `t` writes `x` and releases the lock, `u` acquires
      it and writes `x`. The second write reports no race. */
  method ReleaseAcquireScenario(x: VarState, t: ThreadState, u: ThreadState, lock: LockState, n: nat)
    returns (racyT: bool, racyU: bool, xU: VarState)
    requires VarOk(x, n) && ThreadOk(t, n) && ThreadOk(u, n) && WellFormed(lock.L) && n <= MaxThreads
    requires Clock(t.epoch) < MaxClock
    requires x.R != ReadShared && Tid(x.R) == t.tid ==> Clock(x.R) <= Clock(t.epoch)
    ensures x.Racy || x.W != t.epoch ==> !racyU
    ensures xU.Racy <==> x.Racy || racyT || racyU
  {
    var t', lock' := RegisteredRelease(t, lock, n);
    var u', lock'' := RegisteredAcquire(u, lock', n);
    BelowTransitive(t.C, lock'.L, u'.C);
    racyT, racyU, xU := OrderedWrites(x, t, u', n);
  }

  /** Fork: the parent `t` writes `x` and forks the child `u`, which then
      writes `x`. The child's write reports no race. */
  method ForkScenario(x: VarState, t: ThreadState, u: ThreadState, gate: int, n: nat)
    returns (racyT: bool, racyU: bool, xU: VarState)
    requires VarOk(x, n) && ThreadOk(t, n) && ThreadOk(u, n) && n <= MaxThreads
    requires Clock(t.epoch) < MaxClock
    requires x.R != ReadShared && Tid(x.R) == t.tid ==> Clock(x.R) <= Clock(t.epoch)
    ensures x.Racy || x.W != t.epoch ==> !racyU
    ensures xU.Racy <==> x.Racy || racyT || racyU
  {
    var gate', t', u' := RegisteredFork(gate, t, u, n);
    racyT, racyU, xU := OrderedWrites(x, t, u', n);
  }

  /** Join: the child `u` writes `x`, the parent `t` joins it and then
      writes `x`. The parent's write reports no race. */
  method JoinScenario(x: VarState, t: ThreadState, u: ThreadState, gate: int, n: nat)
    returns (racyU: bool, racyT: bool, xT: VarState)
    requires VarOk(x, n) && ThreadOk(t, n) && ThreadOk(u, n) && n <= MaxThreads
    requires Clock(u.epoch) < MaxClock
    requires x.R != ReadShared && Tid(x.R) == u.tid ==> Clock(x.R) <= Clock(u.epoch)
    ensures x.Racy || x.W != u.epoch ==> !racyT
    ensures xT.Racy <==> x.Racy || racyU || racyT
  {
    var gate', t', u' := RegisteredJoin(gate, t, u, n);
    racyU, racyT, xT := OrderedWrites(x, u, t', n);
  }

  /** An epoch of thread `o` that a well-formed clock does not cover is
      above that clock's slot for `o`, as a whole epoch. */
  lemma UnknownIsAhead(e: int, o: nat, C: seq<int>)
    requires WellFormed(C) && o < |C| && o < 256 && OwnedBy(e, o) && !Known(e, C)
    ensures Tid(e) == o && e > C[o]
  {
    OwnedByParts(e, o);
    OwnedByParts(C[o], o);
  }

  /** Two writes with no synchronisation between them: `t` writes `x`,
      then `u`, whose clock does not cover `t`'s epoch, writes it. One of
      the two writes reports the race, and the variable ends racy. */
  method UnorderedWrites(x: VarState, t: ThreadState, u: ThreadState, n: nat)
    returns (racyT: bool, racyU: bool, xU: VarState)
    requires VarOk(x, n) && ThreadOk(t, n) && ThreadOk(u, n) && n <= MaxThreads && t.tid != u.tid
    requires !Known(t.epoch, u.C)
    ensures !x.Racy ==> racyT || racyU
    ensures xU.Racy
  {
    RegisteredAccessInRange(x, t, n);
    var xT, writes;
    racyT, xT, writes := FtWrite(x, t, 0);
    WriteKeepsVarOk(x, xT, t, n);
    RegisteredAccessInRange(xT, u, n);
    EpochBelowRegistry(u, n);
    OwnedByParts(u.epoch, u.tid);
    racyU, xU, writes := FtWrite(xT, u, writes);
  }

  /** A write and an unordered read: `t` writes `x`, then `u`, whose clock
      does not cover `t`'s epoch, reads it. Unless the last read was `u`'s
      own in its current epoch (then `u`'s read takes the same-epoch fast
      path), one of the two reports the race and the variable ends racy. */
  method UnorderedWriteRead(x: VarState, t: ThreadState, u: ThreadState, n: nat)
    returns (racyT: bool, racyU: bool, xU: VarState)
    requires VarOk(x, n) && ThreadOk(t, n) && ThreadOk(u, n) && n <= MaxThreads && t.tid != u.tid
    requires !Known(t.epoch, u.C)
    ensures !x.Racy && x.R != u.epoch ==> racyT || racyU
    ensures x.R != u.epoch ==> xU.Racy
  {
    EpochBelowRegistry(u, n);
    OwnedByParts(u.epoch, u.tid);
    RegisteredAccessInRange(x, t, n);
    var xT, count;
    racyT, xT, count := FtWrite(x, t, 0);
    WriteKeepsVarOk(x, xT, t, n);
    RegisteredAccessInRange(xT, u, n);
    RegisteredAccessInRange(xT, t, n);
    racyU, xU, count := FtRead(xT, u, n + 1, 0);
  }

  /** Two unordered reads: `t` reads `x`, then `u`, whose clock does not
      cover `t`'s epoch, reads it. Unless one of them races, the read
      state ends in shared mode with `t`'s epoch in `t`'s slot. */
  method UnorderedReads(x: VarState, t: ThreadState, u: ThreadState, n: nat)
    returns (racyT: bool, racyU: bool, xU: VarState)
    requires VarOk(x, n) && ThreadOk(t, n) && ThreadOk(u, n) && n <= MaxThreads && t.tid != u.tid
    requires !Known(t.epoch, u.C)
    ensures VarOk(xU, n) && xU.W == x.W
    ensures xU.Racy <==> x.Racy || racyT || racyU
    ensures !x.Racy && !racyT && !racyU ==> xU.R == ReadShared && t.tid < |xU.Rvc| && xU.Rvc[t.tid] == t.epoch
  {
    EpochBelowRegistry(t, n);
    EpochBelowRegistry(u, n);
    OwnedByParts(t.epoch, t.tid);
    OwnedByParts(u.epoch, u.tid);
    RegisteredAccessInRange(x, t, n);
    var xT, count;
    racyT, xT, count := FtRead(x, t, n + 1, 0);
    ReadKeepsVarOk(x, xT, t, n);
    RegisteredAccessInRange(xT, u, n);
    if !x.Racy && !racyT {
      UnknownIsAhead(t.epoch, t.tid, u.C);
    }
    racyU, xU, count := FtRead(xT, u, n + 1, count);
    ReadKeepsVarOk(xT, xU, u, n);
  }

  /** Two unordered reads, then a write: after `UnorderedReads` by `t` and
      `u`, a thread `w` whose clock does not cover `t`'s epoch either
      writes `x`. Unless `w`'s write hits its same-epoch fast path, one of
      the three accesses reports the race (the write, when the reads did
      not), and the variable ends racy. */
  method SharedReadsThenWrite(x: VarState, t: ThreadState, u: ThreadState, w: ThreadState, n: nat)
    returns (racyT: bool, racyU: bool, racyW: bool, xW: VarState)
    requires VarOk(x, n) && ThreadOk(t, n) && ThreadOk(u, n) && ThreadOk(w, n) && n <= MaxThreads
    requires t.tid != u.tid && t.tid != w.tid
    requires !Known(t.epoch, u.C) && !Known(t.epoch, w.C)
    ensures !x.Racy && x.W != w.epoch ==> racyT || racyU || racyW
    ensures x.W != w.epoch ==> xW.Racy
  {
    var xU;
    racyT, racyU, xU := UnorderedReads(x, t, u, n);
    RegisteredAccessInRange(xU, w, n);
    if !x.Racy && !racyT && !racyU {
      EpochBelowRegistry(t, n);
      UnknownIsAhead(t.epoch, t.tid, w.C);
      assert !ReadersVisible(xU.Rvc, w.C);
    }
    var writes;
    racyW, xW, writes := FtWrite(xU, w, 0);
  }

  /** Only `t` has touched the variable: it is not racy, its read mode is
      exclusive, and both epochs are `t`'s, none ahead of `t`'s own. */
  predicate SoleAccessor(x: VarState, t: ThreadState)
  {
    && !x.Racy && x.R != ReadShared
    && OwnedBy(x.W, t.tid) && OwnedBy(x.R, t.tid)
    && x.W <= t.epoch && x.R <= t.epoch
  }

  /** The state `getVarState` creates for thread `t` has `t` as its sole
      accessor. */
  lemma NewVarStateSoleAccessor(t: ThreadState, n: nat, isWrite: bool)
    requires ThreadOk(t, n) && n <= MaxThreads
    ensures SoleAccessor(NewVarState(t, isWrite), t)
  {
    EpochBelowRegistry(t, n);
    assert OwnedBy(t.C[t.tid], t.tid);
  }

  /** A tick of `t`'s epoch keeps it the sole accessor. */
  lemma TickKeepsSoleAccessor(x: VarState, t: ThreadState, t': ThreadState)
    requires SoleAccessor(x, t) && t'.tid == t.tid && t'.epoch == t.epoch + 1
    ensures SoleAccessor(x, t')
  {
  }

  /** A thread accessing a variable only it has touched never races, and
      stays its sole accessor: a read becomes the exclusive read, a write
      the last write. */
  method SoleAccess(x: VarState, t: ThreadState, n: nat, isWrite: bool) returns (racy: bool, x': VarState)
    requires ThreadOk(t, n) && n <= MaxThreads && SoleAccessor(x, t)
    ensures !racy && SoleAccessor(x', t)
    ensures isWrite ==> x'.W == t.epoch && x'.R == x.R
    ensures !isWrite ==> x'.W == x.W && x'.R == t.epoch
  {
    OwnedByParts(x.W, t.tid);
    OwnedByParts(x.R, t.tid);
    EpochBelowRegistry(t, n);
    var count;
    if isWrite {
      racy, x', count := FtWrite(x, t, 0);
    } else {
      racy, x', count := FtRead(x, t, n + 1, 0);
    }
  }
}
