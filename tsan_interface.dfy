/** The instrumentation callbacks (etsan/tsan_interface.cc). The compiler
    inserts a call before every memory access, thread creation and join,
    and lock operation; each callback looks up the states involved in the
    registries and runs the matching FastTrack transition on them. The
    calling thread's id, which the source reads from `pthread_self()`, is
    the parameter `self`; the callbacks of the four access widths behave
    alike and are one member each. The transitions receive references into
    the registries; here they return new values, which the callback writes
    back under the same keys. */
module TsanInterface {
  import opened Epochs
  import opened VectorClocks
  import opened Defs
  import opened FastTrack

  /** The arguments of `ft_read` and `ft_write` in an access callback:
      `getVarState(addr, isWrite)` (which may register `self` when the
      address is new), then `getThreadState()`. Either way `self` ends
      registered as `getState` registers it; the variable operand is the
      stored state, or the one created for `self`'s access. Both states
      come from the registries, so their epochs belong to registered
      threads. */
  method AccessOperands(rt: Runtime, addr: nat, isWrite: bool, self: nat) returns (x: VarState, t: ThreadState)
    requires rt.Valid() && (self in rt.threads || |rt.threads| < MaxThreads)
    modifies rt`threads, rt`numThreads, rt`vars
    ensures rt.Valid()
    ensures rt.threads == Registered(old(rt.threads), self) && t == rt.threads[self]
    ensures x == if addr in old(rt.vars) then old(rt.vars[addr]) else NewVarState(t, isWrite)
    ensures rt.vars == old(rt.vars)[addr := x]
    ensures VarOk(x, |rt.threads|) && ThreadOk(t, |rt.threads|) && |rt.threads| <= MaxThreads
  {
    x := rt.GetVarState(addr, isWrite, self);
    ghost var n0 := |rt.threads|;
    t := rt.GetState(self);
    VarOkGrows(x, n0, |rt.threads|);
  }

  /** `ft_read` on states taken from a registry of `n` threads: the
      dominance tests stay inside the thread's clock, the result is again a
      state of registered threads, and the read is recorded unless the
      variable is racy. */
  method RegisteredRead(x: VarState, t: ThreadState, n: nat, numThreads: nat, readCount: nat)
    returns (racy: bool, x': VarState, readCount': nat)
    requires VarOk(x, n) && ThreadOk(t, n) && n <= MaxThreads
    ensures ReadTestable(x, t) && x' == ReadEffect(x, t, numThreads)
    ensures racy <==> !x.Racy && x.R != t.epoch && !Visible(x.W, t)
    ensures readCount' == readCount + 1 && VarOk(x', n)
    ensures x'.Racy <==> x.Racy || racy
    ensures x'.Racy || ReadRecorded(x', t)
  {
    RegisteredAccessInRange(x, t, n);
    racy, x', readCount' := FtRead(x, t, numThreads, readCount);
    ReadKeepsVarOk(x, x', t, n);
  }

  /** `ft_write` on states taken from a registry of `n` threads: the
      dominance tests stay inside the thread's clock, the result is again a
      state of registered threads, and the write is recorded unless the
      variable is racy. */
  method RegisteredWrite(x: VarState, t: ThreadState, n: nat, writeCount: nat)
    returns (racy: bool, x': VarState, writeCount': nat)
    requires VarOk(x, n) && ThreadOk(t, n) && n <= MaxThreads
    ensures WriteTestable(x, t) && x' == WriteEffect(x, t)
    ensures racy <==> !x.Racy && x.W != t.epoch && WriteRaces(x, t)
    ensures writeCount' == writeCount + 1 && VarOk(x', n)
    ensures x'.Racy <==> x.Racy || racy
    ensures x'.Racy || x'.W == t.epoch
  {
    RegisteredAccessInRange(x, t, n);
    racy, x', writeCount' := FtWrite(x, t, writeCount);
    WriteKeepsVarOk(x, x', t, n);
  }

  /** Storing twice under one key keeps the second value only. */
  lemma OverwriteTwice<K, V>(m: map<K, V>, k: K, a: V, b: V)
    ensures m[k := a][k := b] == m[k := b]
  {
  }

  /** `__tsan_read1/2/4/8`: nothing happens while the gate is closed;
      otherwise `ft_read` runs on the address's state (created as read on
      first use) and the calling thread's state, after `self` is
      registered. Only that address's state changes, to what `ft_read`
      makes of it, and it ends racy or holding the read. */
  method Read(rt: Runtime, self: nat, addr: nat)
    requires rt.Valid() && (self in rt.threads || |rt.threads| < MaxThreads)
    modifies rt`threads, rt`numThreads, rt`vars, rt`readCount
    ensures rt.Valid()
    ensures old(rt.isConcurrent) == 0 ==> unchanged(rt)
    ensures old(rt.isConcurrent) != 0 ==>
      && rt.readCount == old(rt.readCount) + 1
      && rt.threads == Registered(old(rt.threads), self)
      && var t := rt.threads[self];
         var x := if addr in old(rt.vars) then old(rt.vars[addr]) else NewVarState(t, false);
         && ReadTestable(x, t)
         && rt.vars == old(rt.vars)[addr := ReadEffect(x, t, rt.numThreads)]
         && (rt.vars[addr].Racy || ReadRecorded(rt.vars[addr], t))
  {
    if rt.isConcurrent != 0 {
      var x, t := AccessOperands(rt, addr, false, self);
      var racy, x', count := RegisteredRead(x, t, |rt.threads|, rt.numThreads, rt.readCount);
      ghost var v0: map<nat, VarState> := old(rt.vars);
      rt.StoreVar(addr, x');
      rt.readCount := count;
      OverwriteTwice(v0, addr, x, x');
    }
  }

  /** `__tsan_write1/2/4/8`: nothing happens while the gate is closed;
      otherwise `ft_write` runs on the address's state (created as written
      on first use) and the calling thread's state, after `self` is
      registered. Only that address's state changes, to what `ft_write`
      makes of it, and it ends racy or last written at the thread's
      epoch. */
  method Write(rt: Runtime, self: nat, addr: nat)
    requires rt.Valid() && (self in rt.threads || |rt.threads| < MaxThreads)
    modifies rt`threads, rt`numThreads, rt`vars, rt`writeCount
    ensures rt.Valid()
    ensures old(rt.isConcurrent) == 0 ==> unchanged(rt)
    ensures old(rt.isConcurrent) != 0 ==>
      && rt.writeCount == old(rt.writeCount) + 1
      && rt.threads == Registered(old(rt.threads), self)
      && var t := rt.threads[self];
         var x := if addr in old(rt.vars) then old(rt.vars[addr]) else NewVarState(t, true);
         && WriteTestable(x, t)
         && rt.vars == old(rt.vars)[addr := WriteEffect(x, t)]
         && (rt.vars[addr].Racy || rt.vars[addr].W == t.epoch)
  {
    if rt.isConcurrent != 0 {
      var x, t := AccessOperands(rt, addr, true, self);
      var racy, x', count := RegisteredWrite(x, t, |rt.threads|, rt.writeCount);
      ghost var v0: map<nat, VarState> := old(rt.vars);
      rt.StoreVar(addr, x');
      rt.writeCount := count;
      OverwriteTwice(v0, addr, x, x');
    }
  }

  /** The arguments of `ft_acquire` and `ft_release` in a lock callback:
      `getThreadState()` (which may register `self`), then
      `getLockState(lock)`. `self` ends registered as `getState` registers
      it; the lock operand is the stored state, or a new one with a fresh
      clock of `NumThreads` slots, stored under `lock`. Both come from the
      registries: the thread is consistent and the lock's clock well
      formed. */
  method LockOperands(rt: Runtime, self: nat, lock: nat) returns (t: ThreadState, ls: LockState)
    requires rt.Valid() && (self in rt.threads || |rt.threads| < MaxThreads)
    modifies rt`threads, rt`numThreads, rt`locks
    ensures rt.Valid()
    ensures rt.threads == Registered(old(rt.threads), self) && t == rt.threads[self]
    ensures ls == if lock in old(rt.locks) then old(rt.locks[lock]) else LockState(Fresh(rt.numThreads))
    ensures rt.locks == old(rt.locks)[lock := ls]
    ensures ThreadOk(t, |rt.threads|) && |rt.threads| <= MaxThreads && WellFormed(ls.L)
    ensures self in old(rt.threads) ==> t.epoch == old(rt.threads[self].epoch) && Below(old(rt.threads[self].C), t.C)
    ensures self !in old(rt.threads) ==> Clock(t.epoch) == 1
  {
    t := rt.GetState(self);
    ghost var ts := rt.threads;
    ls := rt.GetLockState(lock);
    assert rt.threads == ts;
    assert lock in old(rt.locks) ==> rt.locks == old(rt.locks)[lock := ls];
  }

  /** `ft_acquire` on states taken from a registry of `n` threads: the
      thread stays consistent, the lock's clock well formed, and the
      thread ends knowing all the lock and it itself knew. */
  method RegisteredAcquire(t: ThreadState, ls: LockState, n: nat) returns (t': ThreadState, ls': LockState)
    requires ThreadOk(t, n) && WellFormed(ls.L)
    ensures ls'.L == Extended(ls.L, |t.C|)
    ensures t' == Joined(t, ls.L)
    ensures ThreadOk(t', n) && WellFormed(ls'.L) && t'.tid == t.tid
    ensures Below(t.C, t'.C) && Below(ls.L, t'.C) && Below(ls'.L, t'.C)
  {
    t', ls' := FtAcquire(t, ls);
    JoinKeepsThreadOk(t, ls.L, t', n);
    ExtendedFacts(ls.L, |t.C|);
  }

  /** `ft_release` on states taken from a registry of `n` threads whose
      clock is not saturated: the thread stays consistent with its epoch
      one higher, and the lock's clock, still well formed, holds all the
      thread knew and lies below the thread's new clock. */
  method RegisteredRelease(t: ThreadState, ls: LockState, n: nat) returns (t': ThreadState, ls': LockState)
    requires ThreadOk(t, n) && WellFormed(ls.L) && n <= MaxThreads && Clock(t.epoch) < MaxClock
    ensures ls'.L == Extended(t.C, |ls.L|) && t' == Ticked(t, |ls.L|)
    ensures ThreadOk(t', n) && WellFormed(ls'.L) && t'.tid == t.tid && t'.epoch == t.epoch + 1
    ensures Below(t.C, ls'.L) && Below(ls'.L, t'.C)
  {
    t', ls' := FtRelease(t, ls);
    assert OwnedBy(t.C[t.tid], t.tid);
    TickKeepsThreadOk(t, |ls.L|, t', n);
    ExtendedFacts(t.C, |ls.L|);
  }

  /** `__tsan_thread_lock`: `ft_acquire` on the calling thread, registered
      first, and the lock: the lock's clock is only extended to the
      thread's length, the thread's clock becomes the elementwise maximum
      of the two, and nothing else changes. The thread then knows all the
      lock's clock holds, and all it knew before. */
  method Lock(rt: Runtime, self: nat, lock: nat)
    requires rt.Valid() && (self in rt.threads || |rt.threads| < MaxThreads)
    modifies rt`threads, rt`numThreads, rt`locks
    ensures rt.Valid() && self in rt.threads && lock in rt.locks
    ensures var r := Registered(old(rt.threads), self);
      var t := r[self];
      var L := if lock in old(rt.locks) then old(rt.locks[lock].L) else Fresh(rt.numThreads);
      && 0 <= t.tid < |t.C|
      && rt.locks == old(rt.locks)[lock := LockState(Extended(L, |t.C|))]
      && rt.threads == r[self := Joined(t, L)]
    ensures Below(rt.locks[lock].L, rt.threads[self].C)
    ensures lock in old(rt.locks) ==> Below(old(rt.locks[lock].L), rt.threads[self].C)
    ensures self in old(rt.threads) ==> Below(old(rt.threads[self].C), rt.threads[self].C)
  {
    ghost var t0, l0 := rt.threads, rt.locks;
    var t, ls := LockOperands(rt, self, lock);
    var t', ls' := RegisteredAcquire(t, ls, |rt.threads|);
    if self in t0 {
      BelowTransitive(t0[self].C, t.C, t'.C);
    }
    rt.StoreThreadLock(self, t', lock, ls');
    OverwriteTwice(l0, lock, ls, ls');
  }

  /** `__tsan_thread_unlock`: `ft_release` on the calling thread,
      registered first, and the lock: the lock receives the thread's clock
      as it was before the tick (extended to the lock's length), the
      thread's epoch ticks in its own slot, and nothing else changes. The
      lock's clock then holds all the thread knew. */
  method Unlock(rt: Runtime, self: nat, lock: nat)
    requires rt.Valid() && (self in rt.threads || |rt.threads| < MaxThreads)
    requires self in rt.threads ==> Clock(rt.threads[self].epoch) < MaxClock
    modifies rt`threads, rt`numThreads, rt`locks
    ensures rt.Valid() && self in rt.threads && lock in rt.locks
    ensures var r := Registered(old(rt.threads), self);
      var t := r[self];
      var L := if lock in old(rt.locks) then old(rt.locks[lock].L) else Fresh(rt.numThreads);
      && 0 <= t.tid < |t.C|
      && rt.locks == old(rt.locks)[lock := LockState(Extended(t.C, |L|))]
      && rt.threads == r[self := Ticked(t, |L|)]
    ensures Below(rt.locks[lock].L, rt.threads[self].C)
    ensures self in old(rt.threads) ==>
      rt.threads[self].epoch == old(rt.threads[self].epoch) + 1 && Below(old(rt.threads[self].C), rt.locks[lock].L)
  {
    ghost var t0, l0 := rt.threads, rt.locks;
    var t, ls := LockOperands(rt, self, lock);
    var t', ls' := RegisteredRelease(t, ls, |rt.threads|);
    if self in t0 {
      BelowTransitive(t0[self].C, t.C, ls'.L);
    }
    rt.StoreThreadLock(self, t', lock, ls');
    OverwriteTwice(l0, lock, ls, ls');
  }

  /** The arguments of `ft_fork` and `ft_join`: `getThreadState()`, then
      `getState(child)`, each of which may register its thread. The
      parent's state is a reference into the registry, so the growth of
      every clock when the child is registered shows in it: it is read
      again after the child's lookup. */
  method ThreadOperands(rt: Runtime, self: nat, child: nat) returns (t: ThreadState, u: ThreadState)
    requires rt.Valid() && self != child
    requires |rt.threads| + (if self in rt.threads then 0 else 1) + (if child in rt.threads then 0 else 1) <= MaxThreads
    modifies rt`threads, rt`numThreads
    ensures rt.Valid() && rt.threads == Registered(Registered(old(rt.threads), self), child)
    ensures t == rt.threads[self] && u == rt.threads[child]
    ensures ThreadOk(t, |rt.threads|) && ThreadOk(u, |rt.threads|) && |rt.threads| <= MaxThreads
    ensures self in old(rt.threads) ==> t.epoch == old(rt.threads[self].epoch) && Below(old(rt.threads[self].C), t.C)
    ensures self !in old(rt.threads) ==> Clock(t.epoch) == 1
    ensures child in old(rt.threads) ==> u.epoch == old(rt.threads[child].epoch) && Below(old(rt.threads[child].C), u.C)
    ensures child !in old(rt.threads) ==> Clock(u.epoch) == 1
  {
    ghost var t0 := rt.threads;
    var t1 := rt.GetState(self);
    u := rt.GetState(child);
    t := rt.threads[self];
    if self in t0 {
      BelowTransitive(t0[self].C, t1.C, t.C);
    }
  }

  /** `ft_fork` on two distinct threads of a registry of `n` threads, the
      parent's clock not saturated: both stay consistent, the parent's
      epoch ticks, and the child ends knowing all the parent and it itself
      knew. */
  method RegisteredFork(gate: int, t: ThreadState, u: ThreadState, n: nat) returns (gate': int, t': ThreadState, u': ThreadState)
    requires ThreadOk(t, n) && ThreadOk(u, n) && n <= MaxThreads && Clock(t.epoch) < MaxClock
    ensures gate' == gate + 1
    ensures t' == Ticked(t, |u.C|) && u' == Joined(u, t.C)
    ensures ThreadOk(t', n) && t'.tid == t.tid && t'.epoch == t.epoch + 1
    ensures ThreadOk(u', n) && u'.tid == u.tid
    ensures Below(t.C, u'.C) && Below(u.C, u'.C)
  {
    gate', t', u' := FtFork(gate, t, u);
    TickKeepsThreadOk(t, |u.C|, t', n);
    JoinKeepsThreadOk(u, t.C, u', n);
  }

  /** `ft_join` on two distinct threads of a registry of `n` threads, the
      child's clock not saturated: both stay consistent, the child's epoch
      ticks, and the parent ends knowing all the child and it itself
      knew. */
  method RegisteredJoin(gate: int, t: ThreadState, u: ThreadState, n: nat) returns (gate': int, t': ThreadState, u': ThreadState)
    requires ThreadOk(t, n) && ThreadOk(u, n) && n <= MaxThreads && Clock(u.epoch) < MaxClock
    ensures gate' == if gate != 0 then gate - 1 else gate
    ensures t' == Joined(t, u.C) && u' == Ticked(u, |t.C|)
    ensures ThreadOk(t', n) && t'.tid == t.tid
    ensures ThreadOk(u', n) && u'.tid == u.tid && u'.epoch == u.epoch + 1
    ensures Below(u.C, t'.C) && Below(t.C, t'.C)
  {
    gate', t', u' := FtJoin(gate, t, u);
    JoinKeepsThreadOk(t, u.C, t', n);
    TickKeepsThreadOk(u, |t.C|, u', n);
  }

  /** `__tsan_thread_create`, called by the parent `self` once the child
      `child` (the id stored at the address the callback receives) exists:
      `ft_fork` on both, once both are registered, which opens the gate one
      step more: the child's clock becomes the elementwise maximum with the
      parent's, the parent's epoch ticks in its own slot, and no other
      thread changes. The child then knows all the parent knew. */
  method ThreadCreate(rt: Runtime, self: nat, child: nat)
    requires rt.Valid() && self != child
    requires |rt.threads| + (if self in rt.threads then 0 else 1) + (if child in rt.threads then 0 else 1) <= MaxThreads
    requires self in rt.threads ==> Clock(rt.threads[self].epoch) < MaxClock
    modifies rt`threads, rt`numThreads, rt`isConcurrent
    ensures rt.Valid() && rt.isConcurrent == old(rt.isConcurrent) + 1
    ensures rt.threads.Keys == old(rt.threads.Keys) + {self} + {child}
    ensures var r := Registered(Registered(old(rt.threads), self), child);
      var t, u := r[self], r[child];
      && 0 <= t.tid < |t.C| && 0 <= u.tid < |u.C|
      && rt.threads == r[self := Ticked(t, |u.C|)][child := Joined(u, t.C)]
    ensures self in old(rt.threads) ==>
      rt.threads[self].epoch == old(rt.threads[self].epoch) + 1 && Below(old(rt.threads[self].C), rt.threads[child].C)
    ensures child in old(rt.threads) ==> Below(old(rt.threads[child].C), rt.threads[child].C)
  {
    ghost var t0 := rt.threads;
    var t, u := ThreadOperands(rt, self, child);
    var gate, t', u' := RegisteredFork(rt.isConcurrent, t, u, |rt.threads|);
    if self in t0 {
      BelowTransitive(t0[self].C, t.C, u'.C);
    }
    if child in t0 {
      BelowTransitive(t0[child].C, u.C, u'.C);
    }
    rt.StoreThreadPair(self, t', child, u', gate);
  }

  /** `__tsan_thread_join`, called by the parent `self` after joining the
      child `child` (the callback's argument itself is the id): `ft_join`
      on both, once both are registered, which closes the gate one step
      unless it is closed: the parent's clock becomes the elementwise
      maximum with the child's, the child's epoch ticks in its own slot, and
      no other thread changes. The parent then knows all the child knew. */
  method ThreadJoin(rt: Runtime, self: nat, child: nat)
    requires rt.Valid() && self != child
    requires |rt.threads| + (if self in rt.threads then 0 else 1) + (if child in rt.threads then 0 else 1) <= MaxThreads
    requires child in rt.threads ==> Clock(rt.threads[child].epoch) < MaxClock
    modifies rt`threads, rt`numThreads, rt`isConcurrent
    ensures rt.Valid() && rt.isConcurrent == if old(rt.isConcurrent) != 0 then old(rt.isConcurrent) - 1 else 0
    ensures rt.threads.Keys == old(rt.threads.Keys) + {self} + {child}
    ensures var r := Registered(Registered(old(rt.threads), self), child);
      var t, u := r[self], r[child];
      && 0 <= t.tid < |t.C| && 0 <= u.tid < |u.C|
      && rt.threads == r[self := Joined(t, u.C)][child := Ticked(u, |t.C|)]
    ensures child in old(rt.threads) ==>
      rt.threads[child].epoch == old(rt.threads[child].epoch) + 1 && Below(old(rt.threads[child].C), rt.threads[self].C)
    ensures self in old(rt.threads) ==> Below(old(rt.threads[self].C), rt.threads[self].C)
  {
    ghost var t0 := rt.threads;
    var t, u := ThreadOperands(rt, self, child);
    var gate, t', u' := RegisteredJoin(rt.isConcurrent, t, u, |rt.threads|);
    if self in t0 {
      BelowTransitive(t0[self].C, t.C, t'.C);
    }
    if child in t0 {
      BelowTransitive(t0[child].C, u.C, t'.C);
    }
    rt.StoreThreadPair(self, t', child, u', gate);
  }
}
