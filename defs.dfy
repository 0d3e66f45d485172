/** Thread, variable and lock state and their registries (etsan/defs.h).
    The process-wide registries `TS`, `VS`, `LS` and the globals
    `NumThreads` and `isConcurrent` are the fields of one `Runtime` object.
    Registry entries are records kept in the registry maps: where the source
    hands out a reference into a map and updates the entry through it, the
    model writes the updated record back under the same key. The mutexes are
    left out; every operation is one sequential step. */
module Defs {
  import opened Epochs
  import opened VectorClocks

  /** Per-thread state: the detector's id, its vector clock and its epoch. */
  datatype ThreadState = ThreadState(tid: int, C: seq<int>, epoch: int)
  {
    /** The invariant the source keeps: `epoch == C[tid]`. */
    predicate Consistent()
    {
      0 <= tid < |C| && C[tid] == epoch
    }

    /** `updateEpoch`: re-establish `epoch == C[tid]`. */
    function UpdateEpoch(): (t: ThreadState)
      requires 0 <= tid < |C|
      ensures t.tid == tid && t.C == C && t.Consistent()
    {
      this.(epoch := C[tid])
    }

    /** `increment`: one tick of the epoch, written into the own slot. */
    function Increment(): (t: ThreadState)
      requires 0 <= tid < |C|
      ensures t.tid == tid && t.epoch == epoch + 1 && t.Consistent()
      ensures |t.C| == |C| && forall i :: 0 <= i < |C| && i != tid ==> t.C[i] == C[i]
    {
      this.(epoch := epoch + 1, C := C[tid := epoch + 1])
    }
  }

  /** Per-address access state; `Rvc` is meaningful while `R == ReadShared`. */
  datatype VarState = VarState(W: int, R: int, Rvc: seq<int>, Racy: bool)

  /** Per-lock state: the clock of its last releaser. */
  datatype LockState = LockState(L: seq<int>)

  /** On a consistent state, `increment` raises the own slot by exactly one. */
  lemma IncrementTicksOwnSlot(t: ThreadState)
    requires t.Consistent()
    ensures t.Increment().C == t.C[t.tid := t.C[t.tid] + 1]
    ensures t.Increment().Consistent()
  {
  }

  /** `UpdateThreadClocks` applied to one clock: `C` grown to `n` slots, new
      slot `idx` being `idx << 24`, plus one when it is the owner's own slot. */
  function GrownClock(C: seq<int>, tid: int, n: int): seq<int>
  {
    if n <= |C| then C
    else C + seq(n - |C|, j requires 0 <= j => ZeroEpoch(|C| + j) + (if |C| + j == tid then 1 else 0))
  }

  /** Growing keeps the old slots, reaches `n` slots, gives new slot `i` the
      epoch `i << 24` (one more for the owner's own slot) and keeps a clock
      whose owner is already covered well formed. */
  lemma GrownClockFacts(C: seq<int>, tid: int, n: int)
    ensures |GrownClock(C, tid, n)| == if n <= |C| then |C| else n
    ensures GrownClock(C, tid, n)[..|C|] == C
    ensures forall i :: |C| <= i < n ==> GrownClock(C, tid, n)[i] == ZeroEpoch(i) + (if i == tid then 1 else 0)
    ensures WellFormed(C) && tid < |C| ==> WellFormed(GrownClock(C, tid, n))
  {
  }

  /** The clock a new thread gets when it makes the registry `n` strong and
      takes the last index: fresh, with its own slot ticked once. */
  lemma FirstClock(n: nat)
    requires n >= 1
    ensures GrownClock([], n - 1, n) == Fresh(n)[n - 1 := ZeroEpoch(n - 1) + 1]
  {
    var g := GrownClock([], n - 1, n);
    assert |g| == n;
    assert forall i :: 0 <= i < n ==> g[i] == Fresh(n)[n - 1 := ZeroEpoch(n - 1) + 1][i];
  }

  /** Thread state the registry keeps consistent: an id below the registry
      size `n`, a well-formed clock covering every registered thread, and
      the epoch equal to the own slot. */
  predicate ThreadOk(t: ThreadState, n: int)
  {
    0 <= t.tid < n <= |t.C| && WellFormed(t.C) && t.C[t.tid] == t.epoch
  }

  /** Variable state whose epochs all belong to registered threads. */
  predicate VarOk(v: VarState, n: int)
  {
    0 <= v.W < ZeroEpoch(n) && (v.R == ReadShared || 0 <= v.R < ZeroEpoch(n))
  }

  /** Growing every clock to the registry's new size keeps each registered
      thread consistent. */
  lemma GrownKeepsThreadOk(t: ThreadState, n: int)
    requires ThreadOk(t, n - 1)
    ensures ThreadOk(t.(C := GrownClock(t.C, t.tid, n)), n)
  {
    GrownClockFacts(t.C, t.tid, n);
  }

  /** The epoch of a registered thread lies below the epochs of any thread
      not yet registered, which is the bound the registry keeps for the
      epochs stored in variable states. */
  lemma EpochBelowRegistry(t: ThreadState, n: int)
    requires ThreadOk(t, n)
    ensures OwnedBy(t.epoch, t.tid) && 0 <= t.epoch < ZeroEpoch(n)
    ensures 0 <= ZeroEpoch(t.tid) < ZeroEpoch(n)
  {
  }

  /** Registered threads carry pairwise different ids. */
  ghost predicate DistinctTids(threads: map<nat, ThreadState>)
  {
    forall k1, k2 :: k1 in threads && k2 in threads && k1 != k2 ==> threads[k1].tid != threads[k2].tid
  }

  /** The registry invariant: at most `MaxThreads` threads with distinct
      ids, each consistent; every variable and lock state speaks only of
      registered threads; `NumThreads` is one more than the registry size
      once a thread is registered; the gate is never negative. */
  ghost predicate Registry(threads: map<nat, ThreadState>, vars: map<nat, VarState>, locks: map<nat, LockState>,
                           numThreads: nat, isConcurrent: int)
  {
    && |threads| <= MaxThreads
    && DistinctTids(threads)
    && (forall k :: k in threads ==> ThreadOk(threads[k], |threads|))
    && (forall a :: a in vars ==> VarOk(vars[a], |threads|))
    && (forall l :: l in locks ==> WellFormed(locks[l].L))
    && numThreads == (if |threads| == 0 then 0 else |threads| + 1)
    && isConcurrent >= 0
  }

  /** The new entry `Register` inserts for the thread that takes id `tid`. */
  function NewThread(tid: nat): ThreadState
  {
    ThreadState(tid, [], ZeroEpoch(tid) + 1)
  }

  /** The state `Register` gives the thread that takes id `tid` in a
      registry of `tid + 1` threads: a fresh clock whose own slot is ticked. */
  function RegisteredThread(tid: nat): ThreadState
  {
    ThreadState(tid, Fresh(tid + 1)[tid := ZeroEpoch(tid) + 1], ZeroEpoch(tid) + 1)
  }

  /** The thread registry after `getState(id)`: unchanged when `id` is
      registered; otherwise `id` joins as `RegisteredThread` with the next
      index, and `UpdateThreadClocks` grows every earlier clock to the new
      registry size. */
  function Registered(threads: map<nat, ThreadState>, id: nat): (r: map<nat, ThreadState>)
    ensures r.Keys == threads.Keys + {id}
  {
    if id in threads then threads
    else
      (map k | k in threads :: threads[k].(C := GrownClock(threads[k].C, threads[k].tid, |threads| + 1)))
        [id := RegisteredThread(|threads|)]
  }

  /** The registry described entry by entry is `Registered`. */
  lemma RegisteredMap(t0: map<nat, ThreadState>, t1: map<nat, ThreadState>, id: nat)
    requires id !in t0 && t1.Keys == t0.Keys + {id} && t1[id] == RegisteredThread(|t0|)
    requires forall k :: k in t0 ==> t1[k] == t0[k].(C := GrownClock(t0[k].C, t0[k].tid, |t0| + 1))
    ensures t1 == Registered(t0, id)
  {
    var r := Registered(t0, id);
    assert r.Keys == t1.Keys;
    assert forall k :: k in r ==> r[k] == t1[k];
  }

  /** The state `getVarState` creates for an address first accessed by `t`:
      both epochs at `t`'s clock 0, except the one of the access kind, which
      is `t`'s epoch; not racy, no shared read clock. */
  function NewVarState(t: ThreadState, isWrite: bool): VarState
  {
    var z := ZeroEpoch(t.tid);
    VarState(if isWrite then t.epoch else z, if isWrite then z else t.epoch, [], false)
  }

  /** Growing the new entry's empty clock to `m + 1` slots gives the
      registered state, whose own slot already holds its epoch `(m << 24) + 1`. */
  lemma RegisteredEntry(m: nat)
    requires m < MaxThreads
    ensures NewThread(m).(C := GrownClock([], m, m + 1)) == RegisteredThread(m)
    ensures m < |RegisteredThread(m).C| && RegisteredThread(m).C[m := RegisteredThread(m).epoch] == RegisteredThread(m).C
    ensures Tid(RegisteredThread(m).epoch) == m && Clock(RegisteredThread(m).epoch) == 1
  {
    FirstClock(m + 1);
    var c := RegisteredThread(m).C;
    assert c[m := ZeroEpoch(m) + 1] == c;
    EpochParts(m, 1);
  }

  /** After the insertion and `UpdateThreadClocks`, the new entry is
      `RegisteredThread`, its own slot already carrying its epoch, and every
      earlier entry is its old state with a grown clock. */
  lemma InsertedThreadGrown(t0: map<nat, ThreadState>, tIns: map<nat, ThreadState>, tMid: map<nat, ThreadState>,
                             t1: map<nat, ThreadState>, id: nat)
    requires id !in t0 && |t0| < MaxThreads && tIns == t0[id := NewThread(|t0|)]
    requires tMid.Keys == tIns.Keys
    requires forall k :: k in tMid ==> tMid[k] == tIns[k].(C := GrownClock(tIns[k].C, tIns[k].tid, |tIns|))
    requires id in tMid && 0 <= tMid[id].tid < |tMid[id].C|
    requires t1 == tMid[id := tMid[id].(C := tMid[id].C[tMid[id].tid := tMid[id].epoch])]
    ensures t1.Keys == t0.Keys + {id} && |t1| == |t0| + 1
    ensures t1[id] == RegisteredThread(|t0|)
    ensures Tid(t1[id].epoch) == |t0| && Clock(t1[id].epoch) == 1
    ensures forall k :: k in t0 ==> t1[k] == t0[k].(C := GrownClock(t0[k].C, t0[k].tid, |t0| + 1))
    ensures t1 == Registered(t0, id)
  {
    assert |tIns| == |t0| + 1;
    assert |tMid| == |tIns| by {
      assert tMid.Keys == tIns.Keys;
    }
    RegisteredEntry(|t0|);
    assert tIns[id] == NewThread(|t0|);
    forall k | k in t0
      ensures tMid[k] == t0[k].(C := GrownClock(t0[k].C, t0[k].tid, |t0| + 1))
    {
      assert tIns[k] == t0[k];
    }
    assert t1 == tMid;
    RegisteredMap(t0, t1, id);
  }

  /** Variable states speaking of the threads of a registry still do once
      the registry grows. */
  lemma VarsOkInLargerRegistry(vars: map<nat, VarState>, n0: nat, n1: nat)
    requires n0 <= n1 && forall a :: a in vars ==> VarOk(vars[a], n0)
    ensures forall a :: a in vars ==> VarOk(vars[a], n1)
  {
    assert ZeroEpoch(n0) <= ZeroEpoch(n1);
  }

  /** A variable state valid for a registry stays valid as the registry grows. */
  lemma VarOkGrows(v: VarState, n0: nat, n1: nat)
    requires n0 <= n1 && VarOk(v, n0)
    ensures VarOk(v, n1)
  {
    assert ZeroEpoch(n0) <= ZeroEpoch(n1);
  }

  /** The registered state is consistent in a registry of `tid + 1` threads. */
  lemma RegisteredThreadOk(tid: nat)
    requires tid < MaxThreads
    ensures ThreadOk(RegisteredThread(tid), tid + 1)
  {
    FreshWellFormed(tid + 1);
    EpochParts(tid, 1);
  }

  /** After a registration every thread, old or new, is consistent in the
      larger registry; the old threads keep their ids and epochs and their
      clocks only grow. */
  lemma GrownThreadsOk(t0: map<nat, ThreadState>, t1: map<nat, ThreadState>, id: nat)
    requires forall k :: k in t0 ==> ThreadOk(t0[k], |t0|)
    requires id !in t0 && |t0| < MaxThreads && t1.Keys == t0.Keys + {id}
    requires t1[id] == RegisteredThread(|t0|)
    requires forall k :: k in t0 ==> t1[k] == t0[k].(C := GrownClock(t0[k].C, t0[k].tid, |t0| + 1))
    ensures |t1| == |t0| + 1 && t1[id].tid == |t0|
    ensures forall k :: k in t1 ==> ThreadOk(t1[k], |t1|)
    ensures forall k :: k in t0 ==>
      t1[k].tid == t0[k].tid && t1[k].epoch == t0[k].epoch && Below(t0[k].C, t1[k].C)
  {
    var n := |t0| + 1;
    assert |t1| == n by {
      assert t1.Keys == t0.Keys + {id};
    }
    RegisteredThreadOk(|t0|);
    forall k | k in t1
      ensures ThreadOk(t1[k], n) && (k != id ==> Below(t0[k].C, t1[k].C))
    {
      if k != id {
        GrownKeepsThreadOk(t0[k], n);
        GrownClockFacts(t0[k].C, t0[k].tid, n);
      }
    }
  }

  /** The new thread's id, the old registry size, is taken by no old thread,
      so ids stay pairwise different. */
  lemma GrownTidsDistinct(t0: map<nat, ThreadState>, t1: map<nat, ThreadState>, id: nat)
    requires DistinctTids(t0) && forall k :: k in t0 ==> t0[k].tid < |t0|
    requires id !in t0 && t1.Keys == t0.Keys + {id} && t1[id].tid == |t0|
    requires forall k :: k in t0 ==> t1[k].tid == t0[k].tid
    ensures DistinctTids(t1)
  {
    forall k1, k2 | k1 in t1 && k2 in t1 && k1 != k2
      ensures t1[k1].tid != t1[k2].tid
    {
      if k1 != id && k2 != id {
        assert t0[k1].tid != t0[k2].tid;
      }
    }
  }

  /** Registering a thread the way `Register` does keeps the invariant:
      `t0` is the registry before and `t1` after; `t1` holds the new thread
      under `id` and every earlier thread with a grown clock. */
  lemma RegisterKeepsRegistry(t0: map<nat, ThreadState>, t1: map<nat, ThreadState>, id: nat,
                              numThreads: nat, vars: map<nat, VarState>, locks: map<nat, LockState>, isConcurrent: int)
    requires Registry(t0, vars, locks, numThreads, isConcurrent)
    requires id !in t0 && |t0| < MaxThreads && t1.Keys == t0.Keys + {id}
    requires t1[id] == RegisteredThread(|t0|)
    requires forall k :: k in t0 ==> t1[k] == t0[k].(C := GrownClock(t0[k].C, t0[k].tid, |t0| + 1))
    ensures Registry(t1, vars, locks, |t1| + 1, isConcurrent) && |t1| == |t0| + 1
    ensures ThreadOk(t1[id], |t1|) && |t1| <= MaxThreads
    ensures forall k :: k in t0 ==>
      t1[k].tid == t0[k].tid && t1[k].epoch == t0[k].epoch && Below(t0[k].C, t1[k].C)
  {
    GrownThreadsOk(t0, t1, id);
    GrownTidsDistinct(t0, t1, id);
    VarsOkInLargerRegistry(vars, |t0|, |t1|);
  }

  /** Storing a variable state whose epochs belong to registered threads
      keeps the invariant. */
  lemma StoreVarKeepsRegistry(threads: map<nat, ThreadState>, vars: map<nat, VarState>, locks: map<nat, LockState>,
                              numThreads: nat, isConcurrent: int, addr: nat, v: VarState)
    requires Registry(threads, vars, locks, numThreads, isConcurrent) && VarOk(v, |threads|)
    ensures Registry(threads, vars[addr := v], locks, numThreads, isConcurrent)
  {
  }

  /** Storing a consistent state with the same id under a registered key
      keeps the invariant. */
  lemma StoreThreadKeepsRegistry(threads: map<nat, ThreadState>, vars: map<nat, VarState>, locks: map<nat, LockState>,
                                 numThreads: nat, isConcurrent: int, k: nat, t: ThreadState)
    requires Registry(threads, vars, locks, numThreads, isConcurrent)
    requires k in threads && ThreadOk(t, |threads|) && t.tid == threads[k].tid
    ensures Registry(threads[k := t], vars, locks, numThreads, isConcurrent)
  {
    assert |threads[k := t]| == |threads|;
  }

  /** Storing two consistent states with their ids under two registered
      keys, and any gate that is not negative, keeps the invariant. */
  lemma StorePairKeepsRegistry(threads: map<nat, ThreadState>, vars: map<nat, VarState>, locks: map<nat, LockState>,
                               numThreads: nat, isConcurrent: int, k1: nat, t1: ThreadState, k2: nat, t2: ThreadState, gate: int)
    requires Registry(threads, vars, locks, numThreads, isConcurrent) && gate >= 0 && k1 != k2
    requires k1 in threads && ThreadOk(t1, |threads|) && t1.tid == threads[k1].tid
    requires k2 in threads && ThreadOk(t2, |threads|) && t2.tid == threads[k2].tid
    ensures Registry(threads[k1 := t1][k2 := t2], vars, locks, numThreads, gate)
    ensures threads[k1 := t1][k2 := t2].Keys == threads.Keys
  {
    StoreThreadKeepsRegistry(threads, vars, locks, numThreads, isConcurrent, k1, t1);
    StoreThreadKeepsRegistry(threads[k1 := t1], vars, locks, numThreads, isConcurrent, k2, t2);
  }

  /** Storing a well-formed lock clock keeps the invariant. */
  lemma StoreLockKeepsRegistry(threads: map<nat, ThreadState>, vars: map<nat, VarState>, locks: map<nat, LockState>,
                               numThreads: nat, isConcurrent: int, lock: nat, ls: LockState)
    requires Registry(threads, vars, locks, numThreads, isConcurrent) && WellFormed(ls.L)
    ensures Registry(threads, vars, locks[lock := ls], numThreads, isConcurrent)
  {
  }

  /** The first-use branch of `getState` as written, up to
      `UpdateThreadClocks`: the new entry takes the registry size after the
      insertion as its id, one more than the number of threads registered
      before, and its empty clock grows with every other to that size. */
  function SourceRegistered(threads: map<nat, ThreadState>, id: nat): map<nat, ThreadState>
    requires id !in threads
  {
    var n := |threads| + 1;
    var st := ThreadState(n, [], ZeroEpoch(n) + 1);
    (map k | k in threads :: threads[k].(C := GrownClock(threads[k].C, threads[k].tid, n)))
      [id := st.(C := GrownClock([], n, n))]
  }

  /** As written, the new thread's clock has no slot at its id: the write
      of the epoch into `C[tid]` that follows is one past the end, for every
      registration. The first thread gets id 1 and a clock of one slot. */
  lemma SourceTidOutOfRange(threads: map<nat, ThreadState>, id: nat)
    requires id !in threads
    ensures var st := SourceRegistered(threads, id)[id];
      st.tid == |st.C| == |threads| + 1 && !st.Consistent()
    ensures threads == map[] ==> SourceRegistered(threads, id)[id].tid == 1
  {
    GrownClockFacts([], |threads| + 1, |threads| + 1);
  }

  /** The detector's global state. */
  class Runtime {
    var threads: map<nat, ThreadState>   // TS.C
    var vars: map<nat, VarState>         // VS.Vstates
    var locks: map<nat, LockState>       // LS.L
    var numThreads: nat                  // NumThreads
    var isConcurrent: int                // isConcurrent
    var readCount: nat                   // VS.reads
    var writeCount: nat                  // VS.writes

    ghost predicate Valid()
      reads this`threads, this`vars, this`locks, this`numThreads, this`isConcurrent
    {
      Registry(threads, vars, locks, numThreads, isConcurrent)
    }

    /** Process start: empty registries, the gate closed. */
    constructor ()
      ensures Valid()
      ensures threads == map[] && vars == map[] && locks == map[]
      ensures numThreads == 0 && isConcurrent == 0 && readCount == 0 && writeCount == 0
    {
      threads, vars, locks := map[], map[], map[];
      numThreads, isConcurrent, readCount, writeCount := 0, 0, 0, 0;
    }

    /** `UpdateThreadClocks`: grow every registered clock to the registry size. */
    method UpdateThreadClocks()
      modifies this`threads
      ensures threads.Keys == old(threads.Keys)
      ensures forall k :: k in threads ==>
        threads[k] == old(threads[k]).(C := GrownClock(old(threads[k].C), old(threads[k].tid), |threads|))
    {
      var nThreads := |threads|;
      var todo := threads.Keys;
      while todo != {}
        invariant todo <= threads.Keys && threads.Keys == old(threads.Keys)
        invariant forall k :: k in threads && k !in todo ==>
          threads[k] == old(threads[k]).(C := GrownClock(old(threads[k].C), old(threads[k].tid), nThreads))
        invariant forall k :: k in todo ==> threads[k] == old(threads[k])
        decreases todo
      {
        var key :| key in todo;
        var t := threads[key];
        var c := t.C;
        var idx := |c|;
        while idx < nThreads
          invariant |t.C| <= idx && (idx <= nThreads || idx == |t.C|)
          invariant c == GrownClock(t.C, t.tid, idx)
        {
          var epoch := ZeroEpoch(idx);
          if t.tid == idx {
            epoch := epoch + 1;
          }
          c := c + [epoch];
          idx := idx + 1;
        }
        threads := threads[key := t.(C := c)];
        todo := todo - {key};
      }
    }

    /** `getState`: the state registered under `id`, created on first use
        by `Register`. A known id returns its entry and changes nothing. */
    method GetState(id: nat) returns (st: ThreadState)
      requires Valid()
      requires id in threads || |threads| < MaxThreads
      modifies this`threads, this`numThreads
      ensures Valid()
      ensures id in threads && st == threads[id]
      ensures ThreadOk(st, |threads|) && |old(threads)| <= |threads| <= MaxThreads
      ensures unchanged(this`vars, this`locks)
      ensures threads == Registered(old(threads), id)
      ensures id in old(threads) ==> numThreads == old(numThreads)
      ensures id !in old(threads) ==>
        st == RegisteredThread(|old(threads)|) && Tid(st.epoch) == st.tid && Clock(st.epoch) == 1
      ensures forall k :: k in old(threads) ==>
        threads[k].tid == old(threads[k].tid) && threads[k].epoch == old(threads[k].epoch) && Below(old(threads[k].C), threads[k].C)
    {
      if id in threads {
        st := threads[id];
      } else {
        st := Register(id);
      }
    }

    /** The first-use branch of `getState`: the new thread is registered
        under `id` with a fresh clock whose own slot is ticked; the threads
        registered before keep their ids and epochs and their clocks only
        grow; the invariant is kept. */
    method Register(id: nat) returns (st: ThreadState)
      requires Valid()
      requires id !in threads && |threads| < MaxThreads
      modifies this`threads, this`numThreads
      ensures Valid() && unchanged(this`vars, this`locks)
      ensures ThreadOk(st, |threads|) && |threads| <= MaxThreads
      ensures threads == Registered(old(threads), id)
      ensures st == threads[id] && st == RegisteredThread(|old(threads)|)
      ensures Tid(st.epoch) == st.tid && Clock(st.epoch) == 1
      ensures forall k :: k in old(threads) ==>
        threads[k].tid == old(threads[k].tid) && threads[k].epoch == old(threads[k].epoch) && Below(old(threads[k].C), threads[k].C)
    {
      ghost var t0, n0 := threads, numThreads;
      st := InsertThread(id);
      RegisterKeepsRegistry(t0, threads, id, n0, vars, locks, isConcurrent);
    }

    /** The insertion `getState` does on first use: the new thread takes
        the next free index as its id (the source takes one more, see
        `SourceTidOutOfRange`) and the epoch `(tid << 24) + 1`; every
        registered clock, its own included, grows to the new registry size
        and its own slot holds its epoch; `NumThreads` ends one above the
        registry size. */
    method InsertThread(id: nat) returns (st: ThreadState)
      requires id !in threads && |threads| < MaxThreads
      modifies this`threads, this`numThreads
      ensures unchanged(this`vars, this`locks)
      ensures threads.Keys == old(threads.Keys) + {id} && |threads| == |old(threads)| + 1
      ensures st == threads[id] && st == RegisteredThread(|old(threads)|)
      ensures Tid(st.epoch) == st.tid && Clock(st.epoch) == 1
      ensures forall k :: k in old(threads) ==>
        threads[k] == old(threads[k]).(C := GrownClock(old(threads[k].C), old(threads[k].tid), |old(threads)| + 1))
      ensures threads == Registered(old(threads), id)
      ensures numThreads == |threads| + 1
    {
      ghost var t0 := threads;
      var tid := |threads|;
      threads := threads[id := NewThread(tid)];
      numThreads := |threads|;
      ghost var tIns := threads;
      UpdateThreadClocks();
      ghost var tMid := threads;
      st := threads[id];
      st := st.(C := st.C[st.tid := st.epoch]);
      threads := threads[id := st];
      InsertedThreadGrown(t0, tIns, tMid, threads, id);
      numThreads := |threads| + 1;
    }

    /** `getVarState`: the state of address `addr`, created on first use by
        thread `self`; a new state has both epochs at `tid << 24` except the
        one of the triggering access kind, which is the thread's epoch. */
    method GetVarState(addr: nat, isWrite: bool, self: nat) returns (v: VarState)
      requires Valid()
      requires self in threads || |threads| < MaxThreads
      modifies this`threads, this`numThreads, this`vars
      ensures Valid()
      ensures addr in vars && v == vars[addr] && VarOk(v, |threads|)
      ensures threads == if addr in old(vars) then old(threads) else Registered(old(threads), self)
      ensures addr in old(vars) || self in old(threads) ==> numThreads == old(numThreads)
      ensures vars == old(vars)[addr := v]
      ensures v == if addr in old(vars) then old(vars[addr]) else NewVarState(threads[self], isWrite)
    {
      if addr !in vars {
        var t := GetState(self);
        v := VarState(ZeroEpoch(t.tid), ZeroEpoch(t.tid), [], false);
        if isWrite {
          v := v.(W := t.epoch);
        } else {
          v := v.(R := t.epoch);
        }
        EpochBelowRegistry(t, |threads|);
        StoreVarKeepsRegistry(threads, vars, locks, numThreads, isConcurrent, addr, v);
        vars := vars[addr := v];
      } else {
        v := vars[addr];
        assert vars == vars[addr := v];
      }
    }

    /** `getLockState`: the state of lock `lock`, created on first use with
        a fresh clock of `NumThreads` slots. */
    method GetLockState(lock: nat) returns (ls: LockState)
      requires Valid()
      modifies this`locks
      ensures Valid()
      ensures lock in locks && ls == locks[lock]
      ensures lock in old(locks) ==> ls == old(locks[lock]) && locks == old(locks)
      ensures lock !in old(locks) ==>
        && locks == old(locks)[lock := ls] && ls.L == Fresh(numThreads)
        && |ls.L| == numThreads && forall i :: 0 <= i < numThreads ==> ls.L[i] == ZeroEpoch(i)
    {
      if lock !in locks {
        var L := NewVectorClock([], numThreads);
        ls := LockState(L);
        FreshWellFormed(numThreads);
        StoreLockKeepsRegistry(threads, vars, locks, numThreads, isConcurrent, lock, ls);
        locks := locks[lock := ls];
      } else {
        ls := locks[lock];
      }
    }

    /** Writing back a variable state the callbacks changed through their
        reference; the epochs it holds must belong to registered threads. */
    method StoreVar(addr: nat, v: VarState)
      requires Valid() && VarOk(v, |threads|)
      modifies this`vars
      ensures Valid() && vars == old(vars)[addr := v]
    {
      StoreVarKeepsRegistry(threads, vars, locks, numThreads, isConcurrent, addr, v);
      vars := vars[addr := v];
    }

    /** Writing back the state of registered thread `id`, which keeps its
        id and stays consistent. */
    method StoreThread(id: nat, t: ThreadState)
      requires Valid() && id in threads && ThreadOk(t, |threads|) && t.tid == threads[id].tid
      modifies this`threads
      ensures Valid() && threads == old(threads)[id := t] && |threads| == |old(threads)|
    {
      StoreThreadKeepsRegistry(threads, vars, locks, numThreads, isConcurrent, id, t);
      threads := threads[id := t];
    }

    /** Writing back the thread and the lock a lock callback changed. */
    method StoreThreadLock(id: nat, t: ThreadState, lock: nat, ls: LockState)
      requires Valid() && id in threads && ThreadOk(t, |threads|) && t.tid == threads[id].tid && WellFormed(ls.L)
      modifies this`threads, this`locks
      ensures Valid() && threads == old(threads)[id := t] && locks == old(locks)[lock := ls]
      ensures threads.Keys == old(threads.Keys)
    {
      StoreThreadKeepsRegistry(threads, vars, locks, numThreads, isConcurrent, id, t);
      threads := threads[id := t];
      StoreLockKeepsRegistry(threads, vars, locks, numThreads, isConcurrent, lock, ls);
      locks := locks[lock := ls];
    }

    /** Writing back the two threads and the gate a fork or join callback
        changed. */
    method StoreThreadPair(id1: nat, t1: ThreadState, id2: nat, t2: ThreadState, gate: int)
      requires Valid() && id1 != id2 && id1 in threads && id2 in threads && gate >= 0
      requires ThreadOk(t1, |threads|) && t1.tid == threads[id1].tid
      requires ThreadOk(t2, |threads|) && t2.tid == threads[id2].tid
      modifies this`threads, this`isConcurrent
      ensures Valid() && threads == old(threads)[id1 := t1][id2 := t2] && isConcurrent == gate
      ensures threads[id1] == t1 && threads[id2] == t2
      ensures threads.Keys == old(threads.Keys)
    {
      ghost var t0, g0 := threads, isConcurrent;
      threads, isConcurrent := threads[id1 := t1][id2 := t2], gate;
      StorePairKeepsRegistry(t0, vars, locks, numThreads, g0, id1, t1, id2, t2, gate);
    }

    /** Writing back the state of lock `lock` with a well-formed clock. */
    method StoreLock(lock: nat, ls: LockState)
      requires Valid() && WellFormed(ls.L)
      modifies this`locks
      ensures Valid() && locks == old(locks)[lock := ls]
    {
      StoreLockKeepsRegistry(threads, vars, locks, numThreads, isConcurrent, lock, ls);
      locks := locks[lock := ls];
    }
  }
}
