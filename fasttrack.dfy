/** The FastTrack transitions (etsan/fasttrack.h). Each one takes the states
    the source receives by reference and returns their new values; the
    statistics counters and the concurrency gate it bumps are passed in and
    returned as well. `ft_read` and `ft_write` answer whether this call
    detected a race. */
module FastTrack {
  import opened Epochs
  import opened VectorClocks
  import opened Defs

  /** The dominance test of both `ft_read` and `ft_write`: epoch `e` is
      ordered before thread `t` when it is `t`'s own, or when its clock is
      at most what `t` knows of its owner. */
  predicate Visible(e: int, t: ThreadState)
  {
    Tid(e) == t.tid || (Tid(e) < |t.C| && Clock(e) <= Clock(t.C[Tid(e)]))
  }

  /** The dominance test only reads `t.C` at an owner other than `t`. */
  predicate Testable(e: int, t: ThreadState)
  {
    Tid(e) == t.tid || Tid(e) < |t.C|
  }

  /** Every shared reader's epoch is at most `C`'s, over the slots both have. */
  predicate ReadersVisible(Rvc: seq<int>, C: seq<int>)
  {
    forall u :: 0 <= u < |Rvc| && u < |C| ==> Rvc[u] <= C[u]
  }

  /** The race condition of `ft_write` on a state that is not yet racy. */
  predicate WriteRaces(x: VarState, t: ThreadState)
  {
    || !Visible(x.W, t)
    || (x.R != ReadShared && !Visible(x.R, t))
    || (x.R == ReadShared && !ReadersVisible(x.Rvc, t.C))
  }

  /** The read state holds `t`'s epoch: as the exclusive reader, or in
      `t`'s slot of the shared read clock. */
  predicate ReadRecorded(x: VarState, t: ThreadState)
  {
    x.R == t.epoch || (x.R == ReadShared && 0 <= t.tid < |x.Rvc| && x.Rvc[t.tid] == t.epoch)
  }

  /** Slot `i` of the read clock set to `e`, the clock first grown with
      fresh epochs when it is too short (see `SourceReadSlotOutOfRange`). */
  function SetSlot(v: seq<int>, i: nat, e: int): (r: seq<int>)
    ensures |r| == if i < |v| then |v| else i + 1
    ensures r[i] == e
    ensures forall j :: 0 <= j < |v| && j != i ==> r[j] == v[j]
    ensures forall j :: |v| <= j < |r| && j != i ==> r[j] == ZeroEpoch(j)
  {
    Extended(v, i + 1)[i := e]
  }

  /** What `ft_read` needs of its operands: a thread id that is not
      negative, and owners of the epochs it compares that have a slot in
      `t`'s clock. */
  predicate ReadTestable(x: VarState, t: ThreadState)
  {
    && 0 <= t.tid
    && (!x.Racy && x.R != t.epoch ==>
          Testable(x.W, t) && (Visible(x.W, t) && x.R != ReadShared ==> Tid(x.R) < |t.C|))
  }

  /** What `ft_write` needs of its operands: owners of the epochs it
      compares that have a slot in `t`'s clock. */
  predicate WriteTestable(x: VarState, t: ThreadState)
  {
    !x.Racy && x.W != t.epoch ==>
      Testable(x.W, t) && (Visible(x.W, t) && x.R != ReadShared ==> Testable(x.R, t))
  }

  /** The variable state `ft_read` leaves, as a function of its operands
      (`FtRead` computes it; `numThreads` sizes a new shared read clock). */
  function ReadEffect(x: VarState, t: ThreadState, numThreads: nat): VarState
    requires ReadTestable(x, t)
  {
    if x.Racy || x.R == t.epoch then x
    else if !Visible(x.W, t) then x.(Racy := true)
    else if x.R == ReadShared then x.(Rvc := SetSlot(x.Rvc, t.tid, t.epoch))
    else if x.R <= t.C[Tid(x.R)] then x.(R := t.epoch)
    else x.(R := ReadShared,
            Rvc := SetSlot(SetSlot(if x.Rvc == [] then Fresh(numThreads) else x.Rvc, Tid(x.R), x.R), t.tid, t.epoch))
  }

  /** The variable state `ft_write` leaves, as a function of its operands
      (`FtWrite` computes it). */
  function WriteEffect(x: VarState, t: ThreadState): VarState
    requires WriteTestable(x, t)
  {
    if x.Racy || x.W == t.epoch then x
    else if WriteRaces(x, t) then x.(Racy := true)
    else x.(W := t.epoch, R := if x.R == ReadShared then ZeroEpoch(Tid(t.epoch)) else x.R)
  }

  /** `ft_read`: the read of `x` by `t`. After the fast paths (racy state,
      same epoch) it reports a write-read race when the last write is not
      visible to `t`, latching `Racy` and leaving the read state alone;
      otherwise it records the read: into `Rvc` in shared mode, as the new
      `R` when the last read is visible, else by switching to shared mode
      with both readers in `Rvc`. */
  method FtRead(x: VarState, t: ThreadState, numThreads: nat, readCount: nat) returns (racy: bool, x': VarState, readCount': nat)
    requires ReadTestable(x, t)
    ensures readCount' == readCount + 1
    ensures x' == ReadEffect(x, t, numThreads)
    ensures x.Racy || x.R == t.epoch ==> !racy && x' == x
    ensures !x.Racy && x.R != t.epoch ==> (racy <==> !Visible(x.W, t))
    ensures racy ==> x' == x.(Racy := true)
    ensures !racy && !x.Racy && x.R != t.epoch && x.R == ReadShared ==>
      x' == x.(Rvc := SetSlot(x.Rvc, t.tid, t.epoch))
    ensures !racy && !x.Racy && x.R != t.epoch && x.R != ReadShared && x.R <= t.C[Tid(x.R)] ==>
      x' == x.(R := t.epoch)
    ensures !racy && !x.Racy && x.R != t.epoch && x.R != ReadShared && x.R > t.C[Tid(x.R)] ==>
      x' == x.(R := ReadShared,
               Rvc := SetSlot(SetSlot(if x.Rvc == [] then Fresh(numThreads) else x.Rvc, Tid(x.R), x.R), t.tid, t.epoch))
    ensures x'.Racy <==> x.Racy || racy
    ensures x'.W == x.W && (x'.R == x.R || x'.R == t.epoch || x'.R == ReadShared)
    ensures !x.Racy && !racy ==> ReadRecorded(x', t)
  {
    readCount' := readCount + 1;
    x' := x;
    racy := false;
    if x.Racy || x.R == t.epoch {
      return;
    }
    if Tid(x.W) != t.tid && Clock(x.W) > Clock(t.C[Tid(x.W)]) {
      x' := x'.(Racy := true);
      racy := true;
      return;
    }
    if x.R == ReadShared {
      x' := x'.(Rvc := SetSlot(x'.Rvc, t.tid, t.epoch));
    } else if x.R <= t.C[Tid(x.R)] {
      x' := x'.(R := t.epoch);
    } else {
      var rvc := x'.Rvc;
      if |rvc| == 0 {
        rvc := NewVectorClock(rvc, numThreads);
      }
      rvc := SetSlot(rvc, Tid(x.R), x.R);
      rvc := SetSlot(rvc, t.tid, t.epoch);
      x' := x'.(Rvc := rvc, R := ReadShared);
    }
  }

  /** As written, `ft_read` stores into `Rvc[t.tid]` and `Rvc[TID(R)]`
      without growing `Rvc`: the indices it writes lie inside `Rvc` (the one
      just allocated when it was empty). */
  predicate SourceReadSlotsInRange(x: VarState, t: ThreadState, numThreads: nat)
  {
    var rvc := if x.R != ReadShared && x.Rvc == [] then Fresh(numThreads) else x.Rvc;
    0 <= t.tid < |rvc| && (x.R != ReadShared ==> Tid(x.R) < |rvc|)
  }

  /** A state the registry allows where the source writes out of range:
      `Rvc` was allocated with three slots while two threads were
      registered; the thread with id 3, registered later, then reads the
      shared variable, and `Rvc[3]` is past the end. */
  lemma SourceReadSlotOutOfRange()
    ensures var x := VarState(ZeroEpoch(1), ReadShared, Fresh(3), false);
            var t := RegisteredThread(3);
            && VarOk(x, 4) && ThreadOk(t, 4) && Visible(x.W, t) && x.R != t.epoch
            && !SourceReadSlotsInRange(x, t, 5)
  {
    RegisteredThreadOk(3);
    EpochParts(1, 0);
    EpochParts(3, 1);
  }

  /** `ft_write`: the write of `x` by `t`. After the fast paths (racy
      state, same epoch) it reports a race when the last write, the last
      exclusive read, or any shared read is not visible to `t`, latching
      `Racy` and leaving `W` alone; otherwise `W` becomes `t`'s epoch and a
      shared read mode falls back to the writer's epoch at clock 0. */
  method FtWrite(x: VarState, t: ThreadState, writeCount: nat) returns (racy: bool, x': VarState, writeCount': nat)
    requires WriteTestable(x, t)
    ensures writeCount' == writeCount + 1
    ensures x' == WriteEffect(x, t)
    ensures x.Racy || x.W == t.epoch ==> !racy && x' == x
    ensures !x.Racy && x.W != t.epoch ==> (racy <==> WriteRaces(x, t))
    ensures racy ==> x' == x.(Racy := true)
    ensures !racy && !x.Racy && x.W != t.epoch ==>
      x' == x.(W := t.epoch, R := if x.R == ReadShared then ZeroEpoch(Tid(t.epoch)) else x.R)
    ensures x'.Racy <==> x.Racy || racy
    ensures x'.Rvc == x.Rvc
    ensures (x'.W == x.W || x'.W == t.epoch) && (x'.R == x.R || x'.R == ZeroEpoch(Tid(t.epoch)))
    ensures !x.Racy && !racy ==> x'.W == t.epoch
  {
    writeCount' := writeCount + 1;
    x' := x;
    racy := false;
    if x.Racy || x.W == t.epoch {
      return;
    }
    if Tid(x.W) != t.tid && Clock(x.W) > Clock(t.C[Tid(x.W)]) {
      x' := x'.(Racy := true);
      racy := true;
      return;
    }
    if x.R != ReadShared {
      if Tid(x.R) != t.tid && Clock(x.R) > Clock(t.C[Tid(x.R)]) {
        x' := x'.(Racy := true);
        racy := true;
        return;
      }
    } else {
      var bound := if |x.Rvc| < |t.C| then |x.Rvc| else |t.C|;
      var u := 0;
      while u < bound
        invariant 0 <= u <= bound
        invariant forall v :: 0 <= v < u ==> x.Rvc[v] <= t.C[v]
      {
        if x.Rvc[u] > t.C[u] {
          x' := x'.(Racy := true);
          racy := true;
          return;
        }
        u := u + 1;
      }
      x' := x'.(R := ZeroEpoch(Tid(t.epoch)));
    }
    x' := x'.(W := t.epoch);
  }

  /** Thread `t` after it learns everything clock `L` holds, as `ft_acquire`
      does with a lock's clock and `ft_fork`/`ft_join` with the other
      thread's: both clocks grown to the longer length, the elementwise
      maximum, and the epoch refreshed from the thread's own slot. */
  function Joined(t: ThreadState, L: seq<int>): (t': ThreadState)
    requires 0 <= t.tid && (t.tid < |t.C| || t.tid < |L|)
    ensures t'.tid == t.tid && t'.Consistent()
    ensures |t'.C| == if |t.C| < |L| then |L| else |t.C|
    ensures Below(t.C, t'.C) && Below(L, t'.C)
  {
    ExtendedFacts(t.C, |L|);
    ExtendedFacts(L, |t.C|);
    var C := JoinMax(Extended(t.C, |L|), Extended(L, |t.C|));
    JoinMaxIsLeastUpperBound(Extended(t.C, |L|), Extended(L, |t.C|), C);
    BelowTransitive(t.C, Extended(t.C, |L|), C);
    BelowTransitive(L, Extended(L, |t.C|), C);
    ThreadState(t.tid, C, C[t.tid])
  }

  /** Thread `t` after its epoch ticks in its own slot, its clock first
      grown to `n` slots, as `ft_release`, `ft_fork` (for the parent) and
      `ft_join` (for the child) leave it. */
  function Ticked(t: ThreadState, n: nat): (t': ThreadState)
    requires 0 <= t.tid && (t.tid < |t.C| || t.tid < n)
    ensures t'.tid == t.tid && t'.epoch == t.epoch + 1 && t'.Consistent()
    ensures |t'.C| == if n <= |t.C| then |t.C| else n
    ensures forall i :: 0 <= i < |t.C| && i != t.tid ==> t'.C[i] == t.C[i]
  {
    ExtendedFacts(t.C, n);
    ThreadState(t.tid, Extended(t.C, n)[t.tid := t.epoch + 1], t.epoch + 1)
  }

  /** The join loop shared by `ft_acquire`, `ft_fork` and `ft_join`:
      `a[i] := max(a[i], b[i])` for every slot. */
  method JoinLoop(a: seq<int>, b: seq<int>) returns (r: seq<int>)
    requires |a| == |b|
    ensures r == JoinMax(a, b)
  {
    r := a;
    var i := 0;
    while i < |b|
      invariant 0 <= i <= |b| && |r| == |a|
      invariant forall j :: 0 <= j < i ==> r[j] == JoinMax(a, b)[j]
      invariant forall j :: i <= j < |r| ==> r[j] == a[j]
    {
      r := r[i := if r[i] < b[i] then b[i] else r[i]];
      i := i + 1;
    }
  }

  /** `ft_acquire`: both clocks grow to the longer length, the thread's
      clock becomes the elementwise maximum with the lock's, and the epoch
      is refreshed. Afterwards the thread knows all the lock's last
      releaser knew. */
  method FtAcquire(t: ThreadState, lock: LockState) returns (t': ThreadState, lock': LockState)
    requires 0 <= t.tid && (t.tid < |t.C| || t.tid < |lock.L|)
    ensures lock'.L == Extended(lock.L, |t.C|)
    ensures t'.tid == t.tid && t'.C == JoinMax(Extended(t.C, |lock.L|), lock'.L) && t'.Consistent()
    ensures t' == Joined(t, lock.L)
    ensures Below(t.C, t'.C) && Below(lock.L, t'.C) && Below(lock'.L, t'.C)
  {
    var C0, L := ExtendVectorClocks(t.C, lock.L);
    var C := JoinLoop(C0, L);
    lock' := LockState(L);
    t' := t.(C := C).UpdateEpoch();
    assert t' == Joined(t, lock.L);
    ExtendedFacts(lock.L, |t.C|);
  }

  /** `ft_release`: both clocks grow to the longer length, the lock's clock
      becomes a copy of the thread's, and the thread's epoch ticks. */
  method FtRelease(t: ThreadState, lock: LockState) returns (t': ThreadState, lock': LockState)
    requires 0 <= t.tid && (t.tid < |t.C| || t.tid < |lock.L|)
    ensures lock'.L == Extended(t.C, |lock.L|)
    ensures t'.tid == t.tid && t'.epoch == t.epoch + 1 && t'.C == lock'.L[t.tid := t.epoch + 1]
    ensures t'.Consistent() && Below(t.C, lock'.L)
    ensures t' == Ticked(t, |lock.L|)
  {
    var C, L := ExtendVectorClocks(t.C, lock.L);
    var i := 0;
    while i < |L|
      invariant 0 <= i <= |L| == |C|
      invariant forall j :: 0 <= j < i ==> L[j] == C[j]
    {
      L := L[i := C[i]];
      i := i + 1;
    }
    assert L == C;
    lock' := LockState(L);
    t' := t.(C := C).Increment();
    ExtendedFacts(t.C, |lock.L|);
  }

  /** `ft_fork`: the gate opens one step; the child's clock becomes the
      elementwise maximum with the parent's and its epoch is refreshed;
      then the parent's epoch ticks. The child knows all the parent knew. */
  method FtFork(gate: int, t: ThreadState, u: ThreadState) returns (gate': int, t': ThreadState, u': ThreadState)
    requires 0 <= t.tid && (t.tid < |t.C| || t.tid < |u.C|) && 0 <= u.tid && (u.tid < |u.C| || u.tid < |t.C|)
    ensures gate' == gate + 1
    ensures u'.tid == u.tid && u'.C == JoinMax(Extended(u.C, |t.C|), Extended(t.C, |u.C|)) && u'.Consistent()
    ensures t'.tid == t.tid && t'.epoch == t.epoch + 1 && t'.C == Extended(t.C, |u.C|)[t.tid := t.epoch + 1]
    ensures t'.Consistent() && Below(t.C, u'.C) && Below(u.C, u'.C)
    ensures t' == Ticked(t, |u.C|) && u' == Joined(u, t.C)
  {
    gate' := gate + 1;
    var T, U0 := ExtendVectorClocks(t.C, u.C);
    var U := JoinLoop(U0, T);
    u' := u.(C := U).UpdateEpoch();
    t' := t.(C := T).Increment();
    assert u' == Joined(u, t.C);
  }

  /** `ft_join`: the gate closes one step unless already closed; the
      parent's clock becomes the elementwise maximum with the child's and
      its epoch is refreshed; then the child's epoch ticks. The parent
      knows all the child knew. */
  method FtJoin(gate: int, t: ThreadState, u: ThreadState) returns (gate': int, t': ThreadState, u': ThreadState)
    requires 0 <= t.tid && (t.tid < |t.C| || t.tid < |u.C|) && 0 <= u.tid && (u.tid < |u.C| || u.tid < |t.C|)
    ensures gate' == if gate != 0 then gate - 1 else gate
    ensures gate >= 0 ==> gate' >= 0
    ensures t'.tid == t.tid && t'.C == JoinMax(Extended(t.C, |u.C|), Extended(u.C, |t.C|)) && t'.Consistent()
    ensures u'.tid == u.tid && u'.epoch == u.epoch + 1 && u'.C == Extended(u.C, |t.C|)[u.tid := u.epoch + 1]
    ensures u'.Consistent() && Below(u.C, t'.C) && Below(t.C, t'.C)
    ensures t' == Joined(t, u.C) && u' == Ticked(u, |t.C|)
  {
    gate' := gate;
    if gate' != 0 {
      gate' := gate' - 1;
    }
    var T0, U := ExtendVectorClocks(t.C, u.C);
    var T := JoinLoop(T0, U);
    t' := t.(C := T).UpdateEpoch();
    u' := u.(C := U).Increment();
    assert t' == Joined(t, u.C);
  }

  /** On registry states the `CLOCK` test of `Visible` is the comparison of
      whole epochs that the exclusive-read test and the shared-read loop
      use: another registered thread's epoch is visible to `t` exactly when
      it is at most `t`'s slot for its owner. */
  lemma VisibleIffNotAhead(e: int, t: ThreadState, n: nat)
    requires ThreadOk(t, n) && n <= MaxThreads && 0 <= e < ZeroEpoch(n)
    ensures Tid(e) < |t.C|
    ensures Visible(e, t) <==> Tid(e) == t.tid || e <= t.C[Tid(e)]
  {
    TidBelow(e, n);
    var o := Tid(e);
    OwnedByParts(e, o);
    assert OwnedBy(t.C[o], o);
    OwnedByParts(t.C[o], o);
  }

  /** On registry states `ft_write` races exactly when some access the
      variable remembers, of another thread, is ahead of the writer's slot
      for that thread: the last write, the exclusive last read, or a shared
      reader over the slots both clocks have. */
  lemma WriteRacesIffAhead(x: VarState, t: ThreadState, n: nat)
    requires VarOk(x, n) && ThreadOk(t, n) && n <= MaxThreads
    ensures Tid(x.W) < |t.C| && (x.R != ReadShared ==> Tid(x.R) < |t.C|)
    ensures WriteRaces(x, t) <==>
      || (Tid(x.W) != t.tid && x.W > t.C[Tid(x.W)])
      || (x.R != ReadShared && Tid(x.R) != t.tid && x.R > t.C[Tid(x.R)])
      || (x.R == ReadShared && exists u :: 0 <= u < |x.Rvc| && u < |t.C| && x.Rvc[u] > t.C[u])
  {
    VisibleIffNotAhead(x.W, t, n);
    if x.R != ReadShared {
      VisibleIffNotAhead(x.R, t, n);
    }
  }

  /** In a registry of `n` threads, the epochs a variable state holds have
      owners the thread's clock covers, and a thread's epoch is its own. */
  lemma RegisteredAccessInRange(x: VarState, t: ThreadState, n: nat)
    requires VarOk(x, n) && ThreadOk(t, n) && n <= MaxThreads
    ensures Tid(x.W) < |t.C| && (x.R != ReadShared ==> Tid(x.R) < |t.C|)
    ensures Tid(t.epoch) == t.tid
  {
    TidBelow(x.W, n);
    if x.R != ReadShared {
      TidBelow(x.R, n);
    }
    assert OwnedBy(t.C[t.tid], t.tid);
    OwnedByParts(t.epoch, t.tid);
  }

  /** A read keeps the variable's epochs among the registered threads'. */
  lemma ReadKeepsVarOk(x: VarState, x': VarState, t: ThreadState, n: nat)
    requires VarOk(x, n) && ThreadOk(t, n)
    requires x'.W == x.W && (x'.R == x.R || x'.R == t.epoch || x'.R == ReadShared)
    ensures VarOk(x', n)
  {
    EpochBelowRegistry(t, n);
  }

  /** A write keeps the variable's epochs among the registered threads'. */
  lemma WriteKeepsVarOk(x: VarState, x': VarState, t: ThreadState, n: nat)
    requires VarOk(x, n) && ThreadOk(t, n) && n <= MaxThreads
    requires (x'.W == x.W || x'.W == t.epoch) && (x'.R == x.R || x'.R == ZeroEpoch(Tid(t.epoch)))
    ensures VarOk(x', n)
  {
    EpochBelowRegistry(t, n);
    assert OwnedBy(t.C[t.tid], t.tid);
    OwnedByParts(t.epoch, t.tid);
  }

  /** Joining a registered thread's clock with a well-formed clock, as
      `ft_acquire`, `ft_fork` and `ft_join` do, keeps it consistent. */
  lemma JoinKeepsThreadOk(t: ThreadState, other: seq<int>, t': ThreadState, n: nat)
    requires ThreadOk(t, n) && WellFormed(other)
    requires t'.tid == t.tid && t'.C == JoinMax(Extended(t.C, |other|), Extended(other, |t.C|)) && t'.Consistent()
    ensures ThreadOk(t', n)
  {
    ExtendedFacts(t.C, |other|);
    ExtendedFacts(other, |t.C|);
    JoinMaxWellFormed(Extended(t.C, |other|), Extended(other, |t.C|));
  }

  /** Ticking a registered thread whose clock is not saturated, as
      `ft_release`, `ft_fork` and `ft_join` do, keeps it consistent: the new
      epoch still carries the thread's own id. */
  lemma TickKeepsThreadOk(t: ThreadState, m: int, t': ThreadState, n: nat)
    requires ThreadOk(t, n) && n <= MaxThreads && Clock(t.epoch) < MaxClock
    requires t'.tid == t.tid && t'.epoch == t.epoch + 1 && t'.C == Extended(t.C, m)[t.tid := t.epoch + 1]
    ensures ThreadOk(t', n)
  {
    ExtendedFacts(t.C, m);
    assert OwnedBy(t.C[t.tid], t.tid);
    OwnedByParts(t.epoch, t.tid);
  }

  /** `ft_acquire` by thread 3 whose clock has only three slots, on a lock
      whose five-slot clock knows threads 3 and 4: both clocks end with five
      slots, the thread's own slot included, and slot `i` of the thread's
      clock is `(i << 24) + i`, the larger of the two operands' slots. */
  method AcquireFromShorterClock(epoch: int) returns (t': ThreadState, lock': LockState)
    ensures |t'.C| == 5 && |lock'.L| == 5 && t'.epoch == t'.C[3]
    ensures forall i :: 0 <= i < 5 ==> t'.C[i] == ZeroEpoch(i) + i
  {
    var t := ThreadState(3, [ZeroEpoch(0), ZeroEpoch(1) + 1, ZeroEpoch(2) + 2], epoch);
    var lock := LockState([0, 0, 0, ZeroEpoch(3) + 3, ZeroEpoch(4) + 4]);
    t', lock' := FtAcquire(t, lock);
    assert Extended(t.C, 5) == t.C + [ZeroEpoch(3), ZeroEpoch(4)];
  }

  /** `ft_release` by the same thread on the same lock: the lock receives
      the thread's three slots extended with `3 << 24` and `4 << 24`, and
      the thread's clock agrees with it except in its own slot, which holds
      the ticked epoch. */
  method ReleaseFromShorterClock(epoch: int) returns (t': ThreadState, lock': LockState)
    ensures lock'.L == [ZeroEpoch(0), ZeroEpoch(1) + 1, ZeroEpoch(2) + 2, ZeroEpoch(3), ZeroEpoch(4)]
    ensures |t'.C| == 5 && t'.epoch == epoch + 1 && t'.C[3] == t'.epoch
    ensures forall i :: 0 <= i < 5 && i != 3 ==> t'.C[i] == lock'.L[i]
  {
    var t := ThreadState(3, [ZeroEpoch(0), ZeroEpoch(1) + 1, ZeroEpoch(2) + 2], epoch);
    var lock := LockState([0, 0, 0, ZeroEpoch(3) + 3, ZeroEpoch(4) + 4]);
    t', lock' := FtRelease(t, lock);
    assert Extended(t.C, 5) == t.C + [ZeroEpoch(3), ZeroEpoch(4)];
  }
}
