/** Vector clocks (etsan/defs.h): one epoch per thread, indexed by the
    detector's thread id; slot `t` of a clock nobody has ticked is `t << 24`. */
module VectorClocks {
  import opened Epochs

  /** A clock of `n` threads at clock 0. */
  function Fresh(n: nat): seq<int>
  {
    seq(n, t => ZeroEpoch(t))
  }

  /** `C` grown to `n` slots with fresh epochs; `C` itself when it is long enough. */
  function Extended(C: seq<int>, n: int): seq<int>
  {
    if n <= |C| then C else C + seq(n - |C|, j requires 0 <= j => ZeroEpoch(|C| + j))
  }

  /** The elementwise maximum of two clocks of one length. */
  function JoinMax(a: seq<int>, b: seq<int>): (r: seq<int>)
    requires |a| == |b|
    ensures |r| == |a|
    ensures forall i :: 0 <= i < |r| ==> a[i] <= r[i] && b[i] <= r[i] && (r[i] == a[i] || r[i] == b[i])
  {
    seq(|a|, i requires 0 <= i < |a| => if a[i] < b[i] then b[i] else a[i])
  }

  /** Every slot `i` holds an epoch of thread `i`. */
  predicate WellFormed(C: seq<int>)
  {
    forall i :: 0 <= i < |C| ==> OwnedBy(C[i], i)
  }

  /** Slotwise order: what `a` knows of every thread, `b` knows too. */
  predicate Below(a: seq<int>, b: seq<int>)
  {
    |a| <= |b| && forall i :: 0 <= i < |a| ==> a[i] <= b[i]
  }

  /** `newVectorClock`: resize `VC` to `size` slots, then overwrite slot `t`
      with `t << 24`; the old contents do not survive. */
  method NewVectorClock(VC: seq<int>, size: nat) returns (r: seq<int>)
    ensures |r| == size
    ensures forall t :: 0 <= t < size ==> r[t] == ZeroEpoch(t)
    ensures r == Fresh(size)
  {
    r := if size <= |VC| then VC[..size] else VC + seq(size - |VC|, _ => 0);
    var t := 0;
    while t < size
      invariant 0 <= t <= size && |r| == size
      invariant forall k :: 0 <= k < t ==> r[k] == ZeroEpoch(k)
    {
      r := r[t := ZeroEpoch(t)];
      t := t + 1;
    }
  }

  /** `ExtendVectorClock`: append `t << 24` for every missing slot `t` below
      `totalThreads`. */
  method ExtendVectorClock(C: seq<int>, totalThreads: int) returns (r: seq<int>)
    ensures totalThreads <= |C| ==> r == C
    ensures |r| == if totalThreads <= |C| then |C| else totalThreads
    ensures r[..|C|] == C
    ensures forall t :: |C| <= t < |r| ==> r[t] == ZeroEpoch(t)
    ensures r == Extended(C, totalThreads)
  {
    r := C;
    var tid := |C|;
    while tid < totalThreads
      invariant |C| <= tid && |r| == tid
      invariant totalThreads <= |C| ==> tid == |C|
      invariant tid <= |C| || tid <= totalThreads
      invariant r[..|C|] == C
      invariant forall t :: |C| <= t < tid ==> r[t] == ZeroEpoch(t)
    {
      r := r + [ZeroEpoch(tid)];
      tid := tid + 1;
    }
    assert r == Extended(C, totalThreads);
  }

  /** `ExtendVectorClocks`: grow both clocks to the longer length. */
  method ExtendVectorClocks(C1: seq<int>, C2: seq<int>) returns (r1: seq<int>, r2: seq<int>)
    ensures |r1| == |r2| == if |C1| < |C2| then |C2| else |C1|
    ensures r1[..|C1|] == C1 && r2[..|C2|] == C2
    ensures forall t :: |C1| <= t < |r1| ==> r1[t] == ZeroEpoch(t)
    ensures forall t :: |C2| <= t < |r2| ==> r2[t] == ZeroEpoch(t)
    ensures r1 == Extended(C1, |C2|) && r2 == Extended(C2, |C1|)
  {
    var size := if |C1| < |C2| then |C2| else |C1|;
    r1 := ExtendVectorClock(C1, size);
    r2 := ExtendVectorClock(C2, size);
  }

  /** A fresh clock is well formed. */
  lemma FreshWellFormed(n: nat)
    ensures WellFormed(Fresh(n))
  {
  }

  /** Extension only appends, keeps what was there and keeps well-formedness;
      extending a second time to the same length changes nothing. */
  lemma ExtendedFacts(C: seq<int>, n: int)
    ensures |Extended(C, n)| == if n <= |C| then |C| else n
    ensures Extended(C, n)[..|C|] == C
    ensures Below(C, Extended(C, n))
    ensures WellFormed(C) ==> WellFormed(Extended(C, n))
    ensures Extended(Extended(C, n), n) == Extended(C, n)
  {
  }

  /** The elementwise maximum is the least upper bound in the slotwise order. */
  lemma {:induction false} JoinMaxIsLeastUpperBound(a: seq<int>, b: seq<int>, c: seq<int>)
    requires |a| == |b|
    ensures Below(a, JoinMax(a, b)) && Below(b, JoinMax(a, b))
    ensures Below(a, c) && Below(b, c) ==> Below(JoinMax(a, b), c)
  {
  }

  /** Joining two well-formed clocks gives a well-formed clock. */
  lemma JoinMaxWellFormed(a: seq<int>, b: seq<int>)
    requires |a| == |b| && WellFormed(a) && WellFormed(b)
    ensures WellFormed(JoinMax(a, b))
  {
  }

  /** The slotwise order is transitive. */
  lemma BelowTransitive(a: seq<int>, b: seq<int>, c: seq<int>)
    requires Below(a, b) && Below(b, c)
    ensures Below(a, c)
  {
  }
}
