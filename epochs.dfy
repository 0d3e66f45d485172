/** Epochs (etsan/defs.h): one 32-bit `int` holding the owner thread id in
    its high 8 bits and a logical clock in its low 24 bits. */
module Epochs {

  /** 2^24: the number of clock values one owner can have. */
  const ClockRange: int := 0x100_0000
  /** The largest clock value that fits in 24 bits. */
  const MaxClock: int := 0xFF_FFFF
  /** 2^32: the range of a 32-bit word. */
  const WordRange: int := 0x1_0000_0000
  /** Registered threads the detector can hold while every epoch stays a
      non-negative 32-bit `int`: owners 0 .. 127, and one spare clock slot. */
  const MaxThreads: nat := 127

  /** `READ_SHARED`: the unsigned literal 0xEFFFFFFF as it reads back from
      an `int` field. Its owner bits are 0xEF, so it is no epoch of a thread
      with id below 128. */
  const ReadShared: int := -0x1000_0001

  /** `t << 24`: the epoch of thread `t` at clock 0. */
  function ZeroEpoch(t: int): int
  {
    t * ClockRange
  }

  /** `TID(x)`: `(x & 0xFF000000) >> 24` on the 32-bit pattern of `x`. */
  function Tid(e: int): (t: nat)
    ensures t < 256
  {
    (e % WordRange) / ClockRange
  }

  /** `CLOCK(x)`: `x & 0x00FFFFFF`. Euclidean remainder agrees with the mask
      on two's-complement values, negative ones included. */
  function Clock(e: int): (c: nat)
    ensures c <= MaxClock
  {
    e % ClockRange
  }

  /** `e` is an epoch of thread `t`: owner bits `t`, any 24-bit clock. */
  predicate OwnedBy(e: int, t: int)
  {
    ZeroEpoch(t) <= e < ZeroEpoch(t) + ClockRange
  }

  /** Packing and unpacking agree: the owner and the clock of `(t << 24) + c`
      are `t` and `c`. */
  lemma EpochParts(t: nat, c: int)
    requires t < 256 && 0 <= c <= MaxClock
    ensures Tid(ZeroEpoch(t) + c) == t
    ensures Clock(ZeroEpoch(t) + c) == c
  {
    var e := ZeroEpoch(t) + c;
    assert 0 <= e < WordRange;
    assert e % WordRange == e;
    assert e == t * ClockRange + c;
  }

  /** Any epoch owned by `t` has owner bits `t` and clock `e - (t << 24)`. */
  lemma OwnedByParts(e: int, t: nat)
    requires t < 256 && OwnedBy(e, t)
    ensures Tid(e) == t && Clock(e) == e - ZeroEpoch(t)
  {
    EpochParts(t, e - ZeroEpoch(t));
  }

  /** The sentinel decodes to owner 0xEF and clock 0xFFFFFF, and no epoch of a
      thread below `MaxThreads` equals it. */
  lemma ReadSharedIsNoEpoch(t: nat, e: int)
    requires t <= MaxThreads && OwnedBy(e, t)
    ensures Tid(ReadShared) == 0xEF && Clock(ReadShared) == MaxClock
    ensures e != ReadShared
  {
  }

  /** An epoch below `n << 24` has an owner below `n`, and it is an epoch
      of that owner. */
  lemma TidBelow(e: int, n: nat)
    requires 0 <= e < ZeroEpoch(n) && n <= MaxThreads
    ensures Tid(e) < n && OwnedBy(e, Tid(e))
  {
    var t := e / ClockRange;
    assert e == ZeroEpoch(t) + e % ClockRange;
    assert t < n;
    OwnedByParts(e, t);
  }
}
