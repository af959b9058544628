/** Allocation of 32-bit ids from a wrapping counter. */
module Ids {
  import opened Words

  /** The id tried after `k` others. */
  function Probe(start: u32, k: nat): u32 {
    (start + k) % 0x1_0000_0000
  }

  /** The first `k` ids tried. */
  ghost function Tried(start: u32, k: nat): (t: set<u32>)
    requires k <= TWO32
    ensures forall x: u32 :: x in t <==> exists i :: 0 <= i < k && x == Probe(start, i)
    ensures |t| == k
  {
    if k == 0 then {} else
      var t := Tried(start, k - 1);
      ProbesDiffer(start, k - 1);
      t + {Probe(start, k - 1)}
  }

  lemma {:induction false} ProbesDiffer(start: u32, k: nat)
    requires k < TWO32
    ensures forall i :: 0 <= i < k ==> Probe(start, i) != Probe(start, k)
  {
    forall i | 0 <= i < k
      ensures Probe(start, i) != Probe(start, k)
    {
      WrapDiffers(start + i, start + k);
    }
  }

  lemma {:induction false} WrapDiffers(a: nat, b: nat)
    requires a < b < a + TWO32
    ensures a % TWO32 != b % TWO32
  {
  }

  lemma {:induction false} SubsetSize<T>(a: set<T>, b: set<T>)
    requires a <= b
    ensures |a| <= |b|
    decreases a
  {
    if a != {} {
      var x :| x in a;
      SubsetSize(a - {x}, b - {x});
    }
  }

  /** Pigeonhole: fewer than 2^32 ids in use cannot hold that many distinct probes. */
  lemma {:induction false} Pigeonhole(start: u32, used: set<u32>, k: nat)
    requires |used| < TWO32
    requires forall i :: 0 <= i < k ==> Probe(start, i) in used
    ensures k <= |used|
  {
    var n := if k <= TWO32 then k else TWO32;
    assert Tried(start, n) <= used;
    SubsetSize(Tried(start, n), used);
  }

  /** How many ids in use are met, from the `k`th on, before a free one. */
  function Misses(start: u32, used: set<u32>, k: nat): (m: nat)
    requires |used| < TWO32
    requires forall i :: 0 <= i < k ==> Probe(start, i) in used
    ensures k <= m <= |used|
    ensures Probe(start, m) !in used
    ensures forall i :: 0 <= i < m ==> Probe(start, i) in used
    decreases |used| + 1 - k
  {
    Pigeonhole(start, used, k);
    if Probe(start, k) !in used then k
    else
      Pigeonhole(start, used, k + 1);
      Misses(start, used, k + 1)
  }

  /** The first free id at or after the counter, and the counter after it. */
  function FreeId(start: u32, used: set<u32>): (r: (u32, u32))
    requires |used| < TWO32
    ensures r.0 !in used
  {
    var m := Misses(start, used, 0);
    (Probe(start, m), Probe(start, m + 1))
  }

  /** The probing loop: at most one probe more than ids in use. */
  method GetFreeId(count: u32, used: set<u32>) returns (id: u32, next: u32, probes: nat)
    requires |used| < TWO32
    ensures id !in used
    ensures 1 <= probes <= |used| + 1
    ensures forall i :: 0 <= i < probes - 1 ==> Probe(count, i) in used
    ensures id == Probe(count, probes - 1) && next == Probe(count, probes)
    ensures id == (count + probes - 1) % 0x1_0000_0000 && next == (id + 1) % 0x1_0000_0000
    ensures (id, next) == FreeId(count, used)
  {
    hide Probe, FreeId;
    id, next, probes := count, (count + 1) % 0x1_0000_0000, 1;
    ProbeIs(count, 0);
    ProbeIs(count, 1);
    while id in used
      invariant 1 <= probes <= |used| + 1
      invariant id == Probe(count, probes - 1) && next == Probe(count, probes)
      invariant forall i :: 0 <= i < probes - 1 ==> Probe(count, i) in used
      decreases |used| + 1 - probes
    {
      Pigeonhole(count, used, probes);
      id, next, probes := next, (next + 1) % 0x1_0000_0000, probes + 1;
      NextProbe(count, probes - 1);
    }
    ProbeIs(count, probes - 1);
    NextProbe(count, probes - 1);
    FirstFree(count, used, probes - 1);
  }

  lemma {:induction false} ProbeIs(start: u32, k: nat)
    ensures Probe(start, k) == (start + k) % 0x1_0000_0000
  {
  }

  lemma {:induction false} NextProbe(start: u32, k: nat)
    ensures (Probe(start, k) + 1) % 0x1_0000_0000 == Probe(start, k + 1)
  {
  }

  lemma {:induction false} FirstFree(start: u32, used: set<u32>, m: nat)
    requires |used| < TWO32 && Probe(start, m) !in used
    requires forall i :: 0 <= i < m ==> Probe(start, i) in used
    ensures Misses(start, used, 0) == m
    ensures FreeId(start, used) == (Probe(start, m), Probe(start, m + 1))
  {
    hide Probe;
  }
}
