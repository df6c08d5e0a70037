/** Lazy emulation in general: a device that is told about elapsed cycles in batches. */
module Batching {

  function Iterate<S>(step: S -> S, s: S, n: nat): S {
    if n == 0 then s else step(Iterate(step, s, n - 1))
  }

  lemma {:induction false} IterateAdd<S>(step: S -> S, s: S, a: nat, b: nat)
    ensures Iterate(step, Iterate(step, s, a), b) == Iterate(step, s, a + b)
  {
    if b == 0 {
    } else {
      IterateAdd(step, s, a, b - 1);
    }
  }

  function Sum(deltas: seq<nat>): nat {
    if deltas == [] then 0 else deltas[0] + Sum(deltas[1..])
  }

  function SyncAll<S>(sync: (S, nat) -> S, s: S, deltas: seq<nat>): S
    decreases |deltas|
  {
    if deltas == [] then s else SyncAll(sync, sync(s, deltas[0]), deltas[1..])
  }

  /** Every batch of the run is one the device can take at once. */
  ghost predicate Timely<S>(sync: (S, nat) -> S, ok: (S, nat) -> bool, s: S, deltas: seq<nat>)
    decreases |deltas|
  {
    deltas == [] || (ok(s, deltas[0]) && Timely(sync, ok, sync(s, deltas[0]), deltas[1..]))
  }

  /** If single batches are exact then so are whole runs of them. */
  lemma {:induction false} RunIsExact<S(!new)>(
      step: S -> S, sync: (S, nat) -> S, ok: (S, nat) -> bool, valid: S -> bool, s: S, deltas: seq<nat>)
    requires forall x, d: nat {:trigger ok(x, d)} ::
      valid(x) && ok(x, d) ==> sync(x, d) == Iterate(step, x, d) && valid(sync(x, d))
    requires valid(s) && Timely(sync, ok, s, deltas)
    ensures SyncAll(sync, s, deltas) == Iterate(step, s, Sum(deltas))
    decreases |deltas|
  {
    if deltas == [] {
    } else {
      RunIsExact(step, sync, ok, valid, sync(s, deltas[0]), deltas[1..]);
      IterateAdd(step, s, deltas[0], Sum(deltas[1..]));
    }
  }
}
