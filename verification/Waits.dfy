/** Waits for the hardware: `timesOut(n)` says whether the n-th wait times out. */
module Waits {
  ghost predicate NoTimeout(timesOut: nat -> bool, from: nat, to: nat) {
    forall i :: from <= i < to ==> !timesOut(i)
  }

  lemma NoTimeoutSplit(timesOut: nat -> bool, a: nat, b: nat, c: nat)
    requires a <= b <= c
    ensures NoTimeout(timesOut, a, c) <==> NoTimeout(timesOut, a, b) && NoTimeout(timesOut, b, c)
  {
  }
}
