/** Facts that some steps of a run bring about and others end. */
module Histories {
  /** A fact that holds after a step exactly when the step starts it, or it held and the step does not end
      it, holds at last exactly when some step started it and none since has ended it. */
  lemma {:induction false} Since(n: nat, fact: nat -> bool, starts: nat -> bool, ends: nat -> bool)
    requires !fact(0)
    requires forall k :: 0 <= k < n ==> (fact(k + 1) <==> starts(k) || (fact(k) && !ends(k)))
    ensures fact(n) <==> exists i :: 0 <= i < n && starts(i) && forall j :: i < j < n ==> !ends(j)
  {
    if n > 0 {
      Since(n - 1, fact, starts, ends);
      assert fact(n - 1 + 1) <==> starts(n - 1) || (fact(n - 1) && !ends(n - 1));
    }
  }
}
