/** Runs of failures: what the bridge's failure counters count. */
module Streak {
  /** Length of the run of failures that the results, oldest first, end with. */
  function Trailing(outcomes: seq<bool>): nat {
    if outcomes == [] || outcomes[|outcomes| - 1] then 0 else 1 + Trailing(outcomes[..|outcomes| - 1])
  }

  lemma TrailingSnoc(outcomes: seq<bool>, ok: bool)
    ensures Trailing(outcomes + [ok]) == if ok then 0 else Trailing(outcomes) + 1
  {
    assert (outcomes + [ok])[..|outcomes|] == outcomes;
  }

  lemma TrailingBound(outcomes: seq<bool>)
    ensures Trailing(outcomes) <= |outcomes|
  {
  }

  lemma {:induction false} TrailingAllFailed(outcomes: seq<bool>, i: nat)
    requires |outcomes| - Trailing(outcomes) <= i < |outcomes|
    ensures !outcomes[i]
  {
    if i < |outcomes| - 1 { TrailingAllFailed(outcomes[..|outcomes| - 1], i); }
  }
}
