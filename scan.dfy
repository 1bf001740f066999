/**
 * First-match scans: the index at which a front-to-back scan stops, over the
 * flags saying which positions it moves past.
 */
module Scans {

  /** The first index from `i` on whose flag is false, or |flags| when there is none. */
  function FirstFalse(flags: seq<bool>, i: nat): nat
    requires i <= |flags|
    decreases |flags| - i
  {
    if i == |flags| then i
    else if flags[i] then FirstFalse(flags, i + 1)
    else i
  }

  /** The scan moves past flagged positions only and stops at the first unflagged one. */
  lemma {:induction false} FirstFalseMeaning(flags: seq<bool>, i: nat)
    requires i <= |flags|
    ensures var k := FirstFalse(flags, i);
            i <= k <= |flags| && (forall j :: i <= j < k ==> flags[j]) && (k < |flags| ==> !flags[k])
    decreases |flags| - i
  {
    if i < |flags| && flags[i] {
      FirstFalseMeaning(flags, i + 1);
    }
  }
}
