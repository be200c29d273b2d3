/** The allocator: any request may be refused. */
module Memory {

  class Heap {
    /** How many requests have been refused. */
    ghost var refusals: nat

    constructor ()
      ensures refusals == 0
    {
      refusals := 0;
    }

    method Ask(size: nat) returns (granted: bool)
      modifies this
      ensures refusals == old(refusals) + if granted then 0 else 1
    {
      granted := *;
      if !granted {
        refusals := refusals + 1;
      }
    }
  }
}
