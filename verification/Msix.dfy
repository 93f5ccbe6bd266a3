/** The MSI-X helpers of accelerator_pcie.c: the device takes its vectors from QEMU's table all at
    once, and gives them back on cleanup. QEMU's table is a use counter per vector. */
module Msix {

  type Counts = seq<nat>

  /** One more use of each vector below `num`. */
  function Taken(counts: Counts, num: int): (r: Counts)
    ensures |r| == |counts|
    ensures forall v :: 0 <= v < |r| ==> r[v] == counts[v] + if v < num then 1 else 0
  {
    seq(|counts|, v requires 0 <= v < |counts| => counts[v] + if v < num then 1 else 0)
  }

  /** One use less of each vector below `num` that is in use. */
  function Given(counts: Counts, num: int): (r: Counts)
    ensures |r| == |counts|
    ensures forall v :: 0 <= v < |r| ==> r[v] == if v < num && counts[v] > 0 then counts[v] - 1 else counts[v]
  {
    seq(|counts|, v requires 0 <= v < |counts| => if v < num && counts[v] > 0 then counts[v] - 1 else counts[v])
  }

  class Device {
    var uses: seq<nat>
    var present: bool

    constructor (uses: seq<nat>)
      ensures this.uses == uses && !present
    {
      this.uses, present := uses, false;
    }

    /** acc_unuse_msix_vectors. */
    method Unuse(num: int)
      modifies this`uses
      ensures uses == Given(old(uses), num)
    {
      var i := 0;
      while i < num
        invariant 0 <= i && (i <= num || i == 0)
        invariant uses == Given(old(uses), i)
      {
        if i < |uses| && uses[i] > 0 { uses := uses[i := uses[i] - 1]; }
        i := i + 1;
      }
    }

    /** acc_use_msix_vectors: on reaching the end of the table it gives back what it took. */
    method Use(num: int) returns (ok: bool)
      modifies this`uses
      ensures ok <==> num <= |old(uses)|
      ensures uses == if ok then Taken(old(uses), num) else old(uses)
    {
      var i := 0;
      while i < num
        invariant 0 <= i <= |uses| == |old(uses)| && (i <= num || i == 0)
        invariant uses == Taken(old(uses), i)
      {
        if i >= |uses| {
          Unuse(i);
          TakenGiven(old(uses), i);
          return false;
        }
        uses := uses[i := uses[i] + 1];
        i := i + 1;
      }
      return true;
    }

    /** acc_init_msix, given what msix_init returned: QEMU exits if that failed, and without all its
        vectors the device has no MSI-X. */
    method Init(num: int, res: int) returns (exits: bool)
      modifies this
      ensures exits <==> res < 0
      ensures exits ==> present == old(present) && uses == old(uses)
      ensures !exits ==> (present <==> num <= |old(uses)|)
      ensures !exits ==> uses == if present then Taken(old(uses), num) else old(uses)
    {
      if res < 0 { return true; }
      present := true;
      var ok := Use(num);
      if !ok { present := false; }
      return false;
    }

    /** acc_cleanup_msix. */
    method Cleanup(num: int)
      modifies this
      ensures uses == if old(present) then Given(old(uses), num) else old(uses)
      ensures !present
    {
      if present {
        Unuse(num);
        present := false;
      }
    }

    /** A device's life: what Init took, if anything, Cleanup gives back, for any table and count. */
    method Lifetime(num: int, res: int) returns (exits: bool)
      modifies this
      ensures exits <==> res < 0
      ensures uses == old(uses) && (!exits ==> !present)
    {
      exits := Init(num, res);
      if !exits {
        TakenGiven(old(uses), num);
        Cleanup(num);
      }
    }
  }

  /** Giving back as many vectors as were taken restores every count. */
  lemma TakenGiven(counts: Counts, num: int)
    ensures Given(Taken(counts, num), num) == counts
  {
  }
}
