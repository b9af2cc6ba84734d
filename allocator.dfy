/** The slot allocator that sizes each group's aggregation store. */
module Allocation {
  import opened Wrappers

  /** A store with `n` slots, all empty. */
  function EmptyStore<A>(n: nat): seq<Option<A>> {
    seq(n, _ => None)
  }

  /** Counts slot allocations and hands out dense handles 0, 1, 2, ... */
  class Allocator {
    var size: nat

    constructor ()
      ensures size == 0
    {
      size := 0;
    }

    /** A fresh handle: the number of slots allocated before this call. */
    method Allocate() returns (handle: nat)
      modifies this
      ensures handle == old(size) && size == old(size) + 1
      ensures handle < size
    {
      handle := size;
      size := size + 1;
    }

    /** A store that every handle allocated so far can index, all slots empty. */
    method CreateStore<A>() returns (store: seq<Option<A>>)
      ensures |store| == size
      ensures forall h :: 0 <= h < |store| ==> store[h] == None
    {
      store := EmptyStore(size);
    }
  }

  /** Successive allocations from a new allocator hand out 0, 1, ..., n - 1. */
  method AllocateAll(n: nat) returns (allocator: Allocator, handles: seq<nat>)
    ensures fresh(allocator)
    ensures allocator.size == n
    ensures |handles| == n && forall i :: 0 <= i < n ==> handles[i] == i
  {
    allocator := new Allocator();
    handles := [];
    for i := 0 to n
      invariant allocator.size == i == |handles|
      invariant forall k :: 0 <= k < i ==> handles[k] == k
    {
      var h := allocator.Allocate();
      handles := handles + [h];
    }
  }
}
