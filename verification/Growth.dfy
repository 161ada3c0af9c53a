/**
 * The growable arrays of the analyzer. `realloc` may fail, so every append has three outcomes
 * further up: success, lack of memory, and a defect of the image.
 */
module Growth {
  datatype Status = Done | NoMemory | BadImage

  predicate DuplicateFree<T(==)>(s: seq<T>) {
    forall i, j | 0 <= i < j < |s| :: s[i] != s[j]
  }

  lemma DuplicateFreeAppend<T>(s: seq<T>, x: T)
    requires DuplicateFree(s) && x !in s
    ensures DuplicateFree(s + [x])
  {
  }

  /** The capacity after making room for one more element. */
  function Grown(count: nat, capacity: nat, initial: nat): nat {
    if count < capacity then capacity else if capacity == 0 then initial else 2 * capacity
  }

  /** The C heap: which allocation requests are refused is fixed, and unknown to the program. */
  class Heap {
    const grants: nat -> bool
    var requests: nat

    constructor (grants: nat -> bool)
      ensures this.grants == grants && requests == 0
    {
      this.grants := grants;
      requests := 0;
    }

    /** Of the requests made after the first `from`, one was refused. */
    ghost predicate RefusedSince(from: nat)
      reads this
    {
      exists k: nat :: from <= k < requests && !grants(k)
    }

    method Request() returns (granted: bool)
      modifies this
      ensures requests == old(requests) + 1 && granted == grants(old(requests))
    {
      granted := grants(requests);
      requests := requests + 1;
    }
  }

  /** The capacity check and doubling `realloc` that precede an append; `initial` is the first size. */
  method Reserve(heap: Heap, count: nat, capacity: nat, initial: nat) returns (ok: bool, grown: nat)
    requires count <= capacity && initial > 0
    modifies heap
    ensures heap.requests == old(heap.requests) + if count < capacity then 0 else 1
    ensures ok <==> count < capacity || heap.grants(old(heap.requests))
    ensures grown == if ok then Grown(count, capacity, initial) else capacity
    ensures ok <==> count < grown
  {
    if count < capacity {
      return true, capacity;
    }
    var granted := heap.Request();
    if !granted {
      return false, capacity;
    }
    return true, if capacity == 0 then initial else 2 * capacity;
  }

  /** `struct seen_blocks` and `struct visited_set`: an append-only array searched linearly. */
  class ItemSet {
    var items: seq<nat>
    var capacity: nat

    ghost predicate Valid()
      reads this
    {
      |items| <= capacity && DuplicateFree(items)
    }

    constructor ()
      ensures Valid() && items == []
    {
      items := [];
      capacity := 0;
    }

    method Contains(x: nat) returns (found: bool)
      ensures found <==> x in items
    {
      for i := 0 to |items|
        invariant x !in items[..i]
      {
        if items[i] == x {
          return true;
        }
      }
      return false;
    }

    method Add(heap: Heap, x: nat) returns (ok: bool)
      requires Valid()
      modifies this, heap
      ensures Valid()
      ensures old(heap.requests) <= heap.requests
      ensures ok <==> !heap.RefusedSince(old(heap.requests))
      ensures ok ==> items == if x in old(items) then old(items) else old(items) + [x]
      ensures !ok ==> items == old(items) && x !in items && |items| == capacity == old(capacity)
    {
      var present := Contains(x);
      if present {
        return true;
      }
      var room, grown := Reserve(heap, |items|, capacity, 16);
      if !room {
        return false;
      }
      capacity := grown;
      items := items + [x];
      return true;
    }
  }
}
