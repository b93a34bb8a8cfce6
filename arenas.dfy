/**
 * The arena allocator the bank consumes (r_reg_arena_new, r_reg_arena_free),
 * whose implementation lives outside this file. Arenas are opaque handles;
 * the allocator serves `avail` more creations and then reports failure.
 */
module Arenas {
  import opened Wrappers

  /** An opaque arena handle (RRegArena *). */
  type ArenaId = nat

  /** The handles next, next + 1, ..., next + n - 1. */
  function Range(next: nat, n: nat): (r: set<ArenaId>)
    ensures forall id :: id in r <==> next <= id < next + n
  {
    if n == 0 then {} else Range(next, n - 1) + {next + n - 1}
  }

  function Min(a: int, b: int): int { if a <= b then a else b }

  class Allocator {
    /** The handle the next successful creation returns. */
    var next: ArenaId
    /** Handles created and not yet released. */
    var live: set<ArenaId>
    /** How many more creations succeed. */
    var avail: nat

    ghost predicate Valid()
      reads this
    {
      forall a :: a in live ==> a < next
    }

    constructor (avail: nat)
      ensures Valid() && next == 0 && live == {} && this.avail == avail
    {
      next := 0;
      live := {};
      this.avail := avail;
    }

    /** r_reg_arena_new: a fresh live handle, or None once the allocator is exhausted. */
    method Create() returns (a: Option<ArenaId>)
      requires Valid()
      modifies this
      ensures Valid()
      ensures a.Some? <==> old(avail) > 0
      ensures a.Some? ==> a.value == old(next) && a.value !in old(live)
      ensures next == old(next) + Min(1, old(avail))
      ensures live == old(live) + Range(old(next), Min(1, old(avail)))
      ensures avail == old(avail) - Min(1, old(avail))
    {
      if avail == 0 {
        a := None;
      } else {
        a := Some(next);
        live := live + {next};
        next := next + 1;
        avail := avail - 1;
      }
    }

    /** r_reg_arena_free: releases a live handle; releasing it twice is refused. */
    method Release(a: ArenaId)
      requires Valid() && a in live
      modifies this
      ensures Valid()
      ensures live == old(live) - {a} && next == old(next) && avail == old(avail)
    {
      live := live - {a};
    }

    /**
     * r_list_destroy on a pool whose free function is r_reg_arena_free:
     * every handle of the pool is released, in order, once each.
     */
    method ReleaseAll(pool: seq<ArenaId>)
      requires Valid()
      requires forall k :: 0 <= k < |pool| ==> pool[k] in live
      requires forall k1, k2 :: 0 <= k1 < k2 < |pool| ==> pool[k1] != pool[k2]
      modifies this
      ensures Valid()
      ensures live == old(live) - (set k | 0 <= k < |pool| :: pool[k])
      ensures next == old(next) && avail == old(avail)
    {
      var j := 0;
      while j < |pool|
        invariant 0 <= j <= |pool|
        invariant Valid() && next == old(next) && avail == old(avail)
        invariant live == old(live) - (set k | 0 <= k < j :: pool[k])
      {
        Release(pool[j]);
        j := j + 1;
      }
    }
  }
}
