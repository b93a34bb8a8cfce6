/**
 * The per-class register sets as values: the item list, the arena pool
 * (a stack whose head is the newest arena) and the cached current arena,
 * with the effect of push, pop and clear on all sets at once, the lookups,
 * and the ownership facts that make every release a release of a live,
 * once-owned handle.
 */
module RegSets {
  import opened Wrappers
  import opened Catalog
  import opened Fields
  import opened Arenas

  /** One entry of regset[]: the item list, the pool head first, and the cached arena. */
  datatype RegSet = RegSet(regs: seq<Item>, pool: seq<ArenaId>, arena: Option<ArenaId>)

  /** The head of a pool, None (NULL) for an empty pool. */
  function Head(pool: seq<ArenaId>): (r: Option<ArenaId>)
    ensures r.None? <==> pool == []
    ensures r.Some? ==> r.value == pool[0]
  {
    if pool == [] then None else Some(pool[0])
  }

  /** Every listed item sits in the list of its own class and has a name. */
  ghost predicate TypedSets(rs: seq<RegSet>)
  {
    forall t, j :: 0 <= t < |rs| && 0 <= j < |rs[t].regs| ==>
      rs[t].regs[j].rtype == t && rs[t].regs[j].name.Some?
  }

  /** Every pooled handle is live and occupies exactly one pool slot. */
  ghost predicate OwnedBy(rs: seq<RegSet>, live: set<ArenaId>)
  {
    && (forall t, k :: 0 <= t < |rs| && 0 <= k < |rs[t].pool| ==> rs[t].pool[k] in live)
    && (forall t1, k1, t2, k2 ::
          (0 <= t1 < |rs| && 0 <= k1 < |rs[t1].pool| &&
           0 <= t2 < |rs| && 0 <= k2 < |rs[t2].pool| &&
           rs[t1].pool[k1] == rs[t2].pool[k2]) ==> t1 == t2 && k1 == k2)
  }

  /** The cached arena of every set is the head of its pool. */
  predicate Current(rs: seq<RegSet>)
  {
    forall t :: 0 <= t < |rs| ==> rs[t].arena == Head(rs[t].pool)
  }

  /** The handles in the pools of the classes below i. */
  function PoolIdsBelow(rs: seq<RegSet>, i: nat): set<ArenaId>
    requires i <= |rs|
  {
    set t, k | 0 <= t < i && 0 <= k < |rs[t].pool| :: rs[t].pool[k]
  }

  /**
   * Clearing class i releases the handles of its pool: each is still live
   * (the classes below released only their own handles, and the handles
   * created since are newer), no handle occurs twice, and afterwards the
   * released handles are exactly those of the classes up to i.
   */
  lemma ReleaseStep(rs: seq<RegSet>, live0: set<ArenaId>, next0: ArenaId, i: nat, created: set<ArenaId>)
    requires OwnedBy(rs, live0) && i < |rs|
    requires forall a :: a in live0 ==> a < next0
    requires forall a :: a in created ==> a >= next0
    ensures forall k :: 0 <= k < |rs[i].pool| ==> rs[i].pool[k] in live0 - PoolIdsBelow(rs, i) + created
    ensures forall k1, k2 :: 0 <= k1 < k2 < |rs[i].pool| ==> rs[i].pool[k1] != rs[i].pool[k2]
    ensures live0 - PoolIdsBelow(rs, i) + created - (set k | 0 <= k < |rs[i].pool| :: rs[i].pool[k])
         == live0 - PoolIdsBelow(rs, i + 1) + created
  {
    var p := set k | 0 <= k < |rs[i].pool| :: rs[i].pool[k];
    assert PoolIdsBelow(rs, i + 1) == PoolIdsBelow(rs, i) + p;
    assert forall k :: 0 <= k < |rs[i].pool| ==> rs[i].pool[k] !in PoolIdsBelow(rs, i);
  }

  /** The sets r_reg_new builds from the handles next, next + 1, ...: one arena per pool. */
  function Fresh(next: ArenaId): (r: seq<RegSet>)
    ensures |r| == TYPE_LAST
  {
    seq(TYPE_LAST, (t: nat) => RegSet([], [next + t], Some(next + t)))
  }

  /**
   * The sets r_reg_free_internal leaves: no items, empty pools, and as
   * cached arena a new handle that no pool holds, or None for each class
   * whose creation failed.
   */
  function Cleared(next: ArenaId, avail: nat): (r: seq<RegSet>)
    ensures |r| == TYPE_LAST
  {
    seq(TYPE_LAST, (t: nat) => RegSet([], [], if t < avail then Some(next + t) else None))
  }

  function PushOne(s: RegSet, a: ArenaId): (r: RegSet)
    ensures r.regs == s.regs && r.pool == [a] + s.pool && r.arena == Some(a) == Head(r.pool)
  {
    s.(pool := [a] + s.pool, arena := Some(a))
  }

  /**
   * r_reg_push when the allocator serves avail more creations from handle
   * next: the classes below avail get a fresh arena on top of their pool,
   * made current; the class whose creation fails gets a NULL current arena
   * and keeps its pool; the classes after it are untouched.
   */
  function Pushed(rs: seq<RegSet>, next: ArenaId, avail: nat): (r: seq<RegSet>)
    ensures |r| == |rs|
    ensures forall t :: 0 <= t < |rs| ==> r[t].regs == rs[t].regs
  {
    seq(|rs|, t requires 0 <= t < |rs| =>
      if t < avail then PushOne(rs[t], next + t)
      else if t == avail then rs[t].(arena := None)
      else rs[t])
  }

  /** The sets part-way through the push loop: the classes below i are pushed. */
  function PushedBelow(rs: seq<RegSet>, next: ArenaId, i: nat): (r: seq<RegSet>)
    requires i <= |rs|
    ensures |r| == |rs|
    ensures forall t :: 0 <= t < |rs| ==> r[t].regs == rs[t].regs
  {
    seq(|rs|, t requires 0 <= t < |rs| => if t < i then PushOne(rs[t], next + t) else rs[t])
  }

  /** One more pass of the push loop pushes class i. */
  lemma PushedBelowStep(rs: seq<RegSet>, next: ArenaId, i: nat)
    requires i < |rs|
    ensures PushedBelow(rs, next, i)[i := PushOne(rs[i], next + i)] == PushedBelow(rs, next, i + 1)
  {
  }

  /**
   * Where the push loop stops: after every class, or at class avail with
   * a NULL current arena; either way the sets are Pushed.
   */
  lemma PushedStops(rs: seq<RegSet>, next: ArenaId, avail: nat, i: nat)
    requires i <= |rs| && i <= avail
    ensures i == |rs| ==> PushedBelow(rs, next, i) == Pushed(rs, next, avail)
    ensures i < |rs| && i == avail ==>
      PushedBelow(rs, next, i)[i := rs[i].(arena := None)] == Pushed(rs, next, avail)
  {
  }

  /** The first class at or after t whose pool is empty, or |rs|. */
  function FirstEmpty(rs: seq<RegSet>, t: nat): (r: nat)
    requires t <= |rs|
    ensures t <= r <= |rs|
    ensures forall j :: t <= j < r ==> rs[j].pool != []
    ensures r < |rs| ==> rs[r].pool == []
    decreases |rs| - t
  {
    if t == |rs| then t
    else if rs[t].pool == [] then t
    else FirstEmpty(rs, t + 1)
  }

  function PopOne(s: RegSet): (r: RegSet)
    requires s.pool != []
  {
    s.(pool := s.pool[1..], arena := Head(s.pool[1..]))
  }

  /**
   * r_reg_pop: in class order, each non-empty pool loses its head and the
   * cached arena is re-read from the new head; the first empty pool stops
   * the loop and it and all later sets are untouched.
   */
  function Popped(rs: seq<RegSet>): (r: seq<RegSet>)
    ensures |r| == |rs|
  {
    var k := FirstEmpty(rs, 0);
    seq(|rs|, t requires 0 <= t < |rs| => if t < k then PopOne(rs[t]) else rs[t])
  }

  /** The heads of the pools of the classes below i. */
  function HeadsBelow(rs: seq<RegSet>, i: nat): set<ArenaId>
    requires i <= FirstEmpty(rs, 0)
  {
    set t | 0 <= t < i :: rs[t].pool[0]
  }

  /** The handles r_reg_pop releases. */
  function PoppedIds(rs: seq<RegSet>): set<ArenaId>
  {
    HeadsBelow(rs, FirstEmpty(rs, 0))
  }

  /** The first class at or after i whose pool is empty is i when every class before has a pool. */
  lemma FirstEmptyAt(rs: seq<RegSet>, i: nat)
    requires i <= |rs|
    requires forall j :: 0 <= j < i ==> rs[j].pool != []
    requires i == |rs| || rs[i].pool == []
    ensures FirstEmpty(rs, 0) == i
  {
    var r := FirstEmpty(rs, 0);
  }

  /** r_reg_new's sets: every handle live, in one slot, and current. */
  lemma FreshOwned(next: ArenaId, live: set<ArenaId>)
    requires Range(next, TYPE_LAST) <= live
    ensures OwnedBy(Fresh(next), live) && Current(Fresh(next)) && TypedSets(Fresh(next))
  {
  }

  /**
   * A push keeps every handle in exactly one slot: the new handles are
   * fresh (above every live handle) and distinct from each other.
   */
  lemma PushedOwned(rs: seq<RegSet>, live: set<ArenaId>, next: ArenaId, avail: nat)
    requires OwnedBy(rs, live)
    requires forall a :: a in live ==> a < next
    ensures OwnedBy(Pushed(rs, next, avail), live + Range(next, Min(avail, |rs|)))
  {
    var r := Pushed(rs, next, avail);
    var live' := live + Range(next, Min(avail, |rs|));
    forall t, k | 0 <= t < |r| && 0 <= k < |r[t].pool|
      ensures r[t].pool[k] in live'
    {
      if t < avail && k > 0 {
        assert r[t].pool[k] == rs[t].pool[k - 1];
      }
    }
    forall t1, k1, t2, k2 |
        0 <= t1 < |r| && 0 <= k1 < |r[t1].pool| &&
        0 <= t2 < |r| && 0 <= k2 < |r[t2].pool| &&
        r[t1].pool[k1] == r[t2].pool[k2]
      ensures t1 == t2 && k1 == k2
    {
      var o1 := if t1 < avail then k1 - 1 else k1;
      var o2 := if t2 < avail then k2 - 1 else k2;
      if o1 >= 0 {
        assert r[t1].pool[k1] == rs[t1].pool[o1];
      }
      if o2 >= 0 {
        assert r[t2].pool[k2] == rs[t2].pool[o2];
      }
    }
  }

  /** A successful push keeps every cached arena equal to its pool head. */
  lemma PushedCurrent(rs: seq<RegSet>, next: ArenaId, avail: nat)
    requires Current(rs) && avail >= |rs|
    ensures Current(Pushed(rs, next, avail))
  {
  }

  /**
   * A failed push is not atomic: the classes before the failing one stay
   * pushed, and the failing class's cached arena is NULL although its pool
   * still has a head.
   */
  lemma PushFailureLeavesNullArena(rs: seq<RegSet>, next: ArenaId, avail: nat)
    requires avail < |rs| && rs[avail].pool != []
    ensures !Current(Pushed(rs, next, avail))
    ensures forall t :: 0 <= t < avail ==> Pushed(rs, next, avail)[t].pool == [next + t] + rs[t].pool
  {
    assert Pushed(rs, next, avail)[avail].arena == None;
  }

  /** A pop releases only live handles and keeps the rest in one slot each. */
  lemma PoppedOwned(rs: seq<RegSet>, live: set<ArenaId>)
    requires OwnedBy(rs, live)
    ensures PoppedIds(rs) <= live
    ensures OwnedBy(Popped(rs), live - PoppedIds(rs))
  {
    var k := FirstEmpty(rs, 0);
    var r := Popped(rs);
    var gone := PoppedIds(rs);
    forall a | a in gone ensures a in live {
      var t :| 0 <= t < k && a == rs[t].pool[0];
    }
    forall t, j | 0 <= t < |r| && 0 <= j < |r[t].pool|
      ensures r[t].pool[j] in live - gone
    {
      var o := if t < k then j + 1 else j;
      assert r[t].pool[j] == rs[t].pool[o];
    }
    forall t1, k1, t2, k2 |
        0 <= t1 < |r| && 0 <= k1 < |r[t1].pool| &&
        0 <= t2 < |r| && 0 <= k2 < |r[t2].pool| &&
        r[t1].pool[k1] == r[t2].pool[k2]
      ensures t1 == t2 && k1 == k2
    {
      var o1 := if t1 < k then k1 + 1 else k1;
      var o2 := if t2 < k then k2 + 1 else k2;
      assert r[t1].pool[k1] == rs[t1].pool[o1];
      assert r[t2].pool[k2] == rs[t2].pool[o2];
    }
  }

  /** A pop re-derives every cached arena it touches from the pool head. */
  lemma PoppedCurrent(rs: seq<RegSet>)
    requires Current(rs)
    ensures Current(Popped(rs))
  {
  }

  /** Pop undoes a successful push. */
  lemma PopUndoesPush(rs: seq<RegSet>, next: ArenaId, avail: nat)
    requires Current(rs) && avail >= |rs|
    ensures Popped(Pushed(rs, next, avail)) == rs
  {
    var p := Pushed(rs, next, avail);
    FirstEmptyAt(p, |p|);
    assert forall t :: 0 <= t < |rs| ==> p[t].pool[1..] == rs[t].pool;
  }

  /**
   * There is no floor under pop: on a fresh bank one pop empties every
   * pool and leaves NULL cached arenas, and a second pop changes nothing.
   */
  lemma PopHasNoFloor(next: ArenaId)
    ensures Popped(Fresh(next)) == seq(TYPE_LAST, _ => RegSet([], [], None))
    ensures Popped(Popped(Fresh(next))) == Popped(Fresh(next))
  {
    var f := Fresh(next);
    FirstEmptyAt(f, TYPE_LAST);
    var e := seq(TYPE_LAST, _ => RegSet([], [], None));
    assert Popped(f) == e;
    FirstEmptyAt(e, 0);
  }

  /**
   * No item before position (t, k) in the scan order of r_reg_get, from
   * class lo on, is named name.
   */
  ghost predicate FirstInScan(rs: seq<RegSet>, name: string, lo: nat, t: nat, k: nat)
    requires t < |rs|
  {
    && (forall u, j :: lo <= u < t && 0 <= j < |rs[u].regs| ==> rs[u].regs[j].name != Some(name))
    && (forall j :: 0 <= j < k && j < |rs[t].regs| ==> rs[t].regs[j].name != Some(name))
  }

  /** The list walk of r_reg_get: the index of the first item named name. */
  function FindItem(regs: seq<Item>, name: string): (r: Option<nat>)
    ensures r.Some? ==> r.value < |regs| && regs[r.value].name == Some(name)
    ensures r.Some? ==> forall j :: 0 <= j < r.value ==> regs[j].name != Some(name)
    ensures r.None? ==> forall j :: 0 <= j < |regs| ==> regs[j].name != Some(name)
  {
    if regs == [] then None
    else if regs[0].name == Some(name) then Some(0)
    else
      match FindItem(regs[1..], name)
      case None => None
      case Some(k) => Some(k + 1)
  }

  /**
   * The class walk of r_reg_get: the position (class, index) of the first
   * item named name, scanning the classes lo .. hi - 1 in order.
   */
  function Locate(rs: seq<RegSet>, name: string, lo: nat, hi: nat): (r: Option<(nat, nat)>)
    requires lo <= hi <= |rs|
    ensures r.Some? ==> lo <= r.value.0 < hi && r.value.1 < |rs[r.value.0].regs|
    ensures r.Some? ==> rs[r.value.0].regs[r.value.1].name == Some(name)
    ensures r.Some? ==> forall t, k :: lo <= t < r.value.0 && 0 <= k < |rs[t].regs| ==> rs[t].regs[k].name != Some(name)
    ensures r.Some? ==> forall k :: 0 <= k < r.value.1 ==> rs[r.value.0].regs[k].name != Some(name)
    ensures r.None? ==> forall t, k :: lo <= t < hi && 0 <= k < |rs[t].regs| ==> rs[t].regs[k].name != Some(name)
    decreases hi - lo
  {
    if lo == hi then None
    else
      match FindItem(rs[lo].regs, name)
      case Some(k) => Some((lo, k))
      case None => Locate(rs, name, lo + 1, hi)
  }
}
