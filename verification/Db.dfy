/** Allocation over several pools and addresses that name a pool and an offset (src/touchdb.c). */
module Db {
  import opened Values
  import opened PoolSpec
  import Pool

  // TOUCHDB_POOL_LIST_SIZE
  const POOL_LIST_SIZE: nat := 10

  // The null pointer.
  const NULL: nat := 0

  datatype Option<T> = None | Some(value: T)

  // The end test of touchdb_addr_of includes the byte just past the pool.
  predicate InRange(base: nat, p: nat) {
    base <= p <= base + POOL_SIZE
  }

  // The address that the search from pool i on gives to pointer p: the first pool whose range test accepts it.
  function Locate(bases: seq<nat>, p: nat, i: nat): Option<Addr>
    requires i <= |bases|
    decreases |bases| - i
  {
    if i == |bases| then None
    else if InRange(bases[i], p) then Some(Addr(i, p - bases[i]))
    else Locate(bases, p, i + 1)
  }

  ghost predicate NoOverlap(bases: seq<nat>) {
    forall i, j :: 0 <= i < j < |bases| ==>
      bases[i] + POOL_SIZE <= bases[j] || bases[j] + POOL_SIZE <= bases[i]
  }

  lemma {:induction false} LocateFirst(bases: seq<nat>, p: nat, i: nat, k: nat)
    requires i <= k < |bases| && InRange(bases[k], p)
    requires forall j :: i <= j < k ==> !InRange(bases[j], p)
    ensures Locate(bases, p, i) == Some(Addr(k, p - bases[k]))
    decreases k - i
  {
    if i < k {
      LocateFirst(bases, p, i + 1, k);
    }
  }

  // The pool found is the first of those from i on that reach from their start to just past their end.
  lemma {:induction false} LocateIs(bases: seq<nat>, p: nat, i: nat)
    requires i <= |bases|
    ensures Locate(bases, p, i).None? <==>
      forall k :: i <= k < |bases| ==> !(bases[k] <= p <= bases[k] + 0x640_0000)
    ensures Locate(bases, p, i).Some? ==>
      var a := Locate(bases, p, i).value;
      && i <= a.poolIdx < |bases| && bases[a.poolIdx] <= p <= bases[a.poolIdx] + 0x640_0000
      && a.offset == p - bases[a.poolIdx]
      && forall k :: i <= k < a.poolIdx ==> !(bases[k] <= p <= bases[k] + 0x640_0000)
    decreases |bases| - i
  {
    if i < |bases| { LocateIs(bases, p, i + 1); }
  }

  lemma {:induction false} LocateEarlier(bases: seq<nat>, p: nat, i: nat, k: nat)
    requires i <= k < |bases| && InRange(bases[k], p)
    ensures var r := Locate(bases, p, i);
      r.Some? && i <= r.value.poolIdx <= k
    decreases k - i
  {
    if i < k && !InRange(bases[i], p) {
      LocateEarlier(bases, p, i + 1, k);
    }
  }

  // The search for a pointer into pool k finds pool k, unless the pointer is the first byte of the pool and
  // an earlier pool in the list ends right there.
  lemma AddressRoundTrip(bases: seq<nat>, k: nat, offset: nat)
    requires NoOverlap(bases) && k < |bases| && offset < POOL_SIZE
    ensures Locate(bases, bases[k] + offset, 0) == Some(Addr(k, offset))
      <==> !(offset == 0 && exists j :: 0 <= j < k && bases[j] + POOL_SIZE == bases[k])
  {
    var p := bases[k] + offset;
    if j :| 0 <= j < k && InRange(bases[j], p) {
      LocateEarlier(bases, p, 0, j);
      assert offset == 0 && bases[j] + POOL_SIZE == bases[k];
    } else {
      LocateFirst(bases, p, 0, k);
      forall j | 0 <= j < k && offset == 0 ensures bases[j] + POOL_SIZE != bases[k] {
        assert !InRange(bases[j], p);
      }
    }
  }

  class Db {
    // Where the environment maps each pool (shm_info).
    const bases: seq<nat>
    // The pools in use.
    var pools: seq<Pool.Pool>
    // The addresses of all payloads handed out and not yet given back.
    ghost var live: set<Addr>
    ghost var Repr: set<object>

    ghost predicate Owned()
      reads this
    {
      && this in Repr && |pools| <= |bases| == POOL_LIST_SIZE
      && NoOverlap(bases) && (forall i :: 0 <= i < |bases| ==> bases[i] > 0)
      && (forall i :: 0 <= i < |pools| ==> {pools[i], pools[i].mem, pools[i].lists} <= Repr)
      && (forall i, j :: 0 <= i < j < |pools| ==>
            pools[i] != pools[j] && pools[i].mem != pools[j].mem && pools[i].lists != pools[j].lists)
    }

    ghost predicate LiveAt(a: Addr)
      reads this, Repr
      requires Owned()
    {
      0 <= a.poolIdx < |pools| && pools[a.poolIdx].Live(a.offset)
    }

    ghost predicate Valid()
      reads this, Repr
      ensures Valid() ==> Owned()
    {
      && Owned()
      && (forall i :: 0 <= i < |pools| ==> pools[i].Valid())
      && (forall a :: a in live <==> LiveAt(a))
    }

    // A database with its first pool (touchdb.c:190-201).
    constructor (bases: seq<nat>)
      requires |bases| == POOL_LIST_SIZE && NoOverlap(bases) && forall i :: 0 <= i < |bases| ==> bases[i] > 0
      ensures Valid() && fresh(Repr) && live == {} && this.bases == bases
    {
      this.bases := bases;
      var pool := new Pool.Pool();
      pools, live := [pool], {};
      Repr := {this, pool, pool.mem, pool.lists};
    }

    // Every pool in use before number n has neither a free block nor room for the class.
    ghost predicate ExhaustedBelow(n: int, idx: nat)
      reads this, Repr
      requires Owned()
    {
      forall j :: 0 <= j < n && j < |pools| ==> pools[j].Exhausted(idx)
    }

    // No pool, present or future, can serve a request of this size.
    ghost predicate CannotServe(size: nat)
      reads this, Repr
      requires Owned()
    {
      !HasClass(size) || (|pools| == POOL_LIST_SIZE && ExhaustedBelow(|pools|, FreeListIdx(size)))
    }

    // A request of no class, or 10 pools each without a free block or room for one.
    lemma CannotServeMeans(size: nat)
      requires Valid()
      ensures CannotServe(size) <==>
        || !(1 <= size <= 0x10_0000)
        || (&& |pools| == 10
            && var payload := (size + 7) / 8 * 8;
            && forall j :: 0 <= j < |pools| ==>
              && |pools[j].queues| == 0x2_0000 && pools[j].queues[payload / 8 - 1] == []
              && pools[j].cur + 16 + payload > 0x640_0000)
    {
      hide Pool.Consistent;
      forall j | 0 <= j < |pools| ensures |pools[j].queues| == 0x2_0000 {
        Pool.ConsistentBounds(pools[j].mem[..], pools[j].lists[..], pools[j].cur, pools[j].carved, pools[j].cls,
                              pools[j].live, pools[j].queues, pools[j].peak);
      }
    }

    // The payload at address a has room for size bytes and less than 8 to spare, all of it inside its pool.
    ghost predicate Room(a: Addr, size: nat)
      reads this, Repr
      requires Owned()
    {
      && 0 <= a.poolIdx < |pools| && a.offset > BLK_HDR_SIZE && a.offset - BLK_HDR_SIZE in pools[a.poolIdx].cls
      && var payload := Payload(pools[a.poolIdx].cls[a.offset - BLK_HDR_SIZE]);
      && size <= payload < size + 8 && a.offset + payload <= POOL_SIZE
    }

    // The payload bytes of every live block of every pool are as they were.
    twostate predicate PayloadsUntouched()
      reads this, Repr
      requires Owned() && old(Owned())
    {
      && |old(pools)| <= |pools|
      && forall i :: 0 <= i < |old(pools)| ==> pools[i] == old(pools)[i] && pools[i].PayloadsUntouched()
    }

    // Live payloads have the room they had.
    twostate predicate RoomsKept()
      reads this, Repr
      requires Owned() && old(Owned())
    {
      forall a: Addr, size: nat :: a in old(live) && old(Room(a, size)) ==> Room(a, size)
    }

    // touchdb_malloc (touchdb.c:231-273): the pointer, NULL on failure, and the address that denotes it.
    method Malloc(size: nat) returns (p: nat, addr: Addr)
      requires Valid()
      modifies Repr
      ensures p == NULL <==>
        !HasClass(size) || (old(ExhaustedBelow(|pools|, FreeListIdx(size))) && |old(pools)| == 10)
      ensures p == NULL ==> live == old(live) && Owned() && CannotServe(size)
      ensures p != NULL ==>
        && addr !in old(live) && live == old(live) + {addr}
        && 0 <= addr.poolIdx < |pools| <= |bases| && addr.offset > BLK_HDR_SIZE
        && p == bases[addr.poolIdx] + addr.offset && addr.offset < POOL_SIZE
        && old(ExhaustedBelow(addr.poolIdx, FreeListIdx(size)))
      ensures p != NULL ==>
        if addr.poolIdx < |old(pools)| then
          pools == old(pools) && pools[addr.poolIdx].Handed(addr.offset - BLK_HDR_SIZE, FreeListIdx(size))
        else
          addr.poolIdx == |old(pools)| == |pools| - 1 && pools[..|old(pools)|] == old(pools)
      ensures p != NULL ==> forall j :: 0 <= j < |old(pools)| && j != addr.poolIdx ==> old(pools)[j].Unchanged()
      ensures p != NULL ==> Owned() && Room(addr, size)
      ensures Owned() && PayloadsUntouched() && RoomsKept()
      ensures fresh(Repr - old(Repr))
      ensures Valid()
    {
      hide Pool.Consistent;
      var i, o := TryAll(size);
      if o != NIL {
        return bases[i] + o, Addr(i, o);
      }
      p, addr := MallocInNewPool(size);
    }

    // The walk over the pools in use (touchdb.c:239-253): the first pool that can serve the request, and the payload.
    method TryAll(size: nat) returns (i: nat, o: nat)
      requires Valid()
      modifies Repr
      ensures pools == old(pools) && Repr == old(Repr)
      ensures forall j :: 0 <= j < |pools| && (o == NIL || j != i) ==> pools[j].Unchanged()
      ensures o == NIL ==> live == old(live)
      ensures o == NIL && HasClass(size) ==>
        old(ExhaustedBelow(|pools|, FreeListIdx(size))) && ExhaustedBelow(|pools|, FreeListIdx(size))
      ensures o != NIL ==>
        && i < |pools| && HasClass(size) && old(ExhaustedBelow(i, FreeListIdx(size)))
        && !old(pools[i].Exhausted(FreeListIdx(size)))
        && Addr(i, o) !in old(live) && live == old(live) + {Addr(i, o)} && BLK_HDR_SIZE < o < POOL_SIZE
        && Room(Addr(i, o), size) && pools[i].Handed(o - BLK_HDR_SIZE, FreeListIdx(size))
      ensures PayloadsUntouched() && RoomsKept()
      ensures Valid()
    {
      hide Pool.Consistent;
      i, o := 0, NIL;
      // Repair of touchdb.c:241 and :251: the walk visits each pool in use once and ends after the last.
      while i < |pools|
        invariant 0 <= i <= |pools| && pools == old(pools) && live == old(live) && Repr == old(Repr)
        invariant Valid() && o == NIL
        invariant HasClass(size) ==>
          old(ExhaustedBelow(i, FreeListIdx(size))) && ExhaustedBelow(i, FreeListIdx(size))
        invariant forall j :: 0 <= j < |pools| ==> pools[j].Unchanged()
      {
        o := TryPool(i, size);
        if o != NIL {
          return;
        }
        i := i + 1;
      }
    }

    // No pool in use can serve the request (touchdb.c:255-272).
    method MallocInNewPool(size: nat) returns (p: nat, addr: Addr)
      requires Valid()
      modifies Repr
      ensures p == NULL <==> !HasClass(size) || |old(pools)| == POOL_LIST_SIZE
      ensures p == NULL ==> live == old(live)
      ensures |old(pools)| == POOL_LIST_SIZE ==> pools == old(pools)
      ensures |old(pools)| <= |pools|
      ensures forall i :: 0 <= i < |old(pools)| ==> pools[i] == old(pools)[i] && pools[i].Unchanged()
      ensures p != NULL ==>
        && addr !in old(live) && live == old(live) + {addr}
        && addr.poolIdx == |old(pools)| && |pools| == |old(pools)| + 1 <= |bases| && addr.offset > BLK_HDR_SIZE
        && p == bases[addr.poolIdx] + addr.offset && addr.offset < POOL_SIZE
      ensures p != NULL ==> Owned() && Room(addr, size)
      ensures Owned() && RoomsKept()
      ensures fresh(Repr - old(Repr))
      ensures Valid()
    {
      hide Pool.Consistent;
      // Repair of touchdb.c:241 and :261: a new pool gets the next index, and only if there is one left.
      if |pools| == POOL_LIST_SIZE {
        return NULL, NULL_ADDR;
      }
      var i := |pools|;
      AddPool();
      var o := TryPool(i, size);
      if o == NIL {
        return NULL, NULL_ADDR;
      }
      return bases[i] + o, Addr(i, o);
    }

    // A new empty pool is put at the end of the list (touchdb.c:255-261).
    method AddPool()
      requires Valid() && |pools| < POOL_LIST_SIZE
      modifies this
      ensures |pools| == |old(pools)| + 1 && pools[..|old(pools)|] == old(pools) && live == old(live)
      ensures pools[|old(pools)|].live == {} && pools[|old(pools)|].cur == 1
      ensures Owned() && fresh(Repr - old(Repr)) && old(Repr) <= Repr
      ensures fresh(pools[|old(pools)|]) && fresh(pools[|old(pools)|].mem) && fresh(pools[|old(pools)|].lists)
      ensures Valid()
    {
      hide Pool.Consistent;
      var pool := new Pool.Pool();
      pools := pools + [pool];
      Repr := Repr + {pool, pool.mem, pool.lists};
    }

    // touchdb_free (touchdb.c:275-287).
    method Free(addr: Addr)
      requires Valid() && addr in live
      modifies Repr
      ensures 0 <= addr.poolIdx < |pools| && addr.offset >= BLK_HDR_SIZE
      ensures live == old(live) - {addr} && Repr == old(Repr) && pools == old(pools)
      ensures Owned() && PayloadsUntouched() && RoomsKept()
      ensures pools[addr.poolIdx].Returned(addr.offset - BLK_HDR_SIZE)
      ensures forall j :: 0 <= j < |pools| && j != addr.poolIdx ==> pools[j].Unchanged()
      ensures Valid()
    {
      hide Pool.Consistent;
      assert LiveAt(addr);
      FreeIn(addr.poolIdx, addr.offset);
    }

    // touchdb_pool_free in pool i (touchdb.c:279-281).
    method FreeIn(i: nat, o: nat)
      requires Valid() && i < |pools| && pools[i].Live(o)
      modifies pools[i], pools[i].mem, pools[i].lists, this`live
      ensures live == old(live) - {Addr(i, o)}
      ensures pools[i].PayloadsUntouched() && pools[i].Returned(o - BLK_HDR_SIZE)
      ensures Valid()
    {
      hide Pool.Consistent;
      assert forall j :: 0 <= j < |pools| && j != i ==>
        pools[j] != pools[i] && pools[j].mem != pools[i].mem && pools[j].lists != pools[i].lists;
      pools[i].Free(o);
      live := live - {Addr(i, o)};
    }

    // touchdb_ptr_of (touchdb.c:289-292, touchdb_pool.c:145-152).
    method PtrOf(addr: Addr) returns (p: nat)
      requires Valid() && 0 <= addr.poolIdx < |pools|
      ensures p == if addr.offset > POOL_SIZE then NULL else bases[addr.poolIdx] + addr.offset
    {
      if addr.offset > POOL_SIZE {
        return NULL;
      }
      p := bases[addr.poolIdx] + addr.offset;
    }

    // touchdb_addr_of (touchdb.c:294-316). None where the original gives up and exits.
    method AddrOf(p: nat) returns (r: Option<Addr>)
      requires Valid()
      ensures r == Locate(bases[..|pools|], p, 0)
      ensures r.None? <==> forall k :: 0 <= k < |pools| <= |bases| ==> !(bases[k] <= p <= bases[k] + 0x640_0000)
      ensures r.Some? ==>
        && 0 <= r.value.poolIdx < |pools| <= |bases| && r.value.offset == p - bases[r.value.poolIdx]
        && forall k :: 0 <= k < r.value.poolIdx ==> !(bases[k] <= p <= bases[k] + 0x640_0000)
      ensures forall a :: a in live && 0 <= a.poolIdx < |bases| && p == bases[a.poolIdx] + a.offset ==> r == Some(a)
    {
      LocateIs(bases[..|pools|], p, 0);
      var i := 0;
      while i < |pools|
        invariant 0 <= i <= |pools|
        invariant Locate(bases[..|pools|], p, i) == Locate(bases[..|pools|], p, 0)
      {
        if bases[i] <= p && p <= bases[i] + POOL_SIZE {
          r := Some(Addr(i, p - bases[i]));
          LiveLocated(p);
          return;
        }
        i := i + 1;
      }
      r := None;
      LiveLocated(p);
    }

    lemma LivePool(a: Addr)
      requires Valid() && a in live
      ensures 0 <= a.poolIdx < |pools| <= |bases| && BLK_HDR_SIZE < a.offset < POOL_SIZE
    {
      hide Pool.Consistent;
      assert LiveAt(a);
      pools[a.poolIdx].LiveInside(a.offset);
    }

    // The search finds every live payload.
    lemma LiveLocated(p: nat)
      requires Valid()
      ensures forall a :: a in live && 0 <= a.poolIdx < |bases| && p == bases[a.poolIdx] + a.offset ==>
        Locate(bases[..|pools|], p, 0) == Some(a)
    {
      hide Pool.Consistent;
      forall a | a in live && 0 <= a.poolIdx < |bases| && p == bases[a.poolIdx] + a.offset
        ensures Locate(bases[..|pools|], p, 0) == Some(a)
      {
        assert LiveAt(a);
        pools[a.poolIdx].LiveInside(a.offset);
        AddressRoundTrip(bases[..|pools|], a.poolIdx, a.offset);
      }
    }

    method TryPool(i: nat, size: nat) returns (o: nat)
      requires Valid() && i < |pools|
      modifies pools[i], pools[i].mem, pools[i].lists, this`live
      ensures o == NIL <==> !HasClass(size) || old(pools[i].Exhausted(FreeListIdx(size)))
      ensures o == NIL ==> live == old(live) && pools[i].Unchanged()
      ensures o == NIL && HasClass(size) ==> pools[i].Exhausted(FreeListIdx(size))
      ensures o != NIL ==> Addr(i, o) !in old(live) && live == old(live) + {Addr(i, o)} && BLK_HDR_SIZE < o < POOL_SIZE
      ensures o != NIL ==> Room(Addr(i, o), size) && pools[i].Handed(o - BLK_HDR_SIZE, FreeListIdx(size))
      ensures pools[i].PayloadsUntouched() && RoomsKept()
      ensures Valid()
    {
      hide Pool.Consistent;
      assert forall j :: 0 <= j < |pools| && j != i ==>
        pools[j] != pools[i] && pools[j].mem != pools[i].mem && pools[j].lists != pools[i].lists;
      o := pools[i].Malloc(size);
      if o != NIL {
        live := live + {Addr(i, o)};
      }
    }
  }
}
