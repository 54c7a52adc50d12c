/** The doubly linked chain of src/touchdb_chain.c, its nodes allocated from the database. */
module Chain {
  import opened Values
  import opened ChainSpec
  import opened Sequences
  import D = Db

  // The size of a node record in bytes.
  const NODE_SIZE: nat := 28

  // The result of a pull: null for an empty chain, a crash for want of memory, or the value, in a block of its own.
  datatype Pulled = Nothing | NoMemory | Got(val: Val, block: Addr)

  class Chain {
    const db: D.Db
    // touchdb_val_cmp
    const cmp: (Val, Val) -> int
    var header: Addr
    var tail: Addr
    var size: nat
    var nodes: Nodes
    // The nodes' addresses from header to tail.
    ghost var order: seq<Addr>

    ghost predicate Linked()
      reads this
    {
      && Spelled(nodes, order) && LeadsTo(header, order, 0) && LeadsTo(tail, order, |order| - 1)
      && size == |order|
    }

    ghost predicate Valid()
      reads this, db, db.Repr
    {
      db.Valid() && this !in db.Repr && Linked() && nodes.Keys <= db.live && Roomy()
    }

    // Each node has room for its record.
    ghost predicate Roomy()
      reads this, db, db.Repr
      requires db.Owned()
    {
      forall a :: a in nodes ==> db.Room(a, 28)
    }

    // The values from header to tail.
    ghost function Contents(): seq<Val>
      reads this
    {
      ValsOf(nodes, order)
    }

    // touchdb_chain_init (touchdb_chain.c:86-92)
    constructor (db: D.Db, cmp: (Val, Val) -> int)
      requires db.Valid()
      ensures Valid() && Contents() == [] && this.db == db && this.cmp == cmp && fresh(this)
    {
      this.db, this.cmp := db, cmp;
      header, tail, size := Addr(0, NIL), Addr(0, NIL), 0;
      nodes, order := map[], [];
    }

    // From the header the links spell the order of the nodes, from the tail its reverse.
    lemma Walks()
      requires Linked()
      ensures Forward(nodes, header, size) == order && Backward(nodes, tail, size) == Reversed(order)
    {
      hide Spelled, LeadsTo;
      WalksAgree(nodes, order, header, tail);
    }

    // ----- linking nodes in and out

    // A new node between two neighbours (touchdb_chain.c:23-46).
    method NewNode(next: Addr, prev: Addr, val: Val) returns (ok: bool, addr: Addr)
      requires Valid()
      modifies this`nodes, db.Repr
      ensures fresh(db.Repr - old(db.Repr)) && db.Valid() && this !in db.Repr
      ensures !ok ==> db.CannotServe(NODE_SIZE) && db.live == old(db.live) && nodes == old(nodes)
      ensures ok ==> addr !in old(db.live) && db.live == old(db.live) + {addr} && addr.offset != NIL
                     && nodes == old(nodes)[addr := ChainNode(prev, next, val)] && db.Room(addr, 28)
      ensures Roomy()
    {
      hide D.Db.Valid, D.Db.CannotServe, D.Db.Owned, D.Db.Room, D.Db.PayloadsUntouched, Linked;
      var p;
      p, addr := db.Malloc(NODE_SIZE);
      if p == D.NULL {
        return false, addr;
      }
      nodes := nodes[addr := ChainNode(prev, next, val)];
      ok := true;
    }

    // touchdb_chain_push_head (touchdb_chain.c:105-119)
    method PushHead(val: Val) returns (ok: bool)
      requires Valid()
      modifies this, db.Repr
      ensures fresh(db.Repr - old(db.Repr)) && db.Valid()
      ensures !ok ==> db.Valid() && db.CannotServe(NODE_SIZE)
      ensures Contents() == if ok then [val] + old(Contents()) else old(Contents())
      ensures ok ==> exists a :: a !in old(db.live) && db.live == old(db.live) + {a} && db.Room(a, 28)
      ensures !ok ==> db.live == old(db.live)
      ensures Valid()
    {
      hide D.Db.Valid, D.Db.CannotServe, D.Db.Owned, D.Db.Room, D.Db.PayloadsUntouched, Spelled, ValsOf, NodeAt,
           Spliced, Inserted;
      ghost var q, ns := order, nodes;
      if q != [] { PlaceFacts(ns, q, 0); }
      var addr;
      ok, addr := NewNode(header, NULL_ADDR, val);
      if !ok {
        return;
      }
      InsertedSpelled(ns, q, 0, addr, nodes[addr]);
      if size == 0 {
        header, tail := addr, addr;
      } else {
        // Repair of touchdb_chain.c:116, which sets the old head's next link instead of its prev link.
        nodes := nodes[header := nodes[header].(prev := addr)];
        header := addr;
      }
      size := size + 1;
      order := Inserted(q, 0, addr);
      SplicedOne(ns[addr := ChainNode(NULL_ADDR, old(header), val)], q, -1, addr, 0, addr);
      InsertedEnds(q, 0, addr);
      assert ValsOf(ns, q)[..0] == [] && ValsOf(ns, q)[0..] == ValsOf(ns, q);
    }

    // The node at place j.
    lemma PlaceFacts(ns: Nodes, q: seq<Addr>, j: nat)
      requires Spelled(ns, q) && j < |q|
      ensures q[j] in ns && q[j].offset != NIL && |ValsOf(ns, q)| == |q| && ValsOf(ns, q)[j] == ns[q[j]].val
      ensures LeadsTo(ns[q[j]].next, q, j + 1) && LeadsTo(ns[q[j]].prev, q, j - 1)
    {
      assert NodeAt(ns, q, j);
    }

    lemma ValsLength(ns: Nodes, q: seq<Addr>)
      ensures |ValsOf(ns, q)| == |q|
    {
    }

    // touchdb_chain_push_tail (touchdb_chain.c:121-135)
    method PushTail(val: Val) returns (ok: bool)
      requires Valid()
      modifies this, db.Repr
      ensures fresh(db.Repr - old(db.Repr)) && db.Valid()
      ensures !ok ==> db.Valid() && db.CannotServe(NODE_SIZE)
      ensures Contents() == if ok then old(Contents()) + [val] else old(Contents())
      ensures ok ==> exists a :: a !in old(db.live) && db.live == old(db.live) + {a} && db.Room(a, 28)
      ensures !ok ==> db.live == old(db.live)
      ensures Valid()
    {
      hide D.Db.Valid, D.Db.CannotServe, D.Db.Owned, D.Db.Room, D.Db.PayloadsUntouched, Spelled, ValsOf, NodeAt,
           Spliced, Inserted;
      ghost var q, ns := order, nodes;
      ValsLength(ns, q);
      if q != [] { PlaceFacts(ns, q, |q| - 1); }
      var addr;
      ok, addr := NewNode(NULL_ADDR, tail, val);
      if !ok {
        return;
      }
      InsertedSpelled(ns, q, |q|, addr, nodes[addr]);
      if size == 0 {
        header, tail := addr, addr;
      } else {
        nodes := nodes[tail := nodes[tail].(next := addr)];
        tail := addr;
      }
      size := size + 1;
      order := Inserted(q, |q|, addr);
      SplicedOne(ns[addr := ChainNode(old(tail), NULL_ADDR, val)], q, |q| - 1, addr, |q|, addr);
      InsertedEnds(q, |q|, addr);
      assert ValsOf(ns, q)[..|q|] == ValsOf(ns, q) && ValsOf(ns, q)[|q|..] == [];
    }

    // ----- searches

    // touchdb_chain_index_of (touchdb_chain.c:204-214): the first place whose value compares equal, or -1.
    method IndexOf(val: Val) returns (idx: int)
      requires Linked()
      ensures -1 <= idx < |Contents()|
      ensures idx >= 0 ==> cmp(Contents()[idx], val) == 0 && forall i :: 0 <= i < idx ==> cmp(Contents()[i], val) != 0
      ensures idx == -1 ==> forall i :: 0 <= i < |Contents()| ==> cmp(Contents()[i], val) != 0
    {
      hide Spelled, ValsOf;
      ValsLength(nodes, order);
      if order != [] { PlaceFacts(nodes, order, 0); }
      var n := header;
      idx := 0;
      while n.offset != NIL
        invariant 0 <= idx <= |order| && LeadsTo(n, order, idx)
        invariant idx < |order| ==> n in nodes && n.offset != NIL && Contents()[idx] == nodes[n].val
        invariant forall i :: 0 <= i < idx ==> cmp(Contents()[i], val) != 0
        decreases |order| - idx
      {
        PlaceFacts(nodes, order, idx);
        if cmp(nodes[n].val, val) == 0 {
          return;
        }
        idx, n := idx + 1, nodes[n].next;
        if idx < |order| { PlaceFacts(nodes, order, idx); }
      }
      idx := -1;
    }

    // touchdb_chain_node (touchdb_chain.c:240-249): the first node whose value compares equal, and its place.
    method Node(val: Val) returns (n: Addr, ghost idx: int)
      requires Linked()
      ensures -1 <= idx < |order| == |Contents()|
      ensures idx >= 0 ==> n == order[idx] && n in nodes && n.offset != NIL && cmp(Contents()[idx], val) == 0
      ensures idx >= 0 ==> forall i :: 0 <= i < idx ==> cmp(Contents()[i], val) != 0
      ensures idx == -1 ==> n.offset == NIL && forall i :: 0 <= i < |Contents()| ==> cmp(Contents()[i], val) != 0
      ensures n.offset != NIL <==> exists i :: 0 <= i < |Contents()| && cmp(Contents()[i], val) == 0
      ensures n.offset != NIL ==> n in nodes && cmp(nodes[n].val, val) == 0
    {
      hide Spelled, ValsOf;
      ValsLength(nodes, order);
      if order != [] { PlaceFacts(nodes, order, 0); }
      n, idx := header, 0;
      while n.offset != NIL
        invariant 0 <= idx <= |order| && LeadsTo(n, order, idx)
        invariant idx < |order| ==> n in nodes && n.offset != NIL && Contents()[idx] == nodes[n].val
        invariant forall i :: 0 <= i < idx ==> cmp(Contents()[i], val) != 0
        decreases |order| - idx
      {
        PlaceFacts(nodes, order, idx);
        if cmp(nodes[n].val, val) == 0 {
          return;
        }
        n, idx := nodes[n].next, idx + 1;
        if idx < |order| { PlaceFacts(nodes, order, idx); }
      }
      idx := -1;
    }

    // touchdb_chain_contains (touchdb_chain.c:288-291)
    method Contains(val: Val) returns (r: bool)
      requires Linked()
      ensures r <==> exists i :: 0 <= i < |Contents()| && cmp(Contents()[i], val) == 0
    {
      var n;
      ghost var idx;
      n, idx := Node(val);
      if idx >= 0 { PlaceFacts(nodes, order, idx); }
      r := n.offset != NIL;
    }

    // touchdb_chain_node_idx (touchdb_chain.c:216-228), counting from 1. The original returns the address of
    // the value inside the node; the node itself is what touchdb_chain_insert_idx (:200) needs.
    method NodeIdx(idx: int) returns (n: Addr)
      requires Linked()
      ensures if 1 <= idx <= |order| then n == order[idx - 1] && n in nodes && n.offset != NIL else n.offset == NIL
    {
      hide Spelled, ValsOf;
      if order != [] { PlaceFacts(nodes, order, 0); }
      var i := 0;
      n := header;
      while n.offset != NIL && i < idx - 1
        invariant i < |order| ==> n in nodes && n.offset != NIL
        invariant 0 <= i <= |order| && LeadsTo(n, order, i) && (i == 0 || i <= idx - 1)
        decreases |order| - i
      {
        PlaceFacts(nodes, order, i);
        i, n := i + 1, nodes[n].next;
        if i < |order| { PlaceFacts(nodes, order, i); }
      }
      if n.offset != NIL && i == idx - 1 {
        return;
      }
      n := NULL_ADDR;
    }

    // ----- taking values out

    // touchdb_chain_node_destroy (touchdb_chain.c:48-56) of a node with value v: the value's string is destroyed
    // (touchdb_common.c:41-55, touchdb_str.c:99-105), then the node.
    method DestroyNode(a: Addr, v: Val, strings: Strings)
      requires db.Valid() && this !in db.Repr && InPlace(strings, v) && a !in StringBlocks(strings, v)
      requires {a} + StringBlocks(strings, v) <= db.live
      modifies db.Repr
      ensures db.live == old(db.live) - ({a} + StringBlocks(strings, v)) && db.Repr == old(db.Repr) && db.Valid()
      ensures v.kind == StrVal ==> v.value !in db.live && strings[v.value] !in db.live
    {
      hide D.Db.Valid, D.Db.Owned, D.Db.PayloadsUntouched;
      if v.kind == StrVal {
        db.Free(strings[v.value]);
        db.Free(v.value);
      }
      DropNode(a);
    }

    // The same without the value (touchdb_chain.c:53-54).
    method DropNode(a: Addr)
      requires db.Valid() && this !in db.Repr && a in db.live
      modifies db.Repr
      ensures db.live == old(db.live) - {a} && db.Repr == old(db.Repr) && db.Valid() && db.RoomsKept()
    {
      hide D.Db.Valid, D.Db.PayloadsUntouched;
      db.LivePool(a);
      var p := db.PtrOf(a);
      var addr := db.AddrOf(p);
      db.Free(addr.value);
    }

    // touchdb_chain_pull_head (touchdb_chain.c:137-158)
    method PullHead() returns (r: Pulled)
      requires Valid()
      modifies this, db.Repr
      ensures fresh(db.Repr - old(db.Repr)) && db.Valid()
      ensures r.Nothing? <==> old(Contents()) == []
      ensures r.Nothing? ==> Contents() == [] && db.live == old(db.live)
      ensures r.NoMemory? ==> db.CannotServe(VAL_SIZE)
      ensures r.Got? ==>
        && old(Contents()) == [r.val] + Contents()
        && r.block !in old(db.live) && db.live == old(db.live) + {r.block} - {old(header)} && db.Room(r.block, 12)
      ensures !r.NoMemory? ==> Valid()
    {
      hide D.Db.Valid, D.Db.CannotServe, D.Db.Owned, D.Db.Room, D.Db.PayloadsUntouched, Spelled, ValsOf, LeadsTo;
      EndLinks();
      var n := header;
      if n.offset == NIL {
        return Nothing;
      }
      CutHead();
      var p, block := db.Malloc(VAL_SIZE);
      if p == D.NULL {
        return NoMemory;
      }
      r := Got(nodes[n].val, block);
      // Repair of touchdb_chain.c:155, which destroys the value too: it lives on, as the comment at :150-152 asks.
      DropNode(n);
      nodes := nodes - {n};
    }

    // The first node is linked out, and its record stays (touchdb_chain.c:142-148).
    method CutHead()
      requires Linked() && order != []
      modifies this`header, this`tail, this`size, this`nodes, this`order
      ensures nodes.Keys == old(nodes.Keys) && old(header) in nodes && nodes[old(header)] == old(nodes[header])
      ensures Spelled(nodes - {old(header)}, order) && size == |order|
      ensures LeadsTo(header, order, 0) && LeadsTo(tail, order, |order| - 1)
      ensures old(Contents()) == [nodes[old(header)].val] + ValsOf(nodes - {old(header)}, order)
    {
      hide Spelled, ValsOf, NodeAt, Spliced, Removed;
      ghost var q, ns := order, nodes;
      ValsLength(ns, q);
      PlaceFacts(ns, q, 0);
      if |q| > 1 { PlaceFacts(ns, q, 1); OtherEnds(ns, q); }
      var head := header;
      RemovedSpelled(ns, q, 0, nodes[head].next, NULL_ADDR);
      RemovedEnds(q, 0, nodes[head].next, NULL_ADDR);
      SplicedOne(ns, q, -1, nodes[head].next, 1, NULL_ADDR);
      header := nodes[head].next;
      if header.offset == NIL {
        tail := tail.(offset := NIL);
      } else {
        // Repair of touchdb_chain.c:145-147, which leaves the new head linked back to the old one.
        nodes := nodes[header := nodes[header].(prev := NULL_ADDR)];
      }
      size := size - 1;
      order := Removed(q, 0);
      assert ValsOf(ns, q) == [ValsOf(ns, q)[0]] + ValsOf(ns, q)[1..];
      assert ValsOf(ns, q)[..0] == [];
    }

    // The ends are nodes, or null together.
    lemma EndLinks()
      requires Linked()
      ensures header.offset == NIL <==> order == []
      ensures tail.offset == NIL <==> order == []
      ensures |Contents()| == |order|
      ensures order != [] ==> header in nodes && tail in nodes
    {
      hide Spelled, ValsOf;
      ValsLength(nodes, order);
      if order != [] { PlaceFacts(nodes, order, 0); PlaceFacts(nodes, order, |order| - 1); }
    }

    lemma OtherEnds(ns: Nodes, q: seq<Addr>)
      requires Spelled(ns, q) && |q| > 1
      ensures q[0] != q[1] && q[|q| - 1] != q[|q| - 2]
    {
    }

    // Nodes other than the one taken out are still allocated.
    lemma StillLive(ns: Nodes, q: seq<Addr>, p: nat, live: set<Addr>, block: Addr)
      requires Spelled(ns, q) && p < |q| && ns.Keys <= live && Spelled(nodes, order) && order == Removed(q, p)
      ensures nodes.Keys <= live + {block} - {q[p]}
    {
      RemovedDistinct(q, p);
    }

    // touchdb_chain_pull_tail (touchdb_chain.c:160-178)
    method PullTail() returns (r: Pulled)
      requires Valid()
      modifies this, db.Repr
      ensures fresh(db.Repr - old(db.Repr)) && db.Valid()
      ensures r.Nothing? <==> old(Contents()) == []
      ensures r.Nothing? ==> Contents() == [] && db.live == old(db.live)
      ensures r.NoMemory? ==> db.CannotServe(VAL_SIZE)
      ensures r.Got? ==>
        && old(Contents()) == Contents() + [r.val]
        && r.block !in old(db.live) && db.live == old(db.live) + {r.block} - {old(tail)} && db.Room(r.block, 12)
      ensures !r.NoMemory? ==> Valid()
    {
      hide D.Db.Valid, D.Db.CannotServe, D.Db.Owned, D.Db.Room, D.Db.PayloadsUntouched, Spelled, ValsOf, LeadsTo;
      EndLinks();
      var n := tail;
      if n.offset == NIL {
        return Nothing;
      }
      CutTail();
      var p, block := db.Malloc(VAL_SIZE);
      if p == D.NULL {
        return NoMemory;
      }
      r := Got(nodes[n].val, block);
      // Repair of touchdb_chain.c:175, which destroys the value too: it lives on, as the comment at :150-152 asks.
      DropNode(n);
      nodes := nodes - {n};
    }

    // The last node is linked out, and its record stays (touchdb_chain.c:165-171).
    method CutTail()
      requires Linked() && order != []
      modifies this`header, this`tail, this`size, this`nodes, this`order
      ensures nodes.Keys == old(nodes.Keys) && old(tail) in nodes && nodes[old(tail)] == old(nodes[tail])
      ensures Spelled(nodes - {old(tail)}, order) && size == |order|
      ensures LeadsTo(header, order, 0) && LeadsTo(tail, order, |order| - 1)
      ensures old(Contents()) == ValsOf(nodes - {old(tail)}, order) + [nodes[old(tail)].val]
    {
      hide Spelled, ValsOf, NodeAt, Spliced, Removed;
      ghost var q, ns, z := order, nodes, |order| - 1;
      ValsLength(ns, q);
      PlaceFacts(ns, q, z);
      if |q| > 1 { PlaceFacts(ns, q, z - 1); OtherEnds(ns, q); }
      var last := tail;
      RemovedSpelled(ns, q, z, NULL_ADDR, nodes[last].prev);
      RemovedEnds(q, z, NULL_ADDR, nodes[last].prev);
      SplicedOne(ns, q, z - 1, NULL_ADDR, z + 1, nodes[last].prev);
      tail := nodes[last].prev;
      if tail.offset == NIL {
        header := header.(offset := NIL);
      } else {
        // Repair of touchdb_chain.c:168-170, which leaves the new tail linked on to the old one.
        nodes := nodes[tail := nodes[tail].(next := NULL_ADDR)];
      }
      size := size - 1;
      order := Removed(q, z);
      assert ValsOf(ns, q) == ValsOf(ns, q)[..z] + [ValsOf(ns, q)[z]];
      assert ValsOf(ns, q)[z + 1..] == [];
    }

    // touchdb_chain_insert (touchdb_chain.c:180-195): after node n, which stands at place j.
    method Insert(n: Addr, val: Val, ghost j: nat) returns (ok: bool)
      requires Valid() && (n.offset != NIL ==> j < |order| && order[j] == n)
      modifies this, db.Repr
      ensures fresh(db.Repr - old(db.Repr)) && db.Valid()
      ensures n.offset == NIL ==> ok && Contents() == old(Contents()) && db.live == old(db.live)
      ensures n.offset != NIL && ok ==>
        && j < |old(Contents())| && Contents() == old(Contents())[..j + 1] + [val] + old(Contents())[j + 1..]
        && exists a :: a !in old(db.live) && db.live == old(db.live) + {a} && db.Room(a, 28)
      ensures !ok ==> db.CannotServe(NODE_SIZE) && Contents() == old(Contents()) && db.live == old(db.live)
      ensures Valid()
    {
      hide D.Db.Valid, D.Db.CannotServe, D.Db.Owned, D.Db.Room, D.Db.PayloadsUntouched, Spelled, ValsOf, NodeAt,
           Inserted, Spliced;
      if n.offset == NIL {
        return true;
      }
      ghost var q, ns := order, nodes;
      ValsLength(ns, q);
      PlaceFacts(ns, q, j);
      if j + 1 < |q| { PlaceFacts(ns, q, j + 1); }
      db.LivePool(n);
      var p := db.PtrOf(n);
      var naddr := db.AddrOf(p);
      var next := nodes[n].next;
      var addr;
      ok, addr := NewNode(next, naddr.value, val);
      if !ok {
        return;
      }
      LinkAfter(n, next, addr, ns, j);
    }

    // A new node is linked in after node n (touchdb_chain.c:191-194).
    method LinkAfter(n: Addr, next: Addr, addr: Addr, ghost ns: Nodes, ghost j: nat)
      requires Spelled(ns, order) && LeadsTo(header, order, 0) && LeadsTo(tail, order, |order| - 1) && size == |order|
      requires j < |order| && order[j] == n && n in ns && ns[n].next == next && addr !in ns && addr.offset != NIL
      requires addr in nodes && nodes == ns[addr := nodes[addr]]
      requires nodes[addr].prev == n && nodes[addr].next == next
      modifies this`nodes, this`header, this`tail, this`size, this`order
      ensures Linked() && order == Inserted(old(order), j + 1, addr) && nodes.Keys == ns.Keys + {addr}
      ensures var was := ValsOf(ns, old(order));
        j < |was| && Contents() == was[..j + 1] + [old(nodes)[addr].val] + was[j + 1..]
    {
      hide Spelled, ValsOf, NodeAt, Inserted, Spliced;
      ghost var q, added := order, nodes[addr];
      ValsLength(ns, q);
      PlaceFacts(ns, q, j);
      if j + 1 < |q| { PlaceFacts(ns, q, j + 1); }
      InsertedSpelled(ns, q, j + 1, addr, added);
      InsertedEnds(q, j + 1, addr);
      DistinctPlaces(ns, q, j);
      SplicedKeys(ns[addr := added], q, j, addr, j + 1);
      // Repair of touchdb_chain.c:191-192, which has no case for a node without a successor.
      if next.offset != NIL {
        nodes := nodes[next := nodes[next].(prev := addr)];
      } else {
        tail := addr;
      }
      nodes := nodes[n := nodes[n].(next := addr)];
      size := size + 1;
      SplicedOne(ns[addr := added], q, j, addr, j + 1, addr);
      SplicedBoth(ns[addr := added], q, j, addr, j + 1, addr);
      order := Inserted(q, j + 1, addr);
    }

    lemma SplicedKeys(ns: Nodes, q: seq<Addr>, i: int, a: Addr, k: int)
      ensures Spliced(ns, q, i, a, k, a).Keys == ns.Keys
    {
    }

    lemma DistinctPlaces(ns: Nodes, q: seq<Addr>, j: nat)
      requires Spelled(ns, q) && j < |q|
      ensures j + 1 < |q| ==> q[j] != q[j + 1]
      ensures 0 < j ==> q[j - 1] != q[j]
      ensures 0 < j && j + 1 < |q| ==> q[j - 1] != q[j + 1]
      ensures j > 0 ==> q[j] != q[0]
      ensures j < |q| - 1 ==> q[j] != q[|q| - 1]
    {
    }

    // touchdb_chain_insert_idx (touchdb_chain.c:197-202): after the idx-th node, nothing if there is none.
    method InsertIdx(idx: int, val: Val) returns (ok: bool)
      requires Valid()
      modifies this, db.Repr
      ensures fresh(db.Repr - old(db.Repr)) && db.Valid()
      ensures !(1 <= idx <= |old(Contents())|) ==> ok && Contents() == old(Contents())
      ensures 1 <= idx <= |old(Contents())| && ok ==>
        && Contents() == old(Contents())[..idx] + [val] + old(Contents())[idx..]
        && exists a :: a !in old(db.live) && db.live == old(db.live) + {a} && db.Room(a, 28)
      ensures !ok || !(1 <= idx <= |old(Contents())|) ==> db.live == old(db.live)
      ensures !ok ==> db.CannotServe(NODE_SIZE) && Contents() == old(Contents())
      ensures Valid()
    {
      hide D.Db.Valid, D.Db.CannotServe, D.Db.Owned, D.Db.Room, D.Db.PayloadsUntouched, Spelled, ValsOf;
      ValsLength(nodes, order);
      // Repair of touchdb_chain.c:200, which passes on the address of the node's value.
      var n := NodeIdx(idx);
      ok := Insert(n, val, if 1 <= idx then idx - 1 else 0);
    }

    // touchdb_chain_del (touchdb_chain.c:264-286): the first node whose value compares equal is unlinked and
    // handed to the caller, null if there is none.
    method Del(val: Val) returns (n: Addr, ghost idx: int)
      requires Valid()
      modifies this
      ensures -1 <= idx < |old(Contents())|
      ensures idx == -1 ==> n.offset == NIL && Contents() == old(Contents())
      ensures idx == -1 ==> forall i :: 0 <= i < |old(Contents())| ==> cmp(old(Contents())[i], val) != 0
      ensures idx >= 0 ==>
        && n == old(order)[idx] && n in db.live && n !in nodes
        && cmp(old(Contents())[idx], val) == 0 && (forall i :: 0 <= i < idx ==> cmp(old(Contents())[i], val) != 0)
        && Contents() == old(Contents())[..idx] + old(Contents())[idx + 1..]
      ensures Valid()
    {
      hide D.Db.Valid, Spelled, ValsOf, NodeAt, Removed, Spliced;
      n, idx := Node(val);
      if n.offset == NIL {
        return;
      }
      ghost var q, ns := order, nodes;
      ValsLength(ns, q);
      Unlink(n, idx);
      StillLive(ns, q, idx, db.live, n);
    }

    // The node at place idx is taken out of the links (touchdb_chain.c:272-284).
    method Unlink(n: Addr, ghost idx: nat)
      requires Linked() && idx < |order| && order[idx] == n
      modifies this`nodes, this`header, this`tail, this`size, this`order
      ensures Linked() && order == Removed(old(order), idx) && nodes.Keys <= old(nodes.Keys) && n !in nodes
      ensures idx < |old(Contents())| && Contents() == old(Contents())[..idx] + old(Contents())[idx + 1..]
    {
      hide Spelled, ValsOf, NodeAt, Removed, Spliced;
      ghost var q, ns := order, nodes;
      ValsLength(ns, q);
      PlaceFacts(ns, q, idx);
      if idx + 1 < |q| { PlaceFacts(ns, q, idx + 1); }
      if idx > 0 { PlaceFacts(ns, q, idx - 1); }
      DistinctPlaces(ns, q, idx);
      var prev, next := nodes[n].prev, nodes[n].next;
      RemovedSpelled(ns, q, idx, next, prev);
      RemovedEnds(q, idx, next, prev);
      if prev.offset != NIL {
        nodes := nodes[prev := nodes[prev].(next := next)];
      }
      if next.offset != NIL {
        nodes := nodes[next := nodes[next].(prev := prev)];
      }
      SplicedOne(ns, q, idx - 1, next, idx + 1, prev);
      SplicedBoth(ns, q, idx - 1, next, idx + 1, prev);
      if n == header {
        header := next;
      }
      if n == tail {
        tail := prev;
      }
      size := size - 1;
      nodes, order := nodes - {n}, Removed(q, idx);
    }

    // touchdb_chain_destory (touchdb_chain.c:293-303): every node is given back, and its value's string if it
    // has one.
    method Destroy(strings: Strings)
      requires Valid() && OwnBlocks(nodes, strings, order) && AllBlocks(nodes, strings, order) <= db.live
      modifies db.Repr
      ensures db.live == old(db.live) - AllBlocks(nodes, strings, order) && db.Repr == old(db.Repr) && db.Valid()
    {
      hide D.Db.Valid, ValsOf, NodeAt, OwnBlocks, NodeBlocks, Spelled, StringBlocks, InPlace;
      var head := header;
      ghost var i := 0;
      if order != [] { PlaceFacts(nodes, order, 0); }
      assert order[..|order|] == order;
      while head.offset != NIL
        invariant 0 <= i <= |order| && LeadsTo(head, order, i)
        invariant i < |order| ==> head in nodes && head.offset != NIL
        invariant db.Valid() && db.Repr == old(db.Repr)
        invariant db.live == old(db.live) - AllBlocks(nodes, strings, order[..i])
        decreases |order| - i
      {
        PlaceFacts(nodes, order, i);
        BlocksAt(strings, i);
        var p := head;
        head := nodes[head].next;
        DestroyNode(p, nodes[p].val, strings);
        i := i + 1;
        if i < |order| { PlaceFacts(nodes, order, i); }
      }
    }

    // The blocks of the node at place i, which are still there when those of the nodes before it are not.
    lemma BlocksAt(strings: Strings, i: nat)
      requires OwnBlocks(nodes, strings, order) && i < |order| && order[i] in nodes
      ensures var a := order[i];
        && InPlace(strings, nodes[a].val) && a !in StringBlocks(strings, nodes[a].val)
        && {a} + StringBlocks(strings, nodes[a].val) == NodeBlocks(nodes, strings, a)
        && AllBlocks(nodes, strings, order[..i + 1])
           == AllBlocks(nodes, strings, order[..i]) + NodeBlocks(nodes, strings, a)
        && AllBlocks(nodes, strings, order[..i]) !! NodeBlocks(nodes, strings, a)
      ensures NodeBlocks(nodes, strings, order[i]) <= AllBlocks(nodes, strings, order)
    {
      assert order[..i + 1][..i] == order[..i];
      BlocksApart(nodes, strings, order, i, i);
      PartOfAll(nodes, strings, order, i);
    }
  }

  // touchdb_chain_cmp (touchdb_chain.c:315-335)
  method Compare(c1: Chain, c2: Chain) returns (r: int)
    requires c1.Linked() && c2.Linked() && c1.cmp == c2.cmp
    ensures r == Compared(c1.cmp, c1.Contents(), c2.Contents())
    ensures var s, t := c1.Contents(), c2.Contents();
      var i := FirstDifference(c1.cmp, s, t);
      && i <= |s| && i <= |t| && (forall j :: 0 <= j < i ==> c1.cmp(s[j], t[j]) == 0)
      && if i < |s| && i < |t| then r == c1.cmp(s[i], t[i]) && r != 0
         else if |s| > |t| then r == 1
         else if |s| < |t| then r == -1
         else r == 0
  {
    hide Spelled, ValsOf, NodeAt, FirstDifference;
    ComparedIs(c1.cmp, c1.Contents(), c2.Contents());
    FirstDifferenceIs(c1.cmp, c1.Contents(), c2.Contents());
    c1.ValsLength(c1.nodes, c1.order);
    c2.ValsLength(c2.nodes, c2.order);
    var p, q := c1.header, c2.header;
    ghost var i, s, t := 0, c1.Contents(), c2.Contents();
    assert s[0..] == s && t[0..] == t;
    if i < |s| { c1.PlaceFacts(c1.nodes, c1.order, i); }
    if i < |t| { c2.PlaceFacts(c2.nodes, c2.order, i); }
    while p.offset != NIL && q.offset != NIL
      invariant 0 <= i <= |s| && i <= |t| && LeadsTo(p, c1.order, i) && LeadsTo(q, c2.order, i)
      invariant (p.offset != NIL <==> i < |s|) && (q.offset != NIL <==> i < |t|)
      invariant Compared(c1.cmp, s, t) == Compared(c1.cmp, s[i..], t[i..])
      decreases |s| - i
    {
      c1.PlaceFacts(c1.nodes, c1.order, i);
      c2.PlaceFacts(c2.nodes, c2.order, i);
      r := c1.cmp(c1.nodes[p].val, c2.nodes[q].val);
      if r != 0 {
        return;
      }
      p, q, i := c1.nodes[p].next, c2.nodes[q].next, i + 1;
      if i < |s| { c1.PlaceFacts(c1.nodes, c1.order, i); }
      if i < |t| { c2.PlaceFacts(c2.nodes, c2.order, i); }
    }
    if p.offset != NIL {
      return 1;
    } else if q.offset != NIL {
      return -1;
    }
    r := 0;
  }

  // ----- runs

  // One step of a run. `ok` is false for want of memory.
  method Take(c: Chain, step: Step, pulled: seq<Val>) returns (ok: bool, pulled': seq<Val>)
    requires c.Valid()
    modifies c, c.db.Repr
    ensures fresh(c.db.Repr - old(c.db.Repr)) && c.db.Valid()
    ensures ok ==> c.Valid()
    ensures ok ==>
      Account(c.Contents(), pulled') == Stepped(c.cmp, Account(old(c.Contents()), pulled), step)
    ensures ok && step.AtHead? ==> c.Contents() == [step.val] + old(c.Contents())
    ensures ok && step.AtTail? ==> c.Contents() == old(c.Contents()) + [step.val]
    ensures ok && step.FromHead? && old(c.Contents()) != [] ==> old(c.Contents()) == pulled'[|pulled|..] + c.Contents()
    ensures ok && step.FromTail? && old(c.Contents()) != [] ==> old(c.Contents()) == c.Contents() + pulled'[|pulled|..]
    ensures ok && step.After? && 1 <= step.idx <= |old(c.Contents())| ==>
      c.Contents() == old(c.Contents())[..step.idx] + [step.val] + old(c.Contents())[step.idx..]
    ensures !ok ==> c.db.CannotServe(NODE_SIZE) || c.db.CannotServe(VAL_SIZE)
    ensures !ok && !step.FromHead? && !step.FromTail? ==> c.Valid() && c.Contents() == old(c.Contents())
  {
    hide Chain.Linked, D.Db.Valid, D.Db.CannotServe, D.Db.Owned, ValsOf;
    ok, pulled' := true, pulled;
    match step
    case AtHead(v) => ok := c.PushHead(v);
    case AtTail(v) => ok := c.PushTail(v);
    case FromHead =>
      var r := c.PullHead();
      ok := !r.NoMemory?;
      if r.Got? { pulled' := pulled + [r.val]; }
    case FromTail =>
      var r := c.PullTail();
      ok := !r.NoMemory?;
      if r.Got? { pulled' := pulled + [r.val]; }
    case After(idx, v) => ok := c.InsertIdx(idx, v);
    case Delete(v) =>
      ghost var s := c.Contents();
      var n;
      ghost var idx;
      n, idx := c.Del(v);
      FirstEqualIs(c.cmp, s, v, if idx == -1 then |s| else idx);
  }

  // Any run of pushes, pulls, insertions and deletions, of which `done` steps succeed: the chain holds what the
  // reference sequence does, the same values have been pulled, and both walks agree.
  method Replay(c: Chain, steps: seq<Step>) returns (done: nat, pulled: seq<Val>)
    requires c.Valid()
    modifies c, c.db.Repr
    ensures done <= |steps| && c.db.Valid()
    ensures done == |steps| || !(steps[done].FromHead? || steps[done].FromTail?) ==>
      && c.Valid()
      && Account(c.Contents(), pulled) == Replayed(c.cmp, Account(old(c.Contents()), []), steps[..done])
      && Forward(c.nodes, c.header, c.size) == c.order
      && Backward(c.nodes, c.tail, c.size) == Reversed(c.order)
    ensures done < |steps| ==> c.db.CannotServe(NODE_SIZE) || c.db.CannotServe(VAL_SIZE)
  {
    hide Chain.Linked, D.Db.Valid, D.Db.CannotServe, D.Db.Owned, ValsOf, Stepped, Forward, Backward, Reversed;
    done, pulled := 0, [];
    while done < |steps|
      invariant done <= |steps| && c.Valid() && fresh(c.db.Repr - old(c.db.Repr))
      invariant Account(c.Contents(), pulled) == Replayed(c.cmp, Account(old(c.Contents()), []), steps[..done])
    {
      var ok, pulled' := Take(c, steps[done], pulled);
      if !ok {
        if !(steps[done].FromHead? || steps[done].FromTail?) { c.Walks(); }
        return;
      }
      pulled := pulled';
      assert steps[..done + 1][..done] == steps[..done];
      done := done + 1;
    }
    c.Walks();
  }
}
