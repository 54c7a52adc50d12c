/** The hash map of src/touchdb_map.c on blocks of src/touchdb.c's allocator, with the string layer on top. */
module HashMap {
  import opened Bits
  import opened CStrings
  import opened Values
  import opened HashMapSpec
  import opened HashMapSteps
  import D = Db

  // Record sizes in bytes.
  const ENTRY_SIZE: nat := 40
  const BULK_SIZE: nat := 20
  const STR_SIZE: nat := 12

  const MAX_CAPACITY: nat := 0x4000_0000

  // hash_code (touchdb_map.c:36-44)
  method ComputeHashCode(str: CStr) returns (h: int)
    ensures h == HashCode(str) == ToInt32(Weighed(str, |str|))
  {
    h := 0;
    var p := 0;
    while p < |str|
      invariant p <= |str| && h == HashCode(str[..p])
    {
      assert str[..p + 1][..p] == str[..p];
      h := ToInt32(31 * h + SignedChar(str[p]));
      p := p + 1;
    }
    assert str[..p] == str;
    HashCodeIs(str);
  }

  ghost predicate LeastPower(capacity: nat, count: nat, e: nat) {
    var c := if capacity > MAX_CAPACITY then MAX_CAPACITY else capacity;
    count == Pow2(e) && c <= count && forall j :: c <= Pow2(j) ==> e <= j
  }

  // The number of buckets for a capacity (touchdb_map.c:100-105): the least power of two that is at least
  // min(capacity, 2^30). No value on the way exceeds an int.
  method BucketCount(capacity: nat) returns (count: nat, ghost e: nat)
    ensures LeastPower(capacity, count, e) && count == Pow2(e) <= 0x4000_0000 && e <= 30
    ensures (capacity <= 0x4000_0000 ==> capacity <= count) && (capacity > 0x4000_0000 ==> count == 0x4000_0000)
    ensures e > 0 ==> Pow2(e - 1) < capacity
  {
    var c := if capacity > MAX_CAPACITY then MAX_CAPACITY else capacity;
    count, e := 1, 0;
    assert Pow2(30) == MAX_CAPACITY by { assert Pow2(10) == 1024; assert Pow2(20) == 1024 * 1024; }
    while count < c
      invariant count == Pow2(e) && e <= 30
      invariant forall j :: c <= Pow2(j) ==> e <= j
      decreases 30 - e
    {
      assert Pow2(e) < c;
      assert IsInt32(count * 2) by { Pow2Bound(e + 1); }
      count, e := count * 2, e + 1;
    }
    Pow2Bound(e);
  }

  lemma Pow2Bound(e: nat)
    requires e <= 30
    ensures Pow2(e) <= MAX_CAPACITY
  {
    assert Pow2(10) == 1024;
    assert Pow2(20) == 1024 * 1024;
    assert Pow2(30) == MAX_CAPACITY;
    if e < 30 { Pow2Grows(e, 30); }
  }

  lemma EmptyConsistent(table: Addr, count: nat, bulks: seq<Bulk>)
    requires bulks == seq(count, _ => Bulk(NULL_ADDR, NULL_ADDR, 0))
    ensures var v := View(map[table := Table(bulks)], table, 0, map[], seq(count, _ => []), map[]);
      Consistent(v, {}) && Contents(v) == map[] && Texts(v) == map[]
  {
  }

  class HashMap {
    const db: D.Db
    const table: Addr
    const count: nat
    // The blocks this map has allocated, by address, and the number of its entries.
    var heap: Heap
    var size: nat

    ghost const exponent: nat
    ghost var index: map<CStr, Addr>
    ghost var chains: seq<seq<Addr>>
    ghost var owner: map<Addr, CStr>
    // Live blocks of the database that are not the map's.
    ghost var others: set<Addr>

    ghost function Now(): View
      reads this
    {
      View(heap, table, size, index, chains, owner)
    }

    // The map is consistent, with its own blocks and the pending ones in the heap, and the database's live
    // blocks are these and the others.
    ghost predicate Holding(pending: set<Addr>)
      reads this, db, db.Repr
    {
      && db.Valid() && this !in db.Repr && Fits(heap)
      && Consistent(Now(), pending) && Owned()
      && |chains| == count == Pow2(exponent)
    }

    // Every block has room for what it holds.
    ghost predicate Fits(h: Heap)
      reads db, db.Repr
      requires db.Owned()
    {
      forall a :: a in h ==> db.Room(a, Bytes(h[a]))
    }

    lemma RoomInside(p: set<Addr>, a: Addr)
      requires Holding(p) && a in heap
      ensures match heap[a]
        case Table(bulks) => db.Room(a, 20 * |bulks|)
        case EntryCell(_) => db.Room(a, 40)
        case Key(chars) => db.Room(a, |chars| + 1)
        case Str(_, _) => db.Room(a, 12)
        case Text(text) => db.Room(a, |text| + 1)
        case Temp(_) => db.Room(a, 12)
    {
      hide D.Db.Valid, D.Db.Owned, D.Db.Room, Consistent;
    }

    lemma FitsChanged(h: Heap, h': Heap)
      requires db.Owned() && Fits(h) && forall a :: a in h' ==> a in h && Bytes(h'[a]) == Bytes(h[a])
      ensures Fits(h')
    {
      hide D.Db.Owned, D.Db.Room, Bytes;
    }

    lemma FitsAdded(h: Heap, a: Addr, c: Cell)
      requires db.Owned() && Fits(h) && db.Room(a, Bytes(c))
      ensures Fits(h[a := c])
    {
      hide D.Db.Owned, D.Db.Room, Bytes;
    }

    // Allocation and release beside these blocks leave them their room.
    twostate lemma FitsKept(h: Heap)
      requires old(db.Owned()) && db.Owned() && db.RoomsKept() && h.Keys <= old(db.live) && old(Fits(h))
      ensures Fits(h)
    {
      hide D.Db.Owned, D.Db.Room, Bytes;
    }

    ghost predicate Owned()
      reads this, db
    {
      db.live == heap.Keys + others && heap.Keys !! others
    }

    // touchdb_map_init (touchdb_map.c:88-119), once the bucket array is allocated and cleared.
    constructor (db: D.Db, table: Addr, count: nat, ghost e: nat, bulks: seq<Bulk>)
      requires db.Valid() && table in db.live && count == Pow2(e) && db.Room(table, 20 * count)
      requires bulks == seq(count, _ => Bulk(NULL_ADDR, NULL_ADDR, 0))
      ensures Holding({}) && Empty() && index == map[] && this.db == db && this.count == count
      ensures others == db.live - {table}
    {
      hide D.Db.Valid, Consistent, D.Db.Room, D.Db.Owned, Fits;
      this.db, this.table, this.count, exponent := db, table, count, e;
      heap, others := map[table := Table(bulks)], db.live - {table};
      // Repair: the original leaves the size as it is.
      size := 0;
      index, chains, owner := map[], seq(count, _ => []), map[];
      EmptyConsistent(table, count, bulks);
      new;
      FitsOne(table, bulks);
    }

    lemma FitsOne(a: Addr, bulks: seq<Bulk>)
      requires db.Owned() && db.Room(a, 20 * |bulks|)
      ensures Fits(map[a := Table(bulks)])
    {
      hide D.Db.Owned, D.Db.Room;
    }

    // get_entry (touchdb_map.c:66-86): the address of the entry of k, NULL_ADDR if there is none.
    method GetEntry(k: CStr, ghost p: set<Addr>) returns (entry: Addr)
      requires Holding(p)
      ensures entry == if k in index then index[k] else NULL_ADDR
      ensures k in index ==> entry in heap && entry.offset != NIL && heap[entry].EntryCell?
    {
      hide D.Db.Valid, Consistent, Hash, HashCode, HashOf, IndexFor, Bucket, BulkSpells, Strcmp, Fits;
      var hc := ComputeHashCode(k);
      var h := Hash(hc);
      HashOfIs(k);
      BulkAt(p, k);
      ghost var i := IndexFor(count, h);
      ghost var q := chains[i];
      // Repair of touchdb_map.c:75, which follows a null header address.
      entry := heap[table].bulks[IndexFor(count, h)].header;
      ghost var j := 0;
      EntryAt(p, i, 0);
      while entry.offset != NIL
        invariant j <= |q| && entry == (if j < |q| then q[j] else NULL_ADDR)
        invariant entry.offset != NIL <==> j < |q|
        invariant j < |q| ==> entry in heap && heap[entry].EntryCell?
        invariant forall m :: 0 <= m < j ==> q[m] in owner && owner[q[m]] != k
        decreases |q| - j
      {
        EntryAt(p, i, j);
        var n := heap[entry].entry;
        StrcmpZero(heap[n.key].chars, k);
        if n.hash == h {
          if Strcmp(heap[n.key].chars, k) == 0 {
            return;
          }
        }
        entry := n.next;
        j := j + 1;
        EntryAt(p, i, j);
      }
      NotFound(p, k);
    }

    // The bucket of k.
    lemma BulkAt(p: set<Addr>, k: CStr)
      requires Holding(p)
      ensures var i := IndexFor(count, HashOf(k));
        && i == Bucket(count, k) < count == |chains|
        && table in heap && heap[table].Table? && |heap[table].bulks| == count
        && var b, q := heap[table].bulks[i], chains[i];
        && b.header == (if q == [] then NULL_ADDR else q[0]) && b.tail == (if q == [] then NULL_ADDR else q[|q| - 1])
        && b.size == |q|
    {
      hide D.Db.Valid, HashOf, Stored, Accounted, Indexed;
      IndexForIsRemainder(exponent, HashOf(k));
      var i := IndexFor(count, HashOf(k));
      assert BulkSpells(heap[table].bulks[i], chains[i]);
    }

    lemma NotFound(p: set<Addr>, k: CStr)
      requires Holding(p) && Bucket(count, k) < |chains|
      requires var q := chains[Bucket(count, k)]; forall m :: 0 <= m < |q| ==> q[m] in owner && owner[q[m]] != k
      ensures k !in index
    {
      hide D.Db.Valid, Bucket, Chained, Accounted;
      if k in index {
        KeyFacts(heap, index, owner, k);
      }
    }

    lemma HashOfIs(k: CStr)
      ensures HashOf(k) == Hash(HashCode(k))
    {
    }

    // The entry at place j of chain i.
    lemma EntryAt(p: set<Addr>, i: nat, j: nat)
      requires Holding(p) && i < |chains|
      ensures forall m :: 0 <= m < |chains[i]| ==> chains[i][m].offset != NIL
      ensures j < |chains[i]| ==>
        var e := chains[i][j];
        && e in heap && heap[e].EntryCell? && e in owner && owner[e] in index && index[owner[e]] == e
        && heap[e].entry.next == (if j + 1 < |chains[i]| then chains[i][j + 1] else NULL_ADDR)
        && heap[e].entry.hash == HashOf(owner[e])
        && heap[e].entry.key in heap && heap[heap[e].entry.key] == Key(owner[e])
    {
      hide D.Db.Valid, HashOf, Bucket;
      forall m | 0 <= m < |chains[i]| ensures chains[i][m].offset != NIL {
        assert LinkSpells(heap, chains[i], m);
      }
      if j < |chains[i]| {
        assert LinkSpells(heap, chains[i], j);
        assert ChainedKey(index, owner, chains[i][j], i, |chains|);
        KeyFacts(heap, index, owner, owner[chains[i][j]]);
      }
    }

    // touchdb_val_destroy, touchdb_str_destory (touchdb_common.c:41-55, touchdb_str.c:99-105).
    method Destroy(v: Val)
      requires db.Valid() && this !in db.Repr && Owned() && StringInPlace(heap, v) && Fits(heap)
      modifies this`heap, db.Repr
      ensures heap == old(heap) - StringBlocks(old(heap), v) && Owned()
      ensures db.Repr == old(db.Repr) && db.Valid() && Fits(heap)
    {
      hide D.Db.Valid, D.Db.Owned, D.Db.Room, D.Db.RoomsKept, D.Db.PayloadsUntouched, Bytes, Fits;
      if v.kind == StrVal {
        var data := heap[v.value].data;
        FreeBlock(data);
        FreeBlock(v.value);
        assert heap == old(heap) - {v.value, data};
      }
    }

    // touchdb_malloc beside the map's blocks.
    method Allocate(size: nat) returns (p: nat, a: Addr)
      requires db.Valid() && this !in db.Repr && heap.Keys <= db.live && Fits(heap)
      modifies db.Repr
      ensures fresh(db.Repr - old(db.Repr)) && db.Valid() && this !in db.Repr && Fits(heap) && db.RoomsKept()
      ensures p == D.NULL ==> db.live == old(db.live) && db.CannotServe(size)
      ensures p != D.NULL ==>
        && a !in old(db.live) && db.live == old(db.live) + {a} && a.offset != NIL && db.Room(a, size)
    {
      hide D.Db.Valid, D.Db.CannotServe, D.Db.Owned, D.Db.Room, D.Db.RoomsKept, D.Db.PayloadsUntouched, Fits;
      p, a := db.Malloc(size);
      FitsKept(heap);
    }

    // touchdb_free of one of the map's blocks.
    method FreeBlock(a: Addr)
      requires db.Valid() && this !in db.Repr && Owned() && a in heap && Fits(heap)
      modifies this`heap, db.Repr
      ensures heap == old(heap) - {a} && db.live == old(db.live) - {a} && Owned()
      ensures db.Repr == old(db.Repr) && db.Valid() && Fits(heap)
    {
      hide D.Db.Valid, D.Db.Owned, D.Db.Room, D.Db.RoomsKept, D.Db.PayloadsUntouched, Bytes, Fits;
      ghost var h := heap;
      db.Free(a);
      FitsKept(h);
      heap := heap - {a};
      FitsChanged(h, heap);
    }

    // The value of an existing entry is replaced (touchdb_map.c:213-219).
    method Overwrite(k: CStr, entry: Addr, w: Val, ghost pending: set<Addr>) returns (oldVal: Val)
      requires Holding(pending) && k in index && entry == index[k]
      requires StringInPlace(heap, w) && StringBlocks(heap, w) <= pending
      modifies this`heap, this`owner, db.Repr
      ensures db.Repr == old(db.Repr)
      ensures k in Contents(old(Now())) && oldVal == Contents(old(Now()))[k]
      ensures StringInPlace(old(heap), oldVal) && db.live == old(db.live) - StringBlocks(old(heap), oldVal)
      ensures index == old(index) && chains == old(chains)
      ensures StringInPlace(heap, w) && TextOf(heap, w) == TextOf(old(heap), w)
      ensures Keeps(old(heap), heap, pending)
      ensures Contents(Now()) == old(Contents(Now()))[k := w]
      ensures Texts(Now()) == old(Texts(Now()))[k := TextOf(old(heap), w)]
      ensures Holding(pending - StringBlocks(old(heap), w))
    {
      hide D.Db.Valid, Consistent, HashOf, Texts, Contents, StringBlocks, TextOf, EntryFor, Keeps, Fits;
      ghost var v := Now();
      OverwrittenConsistent(v, pending, k, w);
      OverwrittenTexts(v, pending, k, w);
      CurrentVal(pending, k);
      OverwrittenKeeps(v, pending, k, w);
      // Repair of touchdb_map.c:213-217, where the old value points into the entry, so that what is destroyed and
      // returned is the value just stored: the old value is copied first.
      oldVal := heap[entry].entry.val;
      heap := heap[entry := EntryCell(heap[entry].entry.(val := w))];
      FitsChanged(v.heap, heap);
      TextFrame(v.heap, heap, oldVal);
      Destroy(oldVal);
      OverwrittenHeap(v, k, w);
      owner := Overwritten(v, k, w).owner;
    }

    lemma OverwrittenHeap(v: View, k: CStr, w: Val)
      requires k in v.index && EntryFor(v.heap, k, v.index[k]) && StringInPlace(v.heap, w)
      ensures var e := v.index[k]; var n := v.heap[e].entry;
        && Overwritten(v, k, w).heap == v.heap[e := EntryCell(n.(val := w))] - StringBlocks(v.heap, n.val)
        && Overwritten(v, k, w) == v.(heap := Overwritten(v, k, w).heap, owner := Overwritten(v, k, w).owner)
    {
    }

    lemma CurrentVal(p: set<Addr>, k: CStr)
      requires Holding(p) && k in index
      ensures EntryFor(heap, k, index[k]) && k in Contents(Now())
      ensures var v := heap[index[k]].entry.val;
        && Contents(Now())[k] == v && StringInPlace(heap, v)
        && index[k] !in StringBlocks(heap, v) && StringBlocks(heap, v) <= heap.Keys <= db.live
    {
      hide D.Db.Valid, HashOf, Chained, Indexed, Accounted;
      KeyFacts(heap, index, owner, k);
    }

    // The entry and its key are filled in, and the entry is linked behind the last of its bucket
    // (touchdb_map.c:225-245).
    method LinkEntry(entry: Addr, key: Addr, k: CStr, h: int, i: nat, w: Val, ghost q: seq<Addr>)
      requires table in heap && heap[table].Table? && i < |heap[table].bulks| && table !in {entry, key} && entry != key
      requires heap[table].bulks[i] == if q == [] then Bulk(NULL_ADDR, NULL_ADDR, 0) else Bulk(q[0], q[|q| - 1], |q|)
      requires q != [] ==> q[|q| - 1] in heap && q[|q| - 1] !in {entry, key} && heap[q[|q| - 1]].EntryCell?
      requires h == HashOf(k)
      modifies this`heap, this`size
      ensures heap == AppendedHeap(old(heap), table, i, q, k, entry, key, w) && size == old(size) + 1
    {
      hide HashOf, AppendedHeap;
      LinkOrder(heap, table, i, q, k, entry, key, w);
      var bulk := heap[table].bulks[i];
      var n := Entry(NULL_ADDR, NULL_ADDR, h, key, w);
      heap := heap[key := Key(k)];
      if bulk.size == 0 {
        bulk := bulk.(header := entry, tail := entry);
      } else {
        var tail := bulk.tail;
        heap := heap[tail := EntryCell(heap[tail].entry.(next := entry))];
        n := n.(prev := bulk.tail);
        bulk := bulk.(tail := entry);
      }
      bulk := bulk.(size := bulk.size + 1);
      heap := heap[entry := EntryCell(n)];
      heap := heap[table := Table(heap[table].bulks[i := bulk])];
      size := size + 1;
    }

    // The order of the writes does not matter.
    lemma LinkOrder(h: Heap, t: Addr, i: nat, q: seq<Addr>, k: CStr, entry: Addr, key: Addr, w: Val)
      requires t in h && h[t].Table? && i < |h[t].bulks| && t !in {entry, key} && entry != key
      requires q != [] ==> q[|q| - 1] in h && q[|q| - 1] !in {entry, key} && h[q[|q| - 1]].EntryCell?
      ensures var h1 := h[key := Key(k)];
        var h2 := if q == [] then h1 else h1[q[|q| - 1] := EntryCell(h[q[|q| - 1]].entry.(next := entry))];
        var h3 := h2[entry := EntryCell(NewEntry(q, k, key, w))];
        h3[t := Table(h[t].bulks[i := NewBulk(q, entry)])] == AppendedHeap(h, t, i, q, k, entry, key, w)
    {
      hide HashOf, NewEntry, NewBulk;
    }

    // Entry e has come last into the bucket of k.
    ghost predicate AddedLast(before: seq<seq<Addr>>, after: seq<seq<Addr>>, k: CStr, e: Addr) {
      var i := Bucket(|before|, k);
      i < |before| && after == before[i := before[i] + [e]]
    }

    // A new entry for an absent key (touchdb_map.c:223-245).
    method Append(k: CStr, w: Val, ghost pending: set<Addr>) returns (ok: bool, ghost e: Addr, ghost kb: Addr)
      requires Holding(pending) && k !in index
      requires StringInPlace(heap, w) && StringBlocks(heap, w) <= pending
      modifies this, db.Repr
      ensures fresh(db.Repr - old(db.Repr)) && db.Valid()
      ensures !ok ==> db.CannotServe(ENTRY_SIZE) || db.CannotServe(|k| + 1)
      ensures !ok ==> Now() == old(Now()) && Holding(pending)
      ensures ok ==> others == old(others)
      ensures ok ==>
        && e !in old(db.live) && kb !in old(db.live) && e != kb && db.live == old(db.live) + {e, kb}
        && index == old(index)[k := e] && AddedLast(old(chains), chains, k, e)
        && StringInPlace(heap, w) && TextOf(heap, w) == TextOf(old(heap), w)
        && Keeps(old(heap), heap, pending)
        && Contents(Now()) == old(Contents(Now()))[k := w]
        && Texts(Now()) == old(Texts(Now()))[k := TextOf(old(heap), w)]
      ensures ok ==> Holding(pending - StringBlocks(old(heap), w))
    {
      hide D.Db.Valid, D.Db.CannotServe, D.Db.Owned, D.Db.Room, D.Db.PayloadsUntouched, Consistent, HashOf, HashCode,
           Hash, Bucket, Texts, Contents, StringBlocks, StringInPlace, TextOf, EntryFor, Appendable, Appended,
           AppendedHeap, IndexFor, Keeps, Fits;
      ghost var v := Now();
      BulkAt(pending, k);
      HashOfIs(k);
      var hc := ComputeHashCode(k);
      var h := Hash(hc);
      var i := IndexFor(count, h);
      var entry, key;
      ok, entry, key := NewBlocks(k, pending);
      e, kb := entry, key;
      if !ok {
        return;
      }
      AppendedAll(v, pending, k, e, kb, w);
      AppendedKeeps(v, pending, k, e, kb, w);
      AppendedFits(v.heap, i, v.chains[i], k, e, kb, w);
      LinkEntry(entry, key, k, h, i, w, v.chains[i]);
      ghost var v' := Appended(v, k, e, kb, w);
      index, chains, owner := v'.index, v'.chains, v'.owner;
      assert Now() == v';
    }

    lemma AppendedFits(h: Heap, i: nat, q: seq<Addr>, k: CStr, e: Addr, kb: Addr, w: Val)
      requires db.Owned() && Fits(h) && db.Room(e, 40) && db.Room(kb, |k| + 1)
      requires table in h && h[table].Table? && i < |h[table].bulks| && e !in h && kb !in h && e != kb
      requires q != [] ==> q[|q| - 1] in h && h[q[|q| - 1]].EntryCell?
      ensures Fits(AppendedHeap(h, table, i, q, k, e, kb, w))
    {
      hide D.Db.Owned, D.Db.Room, HashOf;
    }

    // The blocks of a new entry and its key (touchdb_map.c:224 and :229).
    method NewBlocks(k: CStr, ghost pending: set<Addr>) returns (ok: bool, entry: Addr, key: Addr)
      requires Holding(pending)
      modifies this`others, db.Repr
      ensures fresh(db.Repr - old(db.Repr)) && db.Valid() && this !in db.Repr
      ensures Now() == old(Now())
      ensures !ok ==> Holding(pending) && (db.CannotServe(ENTRY_SIZE) || db.CannotServe(|k| + 1))
      ensures ok ==>
        && others == old(others) && entry != key && {entry, key} !! old(db.live)
        && db.live == old(db.live) + {entry, key} && entry.offset != NIL
        && db.Room(entry, 40) && db.Room(key, |k| + 1)
      ensures Fits(heap)
    {
      hide D.Db.Valid, D.Db.CannotServe, D.Db.Owned, D.Db.Room, D.Db.PayloadsUntouched, Consistent, Bytes, Fits;
      var p, p';
      p, entry := Allocate(ENTRY_SIZE);
      key := NULL_ADDR;
      if p == D.NULL {
        return false, entry, key;
      }
      p', key := Allocate(|k| + 1);
      ok := p' != D.NULL;
      if !ok {
        // The entry is lost: it is allocated and nothing leads to it.
        others := others + {entry};
      }
    }

    // touchdb_map_put2 (touchdb_map.c:198-248): the replaced value, if there was one. `ok` is false when a
    // block cannot be allocated, where the original writes through a null pointer.
    method Put2(k: CStr, w: Val, ghost pending: set<Addr>) returns (ok: bool, oldVal: seq<Val>)
      requires Holding(pending)
      requires StringInPlace(heap, w) && StringBlocks(heap, w) <= pending
      modifies this, db.Repr
      ensures fresh(db.Repr - old(db.Repr)) && db.Valid()
      ensures k in old(Contents(Now())) ==>
        && ok && oldVal == [old(Contents(Now()))[k]] && index == old(index) && chains == old(chains)
        && StringInPlace(old(heap), oldVal[0]) && db.live == old(db.live) - StringBlocks(old(heap), oldVal[0])
      ensures k !in old(Contents(Now())) ==>
        && oldVal == []
        && if ok then exists e, kb :: e != kb && {e, kb} !! old(db.live) && db.live == old(db.live) + {e, kb}
                        && index == old(index)[k := e] && AddedLast(old(chains), chains, k, e)
           else db.CannotServe(ENTRY_SIZE) || db.CannotServe(|k| + 1)
      ensures !ok ==> Now() == old(Now()) && Holding(pending)
      ensures ok ==>
        && others == old(others) && Keeps(old(heap), heap, pending)
        && StringInPlace(heap, w) && TextOf(heap, w) == TextOf(old(heap), w)
        && Contents(Now()) == old(Contents(Now()))[k := w]
        && Texts(Now()) == old(Texts(Now()))[k := TextOf(old(heap), w)]
      ensures ok ==> Holding(pending - StringBlocks(old(heap), w))
    {
      hide D.Db.Valid, D.Db.CannotServe, D.Db.Owned, D.Db.Room, D.Db.PayloadsUntouched, Consistent, HashOf, HashCode,
           Hash, Bucket, Texts, Contents, StringBlocks, StringInPlace, TextOf, EntryFor, IndexFor, Keeps;
      ContentsKeys(pending);
      BulkAt(pending, k);
      HashOfIs(k);
      var hc := ComputeHashCode(k);
      var h := Hash(hc);
      if heap[table].bulks[IndexFor(count, h)].size != 0 {
        var entry := GetEntry(k, pending);
        if entry != NULL_ADDR {
          var v := Overwrite(k, entry, w, pending);
          return true, [v];
        }
      } else {
        NotFound(pending, k);
      }
      ghost var e, kb;
      ok, e, kb := Append(k, w, pending);
      oldVal := [];
    }

    lemma ContentsKeys(p: set<Addr>)
      requires Holding(p)
      ensures Contents(Now()).Keys == index.Keys == Texts(Now()).Keys && size == |index|
      ensures forall k :: k in index ==>
        && index[k] != NULL_ADDR && index[k] in heap && heap[index[k]].EntryCell?
        && Contents(Now())[k] == heap[index[k]].entry.val && StringInPlace(heap, heap[index[k]].entry.val)
        && Texts(Now())[k] == TextOf(heap, heap[index[k]].entry.val)
    {
      hide D.Db.Valid, HashOf, Bucket, Chained, TextOf;
      forall k | k in index ensures index[k] in heap && heap[index[k]].EntryCell? && index[k] != NULL_ADDR
        && StringInPlace(heap, heap[index[k]].entry.val)
      {
        KeyFacts(heap, index, owner, k);
        EntryNotNull(p, k);
      }
    }

    lemma EntryNotNull(p: set<Addr>, k: CStr)
      requires Holding(p) && k in index
      ensures index[k].offset != NIL
    {
      hide D.Db.Valid, HashOf, Stored, Accounted, Bucket;
      var q := chains[Bucket(count, k)];
      var m :| 0 <= m < |q| && q[m] == index[k];
      assert LinkSpells(heap, q, m);
    }

    // touchdb_map_get2 (touchdb_map.c:250-258), none for a null pointer.
    method Get2(k: CStr, ghost pending: set<Addr>) returns (r: seq<Val>)
      requires Holding(pending)
      ensures r == if k in Contents(Now()) then [Contents(Now())[k]] else []
    {
      hide D.Db.Valid, Consistent, HashOf, Texts, TextOf, Contents;
      ContentsKeys(pending);
      var entry := GetEntry(k, pending);
      if entry != NULL_ADDR {
        return [heap[entry].entry.val];
      }
      r := [];
    }

    // touchdb_map_contains (touchdb_map.c:265-271)
    method Contains(k: CStr, ghost pending: set<Addr>) returns (r: bool)
      requires Holding(pending)
      ensures r <==> k in Contents(Now())
    {
      hide D.Db.Valid, Consistent, HashOf, Texts, TextOf, Contents;
      ContentsKeys(pending);
      var entry := GetEntry(k, pending);
      r := entry != NULL_ADDR;
    }

    // touchdb_map_size (touchdb_map.c:273-276)
    method Size(ghost pending: set<Addr>) returns (n: nat)
      requires Holding(pending)
      ensures n == |Contents(Now())|
    {
      hide D.Db.Valid, Consistent, Texts, TextOf, Contents;
      ContentsKeys(pending);
      n := size;
      assert |Contents(Now())| == |Contents(Now()).Keys| && |index| == |index.Keys|;
    }

    // touchdb_map_iter (touchdb_map.c:278-300): the pairs passed to the callback.
    method Iter(ghost pending: set<Addr>) returns (visited: seq<(CStr, Val)>)
      requires Holding(pending)
      ensures forall m, n :: 0 <= m < n < |visited| ==> visited[m].0 != visited[n].0
      ensures forall m :: 0 <= m < |visited| ==>
        visited[m].0 in Contents(Now()) && visited[m].1 == Contents(Now())[visited[m].0]
      ensures forall k :: k in Contents(Now()) ==> exists m :: 0 <= m < |visited| && visited[m].0 == k
      ensures Along(visited, Joined(chains))
    {
      hide D.Db.Valid, Consistent, HashOf, Bucket, Texts, TextOf, Contents, VisitedUpTo, Fits, Along;
      TableInPlace(pending);
      NoneVisited();
      NoneAlong();
      visited := [];
      var i := 0;
      while i < count
        invariant i <= count && VisitedUpTo(visited, i, 0) && Along(visited, Joined(chains[..i]))
      {
        var entry := heap[table].bulks[i].header;
        ghost var j := 0;
        EntryAt(pending, i, 0);
        BulkHeader(pending, i);
        assert Joined(chains[..i]) + chains[i][..0] == Joined(chains[..i]);
        if heap[table].bulks[i].size != 0 {
          while entry.offset != NIL
            invariant j <= |chains[i]| && entry == (if j < |chains[i]| then chains[i][j] else NULL_ADDR)
            invariant entry.offset != NIL <==> j < |chains[i]|
            invariant VisitedUpTo(visited, i, j) && Along(visited, Joined(chains[..i]) + chains[i][..j])
            decreases |chains[i]| - j
          {
            EntryAt(pending, i, j);
            var n := heap[entry].entry;
            VisitOne(pending, visited, i, j);
            AlongOne(visited, Joined(chains[..i]) + chains[i][..j], entry, heap[n.key].chars, n.val);
            visited := visited + [(heap[n.key].chars, n.val)];
            assert Joined(chains[..i]) + chains[i][..j + 1] == Joined(chains[..i]) + chains[i][..j] + [chains[i][j]];
            entry := n.next;
            j := j + 1;
            EntryAt(pending, i, j);
          }
        }
        BucketDone(pending, visited, i);
        assert chains[i][..j] == chains[i] && Joined(chains[..i + 1]) == Joined(chains[..i]) + chains[i] by {
          assert chains[..i + 1][..i] == chains[..i];
        }
        i := i + 1;
      }
      assert chains[..i] == chains;
      AllVisited(pending, visited);
    }

    // The visited keys are those of the entries on the way.
    ghost predicate Along(visited: seq<(CStr, Val)>, way: seq<Addr>)
      reads this
    {
      |visited| == |way| && forall m :: 0 <= m < |way| ==> way[m] in owner && owner[way[m]] == visited[m].0
    }

    lemma NoneAlong()
      ensures Along([], [])
    {
    }

    lemma AlongOne(visited: seq<(CStr, Val)>, way: seq<Addr>, e: Addr, k: CStr, v: Val)
      requires Along(visited, way) && e in owner && owner[e] == k
      ensures Along(visited + [(k, v)], way + [e])
    {
    }

    // Exactly the keys of the buckets below i and of the first j entries of bucket i have been visited, once each.
    ghost predicate VisitedUpTo(visited: seq<(CStr, Val)>, i: nat, j: nat)
      reads this
    {
      && (forall m, n :: 0 <= m < n < |visited| ==> visited[m].0 != visited[n].0)
      && (forall m :: 0 <= m < |visited| ==>
            && visited[m].0 in Contents(Now()) && visited[m].1 == Contents(Now())[visited[m].0]
            && Reached(visited[m].0, i, j))
      && (forall k :: k in index && Reached(k, i, j) ==> exists m :: 0 <= m < |visited| && visited[m].0 == k)
    }

    // The entry of k is in a bucket below i or among the first j entries of bucket i.
    ghost predicate Reached(k: CStr, i: nat, j: nat)
      reads this
    {
      && k in index
      && (|| Bucket(count, k) < i
          || (Bucket(count, k) == i && i < |chains| && j <= |chains[i]| && index[k] in chains[i][..j]))
    }

    lemma VisitOne(p: set<Addr>, visited: seq<(CStr, Val)>, i: nat, j: nat)
      requires Holding(p) && i < count && j < |chains[i]| && VisitedUpTo(visited, i, j)
      ensures var e := chains[i][j];
        && e in heap && heap[e].EntryCell? && heap[e].entry.key in heap && heap[heap[e].entry.key].Key?
        && VisitedUpTo(visited + [(heap[heap[e].entry.key].chars, heap[e].entry.val)], i, j + 1)
    {
      hide D.Db.Valid, HashOf, Bucket, Texts, TextOf, Contents, Consistent, Reached, VisitedUpTo;
      ContentsKeys(p);
      EntryAt(p, i, j);
      ReachedNext(p, i, j);
      VisitNew(visited, i, j, owner[chains[i][j]], heap[chains[i][j]].entry.val);
    }

    // One more key is reached, and it is visited.
    lemma VisitNew(visited: seq<(CStr, Val)>, i: nat, j: nat, k: CStr, v: Val)
      requires VisitedUpTo(visited, i, j) && k in Contents(Now()) && Contents(Now())[k] == v && !Reached(k, i, j)
      requires forall l :: Reached(l, i, j + 1) <==> Reached(l, i, j) || l == k
      ensures VisitedUpTo(visited + [(k, v)], i, j + 1)
    {
      hide Contents, Reached;
      var visited' := visited + [(k, v)];
      forall l | l in index && Reached(l, i, j + 1) ensures exists m :: 0 <= m < |visited'| && visited'[m].0 == l {
        if Reached(l, i, j) {
          var m :| 0 <= m < |visited| && visited[m].0 == l;
          assert visited'[m].0 == l;
        } else {
          assert visited'[|visited|].0 == l;
        }
      }
    }

    lemma ReachedNext(p: set<Addr>, i: nat, j: nat)
      requires Holding(p) && i < count && j < |chains[i]|
      ensures chains[i][j] in owner && !Reached(owner[chains[i][j]], i, j)
      ensures forall l :: Reached(l, i, j + 1) <==> Reached(l, i, j) || l == owner[chains[i][j]]
    {
      hide D.Db.Valid, HashOf, Bucket, Stored, Accounted, Chained;
      var e := chains[i][j];
      assert ChainedKey(index, owner, e, i, |chains|);
      assert chains[i][..j + 1] == chains[i][..j] + [e];
      assert e !in chains[i][..j];
      forall l | l in index ensures index[l] == e ==> l == owner[e] {
        OwnerOf(p, l);
      }
    }

    lemma OwnerOf(p: set<Addr>, k: CStr)
      requires Holding(p) && k in index
      ensures index[k] in owner && owner[index[k]] == k
      ensures Bucket(count, k) < count && index[k] in chains[Bucket(count, k)]
    {
      hide D.Db.Valid, HashOf, Bucket, Accounted, Chained;
      KeyFacts(heap, index, owner, k);
    }

    lemma BucketDone(p: set<Addr>, visited: seq<(CStr, Val)>, i: nat)
      requires Holding(p) && i < count && VisitedUpTo(visited, i, |chains[i]|)
      ensures VisitedUpTo(visited, i + 1, 0)
    {
      hide D.Db.Valid, HashOf, Bucket, Consistent, Contents;
      assert chains[i][..|chains[i]|] == chains[i];
      forall k | k in index ensures Reached(k, i + 1, 0) <==> Reached(k, i, |chains[i]|) {
        OwnerOf(p, k);
      }
    }

    lemma NoneVisited()
      ensures VisitedUpTo([], 0, 0)
    {
      hide HashOf, Contents;
    }

    lemma AllVisited(p: set<Addr>, visited: seq<(CStr, Val)>)
      requires Holding(p) && VisitedUpTo(visited, count, 0)
      ensures forall m, n :: 0 <= m < n < |visited| ==> visited[m].0 != visited[n].0
      ensures forall m :: 0 <= m < |visited| ==>
        visited[m].0 in Contents(Now()) && visited[m].1 == Contents(Now())[visited[m].0]
      ensures forall k :: k in Contents(Now()) ==> exists m :: 0 <= m < |visited| && visited[m].0 == k
    {
      hide D.Db.Valid, HashOf, Bucket, Consistent, Contents, Texts;
      ContentsKeys(p);
      forall k | k in index ensures Reached(k, count, 0) {
        OwnerOf(p, k);
      }
    }

    lemma TableInPlace(p: set<Addr>)
      requires Holding(p)
      ensures table in heap && heap[table].Table? && |heap[table].bulks| == count == |chains|
    {
      hide D.Db.Valid, HashOf, Bucket, Stored, Accounted, Indexed;
    }

    lemma BulkHeader(p: set<Addr>, i: nat)
      requires Holding(p) && i < count
      ensures table in heap && heap[table].Table? && i < |heap[table].bulks| && i < |chains|
      ensures heap[table].bulks[i].header == (if chains[i] == [] then NULL_ADDR else chains[i][0])
      ensures heap[table].bulks[i].size == |chains[i]|
    {
      hide D.Db.Valid, HashOf, Bucket, Stored, Accounted, Indexed;
      assert BulkSpells(heap[table].bulks[i], chains[i]);
    }

    // ----- strings

    // The map says what it said.
    ghost predicate Kept(v: View)
      reads this
    {
      Contents(Now()) == Contents(v) && Texts(Now()) == Texts(v)
    }

    // A block is allocated beside the map and filled in.
    method NewBlock(size: nat, c: Cell, ghost pending: set<Addr>) returns (ok: bool, a: Addr)
      requires Holding(pending) && size == Bytes(c)
      modifies this`heap, db.Repr
      ensures fresh(db.Repr - old(db.Repr)) && db.Valid()
      ensures !ok ==> db.CannotServe(size) && Now() == old(Now()) && Holding(pending)
      ensures ok ==> a !in old(heap) && heap == old(heap)[a := c] && Holding(pending + {a})
      ensures ok ==> Contents(Now()) == old(Contents(Now())) && Texts(Now()) == old(Texts(Now()))
    {
      hide D.Db.Valid, D.Db.CannotServe, D.Db.Owned, D.Db.Room, D.Db.PayloadsUntouched, Consistent, HashOf, Texts,
           Contents, Fits, Bytes;
      ghost var v := Now();
      HeapParts(pending);
      var p;
      p, a := Allocate(size);
      if p == D.NULL {
        return false, a;
      }
      FitsAdded(v.heap, a, c);
      heap := heap[a := c];
      PendingChanged(v, pending, heap, pending + {a});
      ok := true;
    }

    lemma HeapParts(p: set<Addr>)
      requires Holding(p)
      ensures table in heap && heap.Keys == {table} + p + owner.Keys
      ensures table !in p && table !in owner && p !! owner.Keys
    {
      hide D.Db.Valid, HashOf, Stored, Indexed;
      AccountedDisjoint(Now(), p);
    }

    // touchdb_str_new2 (touchdb_str.c:32-44): a string record and its characters, for a value record at `addr`.
    method NewString(addr: Addr, text: CStr) returns (ok: bool, ghost s: Addr, ghost d: Addr)
      requires Holding({addr}) && addr in heap && heap[addr].Temp?
      modifies this`heap, db.Repr
      ensures fresh(db.Repr - old(db.Repr)) && db.Valid()
      ensures !ok ==> db.CannotServe(STR_SIZE) || db.CannotServe(|text| + 1)
      ensures !ok ==> Kept(old(Now())) && exists p :: Holding(p)
      ensures ok ==>
        && s != d && {s, d} !! old(heap).Keys && addr in heap && heap.Keys == old(heap).Keys + {s, d}
        && heap[addr] == Temp(Val(StrVal, s)) && heap[s] == Str(|text| + 1, d) && heap[d] == Text(text)
        && (forall a :: a in old(heap) && a != addr ==> heap[a] == old(heap)[a])
        && Contents(Now()) == old(Contents(Now())) && Texts(Now()) == old(Texts(Now()))
        && db.Room(s, 12) && db.Room(d, |text| + 1)
      ensures ok ==> Holding({addr, s, d})
    {
      hide D.Db.Valid, D.Db.CannotServe, D.Db.Owned, D.Db.Room, D.Db.PayloadsUntouched, Consistent, HashOf, Texts,
           Contents, Fits, Holding;
      var ok', str := NewBlock(STR_SIZE, Str(|text| + 1, NULL_ADDR), {addr});
      if !ok' {
        return false, NULL_ADDR, NULL_ADDR;
      }
      var data;
      ok', data := NewBlock(|text| + 1, Text(text), {addr} + {str});
      if !ok' {
        return false, NULL_ADDR, NULL_ADDR;
      }
      s, d := str, data;
      assert {addr} + {str} + {data} == {addr, str, data};
      LinkString(addr, str, data, text);
      RoomInside({addr, str, data}, str);
      RoomInside({addr, str, data}, data);
      ok := true;
    }

    // The value record gets the string's address, and the string record that of its characters
    // (touchdb_str.c:38-40).
    method LinkString(addr: Addr, str: Addr, data: Addr, text: CStr)
      requires Holding({addr, str, data}) && addr in heap && str in heap && heap[addr].Temp? && heap[str].Str?
      modifies this`heap
      ensures heap == old(heap)[addr := Temp(Val(StrVal, str))][str := Str(|text| + 1, data)]
      ensures db.Valid() && Kept(old(Now())) && Holding({addr, str, data})
    {
      hide D.Db.Valid, Consistent, HashOf, Texts, Contents, Fits;
      ghost var v, p := Now(), {addr, str, data};
      HeapParts(p);
      heap := heap[addr := Temp(Val(StrVal, str))][str := Str(|text| + 1, data)];
      assert heap.Keys == v.heap.Keys;
      FitsChanged(v.heap, heap);
      PendingChanged(v, p, heap, p);
    }

    // A temporary value record with a new string (touchdb.c:356-357).
    method NewStringValue(text: CStr) returns (ok: bool, addr: Addr, ghost s: Addr, ghost d: Addr)
      requires Holding({})
      modifies this`heap, db.Repr
      ensures fresh(db.Repr - old(db.Repr)) && db.Valid()
      ensures !ok ==> db.CannotServe(VAL_SIZE) || db.CannotServe(STR_SIZE) || db.CannotServe(|text| + 1)
      ensures !ok ==> Kept(old(Now())) && exists p :: Holding(p)
      ensures ok ==>
        && s != d && addr !in {s, d} && {addr, s, d} !! old(heap).Keys && heap.Keys == old(heap).Keys + {addr, s, d}
        && {addr, s, d} !! old(db.live) && db.live == old(db.live) + {addr, s, d} && others == old(others)
        && heap[addr] == Temp(Val(StrVal, s)) && heap[s] == Str(|text| + 1, d) && heap[d] == Text(text)
        && (forall a :: a in old(heap) ==> heap[a] == old(heap)[a])
        && Contents(Now()) == old(Contents(Now())) && Texts(Now()) == old(Texts(Now()))
        && db.Room(s, 12) && db.Room(d, |text| + 1)
      ensures ok ==> Holding({addr, s, d})
    {
      hide D.Db.Valid, D.Db.CannotServe, D.Db.Owned, D.Db.Room, D.Db.PayloadsUntouched, Consistent, HashOf, Texts,
           Contents;
      ok, addr := NewBlock(VAL_SIZE, Temp(Val(StrVal, NULL_ADDR)), {});
      if !ok {
        return false, addr, NULL_ADDR, NULL_ADDR;
      }
      assert {} + {addr} == {addr};
      ok, s, d := NewString(addr, text);
    }

    // The temporary value record is given back (touchdb.c:360).
    method DropBlock(addr: Addr, ghost pending: set<Addr>)
      requires Holding(pending) && pending == {addr}
      modifies this`heap, db.Repr
      ensures db.Repr == old(db.Repr) && heap == old(heap) - {addr} && db.live == old(db.live) - {addr}
      ensures Contents(Now()) == old(Contents(Now())) && Texts(Now()) == old(Texts(Now()))
      ensures Holding({})
    {
      hide D.Db.Valid, Consistent, HashOf, Texts, Contents;
      ghost var v := Now();
      HeapParts(pending);
      FreeBlock(addr);
      PendingChanged(v, pending, heap, {});
    }

    // One of the blocks that a put of this key and text asks for cannot be served.
    ghost predicate NoRoom(k: CStr, text: CStr)
      reads this, db, db.Repr
      requires db.Owned()
    {
      db.CannotServe(VAL_SIZE) || db.CannotServe(STR_SIZE) || db.CannotServe(|text| + 1)
      || db.CannotServe(ENTRY_SIZE) || db.CannotServe(|k| + 1)
    }

    // touchdb_put_str (touchdb.c:350-363)
    method PutStr(k: CStr, text: CStr) returns (ok: bool, oldVal: seq<Val>)
      requires Holding({})
      modifies this, db.Repr
      ensures fresh(db.Repr - old(db.Repr)) && db.Valid()
      ensures !ok ==> NoRoom(k, text) && Kept(old(Now())) && exists p :: Holding(p)
      ensures ok ==> others == old(others)
      ensures ok ==> Texts(Now()) == old(Texts(Now()))[k := [text]]
      ensures ok ==> exists s :: Contents(Now()) == old(Contents(Now()))[k := Val(StrVal, s)]
      ensures ok ==> oldVal == if k in old(Contents(Now())) then [old(Contents(Now()))[k]] else []
      ensures ok && k in old(Contents(Now())) ==>
        && StringInPlace(old(heap), oldVal[0])
        && exists s, d :: s != d && {s, d} !! old(db.live)
                          && db.live == old(db.live) - StringBlocks(old(heap), oldVal[0]) + {s, d}
      ensures ok ==> Holding({})
    {
      hide D.Db.Valid, D.Db.CannotServe, D.Db.Owned, D.Db.Room, D.Db.PayloadsUntouched, Consistent, HashOf, Texts,
           Contents, StringBlocks, StringInPlace, TextOf, EntryFor, Holding;
      ghost var v0, replaced := Now(), OldVal(k);
      OldString(k);
      var addr;
      ghost var s, d;
      ok, addr, s, d := NewStringValue(text);
      if !ok {
        return false, [];
      }
      var w := heap[addr].val;
      ghost var before := heap;
      StringFacts(heap, w, s, d, |text| + 1, text);
      TextFrame(v0.heap, before, replaced);
      ok, oldVal := PutAndDrop(k, addr, w, s, d);
      Exchanged(old(db.live), StringBlocks(v0.heap, replaced), addr, s, d);
    }

    // The value of k, or one without a string if k is absent.
    ghost function OldVal(k: CStr): Val
      reads this
    {
      if k in Contents(Now()) then Contents(Now())[k] else Val(IntVal, NULL_ADDR)
    }

    lemma OldString(k: CStr)
      requires Holding({})
      ensures StringInPlace(heap, OldVal(k)) && StringBlocks(heap, OldVal(k)) <= heap.Keys <= db.live
    {
      hide D.Db.Valid, Consistent, HashOf, Contents;
      ContentsKeys({});
      if k in index { CurrentVal({}, k); }
    }

    // The value goes into the map and its temporary record is given back (touchdb.c:358-360).
    method PutAndDrop(k: CStr, addr: Addr, w: Val, ghost s: Addr, ghost d: Addr) returns (ok: bool, oldVal: seq<Val>)
      requires Holding({addr, s, d}) && addr !in {s, d}
      requires StringInPlace(heap, w) && StringBlocks(heap, w) == {s, d}
      modifies this, db.Repr
      ensures fresh(db.Repr - old(db.Repr)) && db.Valid()
      ensures !ok ==> db.CannotServe(ENTRY_SIZE) || db.CannotServe(|k| + 1)
      ensures !ok ==> Kept(old(Now())) && Holding({addr, s, d})
      ensures ok ==>
        && others == old(others)
        && Contents(Now()) == old(Contents(Now()))[k := w]
        && Texts(Now()) == old(Texts(Now()))[k := TextOf(old(heap), w)]
        && oldVal == (if k in old(Contents(Now())) then [old(Contents(Now()))[k]] else [])
      ensures ok && k in old(Contents(Now())) ==>
        && StringInPlace(old(heap), oldVal[0])
        && db.live == old(db.live) - StringBlocks(old(heap), oldVal[0]) - {addr}
      ensures ok ==> Holding({})
    {
      hide D.Db.Valid, D.Db.CannotServe, D.Db.Owned, D.Db.Room, D.Db.PayloadsUntouched, Consistent, HashOf, Texts,
           Contents, StringBlocks, StringInPlace, TextOf, EntryFor, Keeps;
      ok, oldVal := Put2(k, w, {addr, s, d});
      if ok {
        assert {addr, s, d} - {s, d} == {addr};
        DropBlock(addr, {addr});
      }
    }

    lemma Exchanged(live: set<Addr>, gone: set<Addr>, addr: Addr, s: Addr, d: Addr)
      requires {addr, s, d} !! live && gone <= live && addr !in {s, d}
      ensures live + {addr, s, d} - gone - {addr} == live - gone + {s, d}
    {
    }

    lemma StringFacts(h: Heap, w: Val, s: Addr, d: Addr, len: nat, text: CStr)
      requires w == Val(StrVal, s) && s in h && d in h && h[s] == Str(len, d) && h[d] == Text(text)
      ensures StringInPlace(h, w) && StringBlocks(h, w) == {s, d} && TextOf(h, w) == [text]
    {
    }

    // touchdb_get_str (touchdb.c:365-378), none for a null pointer.
    method GetStr(k: CStr) returns (r: seq<CStr>)
      requires Holding({})
      ensures r == if k in Texts(Now()) then Texts(Now())[k] else []
    {
      hide D.Db.Valid, Consistent, HashOf, Texts, Contents;
      ContentsKeys({});
      var val := Get2(k, {});
      if val != [] && val[0].kind == StrVal {
        var s := heap[val[0].value];
        return [heap[s.data].text];
      }
      r := [];
    }

    ghost predicate Empty()
      reads this
    {
      Contents(Now()) == map[] && Texts(Now()) == map[]
    }

    // The storage of a map: beside the others and the pending blocks there are one for the bucket array, two for
    // each key and two more for each string.
    lemma StorageAccounting(p: set<Addr>)
      requires Holding(p)
      ensures |db.live| == |others| + |p| + 1 + 2 * |Contents(Now())| + 2 * |StringKeys(Contents(Now()))|
      ensures |Texts(Now())| == |Contents(Now())|
      ensures AllStrings(Contents(Now())) ==> |db.live| == |others| + |p| + 1 + 4 * |Contents(Now())|
    {
      hide D.Db.Valid, Consistent, Texts, Contents, StringKeys, AllStrings;
      ContentsKeys(p);
      BlocksPerKey(Now(), p);
      if AllStrings(Contents(Now())) { AllStringKeys(Contents(Now())); }
      var v := Now();
      assert |Contents(v)| == |Contents(v).Keys| && |Texts(v)| == |Texts(v).Keys|;
      assert |heap.Keys + others| == |heap.Keys| + |others|;
    }
  }

  // A new hash map in a database. Null when the capacity is negative or there is no memory, where
  // the original exits or writes through a null pointer.
  method Init(db: D.Db, capacity: int) returns (m: HashMap?, ghost count: nat)
    requires db.Valid()
    modifies db.Repr
    ensures m != null ==> fresh(m) && m.db == db && m.Holding({}) && m.Empty() && m.others == old(db.live)
    ensures capacity >= 0 ==> exists e :: LeastPower(capacity, count, e)
    ensures m != null ==> capacity >= 0 && m.count == count
    ensures db.Valid() && fresh(db.Repr - old(db.Repr))
    ensures m == null ==> capacity < 0 || db.CannotServe(count * BULK_SIZE)
  {
    hide D.Db.Valid, Consistent, Contents, ContentsOf, D.Db.CannotServe, D.Db.Owned, LeastPower;
    if capacity < 0 {
      return null, 0;
    }
    var n, e := BucketCount(capacity);
    assert n == Pow2(e) by { PowerOf(capacity, n, e); }
    Pow2Positive(e);
    count := n;
    var p, table := db.Malloc(n * BULK_SIZE);
    if p == D.NULL {
      return null, count;
    }
    var bulks: seq<Bulk> := [];
    var i := 0;
    while i < n
      invariant i <= n && bulks == seq(i, _ => Bulk(NULL_ADDR, NULL_ADDR, 0))
    {
      bulks := bulks + [Bulk(NULL_ADDR, NULL_ADDR, 0)];
      i := i + 1;
    }
    m := new HashMap(db, table, n, e, bulks);
  }

  // The values after a run of touchdb_map_put2 calls.
  function ReplayedValues(before: map<CStr, Val>, puts: seq<(CStr, Val)>): map<CStr, Val> {
    if puts == [] then before
    else ReplayedValues(before, puts[..|puts| - 1])[puts[|puts| - 1].0 := puts[|puts| - 1].1]
  }

  // The last value put for a key counts; a key for which there was none has what it had before.
  lemma {:induction false} ReplayedValuesIs(before: map<CStr, Val>, puts: seq<(CStr, Val)>, k: CStr, i: nat)
    ensures i < |puts| && puts[i].0 == k && (forall j :: i < j < |puts| ==> puts[j].0 != k) ==>
      k in ReplayedValues(before, puts) && ReplayedValues(before, puts)[k] == puts[i].1
    ensures (forall j :: 0 <= j < |puts| ==> puts[j].0 != k) ==>
      && (k in ReplayedValues(before, puts) <==> k in before)
      && (k in before ==> ReplayedValues(before, puts)[k] == before[k])
  {
    if puts != [] {
      var n := |puts| - 1;
      ReplayedValuesIs(before, puts[..n], k, i);
      assert i < n && (forall j :: i < j < |puts| ==> puts[j].0 != k) ==> puts[n].0 != k;
    }
  }

  // The strings of the values are in place, in pending blocks of their own.
  ghost predicate Puttable(heap: Heap, pending: set<Addr>, puts: seq<(CStr, Val)>) {
    && (forall i :: 0 <= i < |puts| ==>
          StringInPlace(heap, puts[i].1) && StringBlocks(heap, puts[i].1) <= pending)
    && (forall i, j :: 0 <= i < j < |puts| ==>
          StringInPlace(heap, puts[i].1) && StringInPlace(heap, puts[j].1)
          && StringBlocks(heap, puts[i].1) !! StringBlocks(heap, puts[j].1))
  }

  lemma PuttableFirst(h: Heap, pending: set<Addr>, puts: seq<(CStr, Val)>)
    requires puts != [] && Puttable(h, pending, puts)
    ensures StringInPlace(h, puts[0].1) && StringBlocks(h, puts[0].1) <= pending
  {
    hide StringInPlace, StringBlocks;
  }

  lemma PuttableNext(h: Heap, h': Heap, pending: set<Addr>, puts: seq<(CStr, Val)>)
    requires puts != [] && Puttable(h, pending, puts) && Keeps(h, h', pending)
    ensures StringInPlace(h, puts[0].1) && StringBlocks(h, puts[0].1) <= pending
    ensures Puttable(h', pending - StringBlocks(h, puts[0].1), puts[1..])
  {
    hide StringInPlace, StringBlocks, Keeps;
    forall i | 0 <= i < |puts|
      ensures StringInPlace(h', puts[i].1) && StringBlocks(h', puts[i].1) == StringBlocks(h, puts[i].1)
    {
      KeptString(h, h', pending, puts[i].1);
    }
  }

  // The live blocks of the database, counted.
  ghost predicate Stores(m: HashMap, p: set<Addr>)
    reads m, m.db
  {
    var contents := Contents(m.Now());
    |m.db.live| == |m.others| + |p| + 1 + 2 * |contents| + 2 * |StringKeys(contents)|
  }

  // Any run of touchdb_map_put2 calls on a map, with values of any kind, of which `done` succeed: the map says
  // what was put last for every key and what it said for the others.
  method ReplayPuts(m: HashMap, puts: seq<(CStr, Val)>, ghost pending: set<Addr>) returns (done: nat)
    requires m.Holding(pending) && Puttable(m.heap, pending, puts)
    modifies m, m.db.Repr
    ensures done <= |puts|
    ensures exists p :: p <= pending && m.Holding(p) && Stores(m, p)
    ensures done == |puts| ==> m.others == old(m.others)
    ensures Contents(m.Now()) == ReplayedValues(old(Contents(m.Now())), puts[..done])
    ensures done < |puts| ==> m.db.Valid() && (m.db.CannotServe(ENTRY_SIZE) || m.db.CannotServe(|puts[done].0| + 1))
  {
    hide D.Db.Valid, D.Db.Owned, D.Db.CannotServe, Consistent, Texts, Contents, HashMap.Holding, Puttable, Keeps,
         StringInPlace, StringBlocks, TextOf;
    done := 0;
    ghost var p := pending;
    assert puts[0..] == puts;
    while done < |puts|
      invariant done <= |puts| && p <= pending && m.Holding(p) && Puttable(m.heap, p, puts[done..])
      invariant fresh(m.db.Repr - old(m.db.Repr)) && m.others == old(m.others)
      invariant Contents(m.Now()) == ReplayedValues(old(Contents(m.Now())), puts[..done])
    {
      ghost var before, rest := m.heap, puts[done..];
      PuttableFirst(before, p, rest);
      var ok, oldVal := m.Put2(puts[done].0, puts[done].1, p);
      if !ok {
        m.StorageAccounting(p);
        return;
      }
      PuttableNext(before, m.heap, p, rest);
      p := p - StringBlocks(before, puts[done].1);
      assert puts[..done + 1][..done] == puts[..done] && rest[1..] == puts[done + 1..];
      done := done + 1;
    }
    assert puts[..|puts|] == puts[..done];
    m.StorageAccounting(p);
  }

  // The texts after a run of touchdb_put_str calls.
  function Replayed(puts: seq<(CStr, CStr)>): map<CStr, seq<CStr>> {
    if puts == [] then map[]
    else Replayed(puts[..|puts| - 1])[puts[|puts| - 1].0 := [puts[|puts| - 1].1]]
  }

  // The last text put for a key counts, and there are no other keys.
  lemma {:induction false} ReplayedIs(puts: seq<(CStr, CStr)>, k: CStr, i: nat)
    ensures i < |puts| && puts[i].0 == k && (forall j :: i < j < |puts| ==> puts[j].0 != k) ==>
      k in Replayed(puts) && Replayed(puts)[k] == [puts[i].1]
    ensures (forall j :: 0 <= j < |puts| ==> puts[j].0 != k) ==> k !in Replayed(puts)
  {
    if puts != [] {
      var n := |puts| - 1;
      ReplayedIs(puts[..n], k, i);
      assert i < n && (forall j :: i < j < |puts| ==> puts[j].0 != k) ==> puts[n].0 != k;
    }
  }

  // Any run of touchdb_put_str calls on a new map, of which `done` succeed: the map says what was put last for
  // every key, and the database holds exactly the bucket array and four blocks for each key beyond what it held.
  method Replay(db: D.Db, capacity: int, puts: seq<(CStr, CStr)>) returns (m: HashMap?, done: nat, ghost count: nat)
    requires db.Valid()
    modifies db.Repr
    ensures db.Valid() && done <= |puts|
    ensures capacity >= 0 ==> exists e :: LeastPower(capacity, count, e)
    ensures m == null ==> done == 0 && (capacity < 0 || db.CannotServe(count * BULK_SIZE))
    ensures m != null ==>
      && m.db == db && m.count == count && Texts(m.Now()) == Replayed(puts[..done]) && exists p :: m.Holding(p)
    ensures m != null && done == |puts| ==>
      && m.Holding({}) && m.others == old(db.live) && |db.live| == |old(db.live)| + 1 + 4 * |Replayed(puts)|
    ensures m != null && done < |puts| ==> m.NoRoom(puts[done].0, puts[done].1)
  {
    hide D.Db.Valid, Consistent, Texts, Contents, HashMap.Holding, HashMap.NoRoom, D.Db.Owned, LeastPower,
         D.Db.CannotServe;
    done := 0;
    m, count := Init(db, capacity);
    if m == null {
      return;
    }
    while done < |puts|
      invariant done <= |puts| && m.db == db && db.Valid() && m.Holding({}) && fresh(m) && fresh(db.Repr - old(db.Repr))
      invariant m.others == old(db.live)
      invariant Texts(m.Now()) == Replayed(puts[..done]) && AllStrings(Contents(m.Now()))
    {
      var ok, oldVal := m.PutStr(puts[done].0, puts[done].1);
      if !ok {
        return;
      }
      assert puts[..done + 1][..done] == puts[..done];
      done := done + 1;
    }
    assert puts[..|puts|] == puts;
    m.StorageAccounting({});
  }

  lemma PowerOf(capacity: nat, count: nat, e: nat)
    requires LeastPower(capacity, count, e)
    ensures count == Pow2(e)
  {
  }
}
