/** That overwriting a value and adding an entry keep the hash map consistent, and what they do to its contents. */
module HashMapSteps {
  import opened CStrings
  import opened Values
  import opened Sequences
  import opened HashMapSpec

  // The same block but for the links of an entry.
  predicate SameButLinks(c: Cell, d: Cell) {
    c == d
    || (&& c.EntryCell? && d.EntryCell?
        && c.entry.hash == d.entry.hash && c.entry.key == d.entry.key && c.entry.val == d.entry.val)
  }

  lemma EntryForFrame(heap: Heap, heap': Heap, k: CStr, e: Addr)
    requires EntryFor(heap, k, e)
    requires forall b :: b in Blocks(heap, k, e) ==> b in heap && b in heap' && SameButLinks(heap[b], heap'[b])
    ensures EntryFor(heap', k, e) && Blocks(heap', k, e) == Blocks(heap, k, e)
  {
    assert e in Blocks(heap, k, e) && heap[e].entry.key in Blocks(heap, k, e);
    var v := heap[e].entry.val;
    if v.kind == StrVal {
      assert v.value in Blocks(heap, k, e) && heap[v.value].data in Blocks(heap, k, e);
    }
  }

  // What `owner` becomes when the blocks in `gone` are given up and those in `come` go to key k.
  function Reowned(owner: map<Addr, CStr>, gone: set<Addr>, come: set<Addr>, k: CStr): map<Addr, CStr> {
    (owner - gone) + map a | a in come :: k
  }

  lemma ReownedKeys(owner: map<Addr, CStr>, come: set<Addr>, k: CStr)
    ensures Reowned(owner, {}, come, k).Keys == owner.Keys + come
    ensures forall a :: a in Reowned(owner, {}, come, k) ==>
      Reowned(owner, {}, come, k)[a] == if a in come then k else owner[a]
  {
  }

  // The blocks of one key may change as long as its new blocks are its own and others' stay.
  lemma StoredAfter(heap: Heap, heap': Heap, index: map<CStr, Addr>, owner: map<Addr, CStr>,
                    gone: set<Addr>, come: set<Addr>, k: CStr, e: Addr)
    requires Stored(heap, index, owner)
    requires forall a :: a in owner ==> owner[a] in index
    requires EntryFor(heap', k, e)
    requires come !! owner.Keys
    requires forall a :: a in gone ==> a in owner && owner[a] == k
    requires forall a :: a in owner && owner[a] != k ==> a in heap && a in heap' && SameButLinks(heap[a], heap'[a])
    requires forall b :: b in Blocks(heap', k, e) <==> b in come || (b in owner && owner[b] == k && b !in gone)
    ensures Stored(heap', index[k := e], Reowned(owner, gone, come, k))
  {
    hide EntryFor, OwnsBlocks, Reowned, Blocks, SameButLinks, StringInPlace;
    StoredSame(heap', index, owner, gone, come, k, e);
    forall j | j in index && j != k
      ensures EntryFor(heap', j, index[j]) && OwnsBlocks(heap', index[k := e], Reowned(owner, gone, come, k), j)
    {
      StoredOther(heap, heap', index, owner, gone, come, k, e, j);
    }
  }

  lemma StoredSame(heap': Heap, index: map<CStr, Addr>, owner: map<Addr, CStr>,
                   gone: set<Addr>, come: set<Addr>, k: CStr, e: Addr)
    requires EntryFor(heap', k, e) && come !! owner.Keys
    requires forall b :: b in Blocks(heap', k, e) <==> b in come || (b in owner && owner[b] == k && b !in gone)
    ensures OwnsBlocks(heap', index[k := e], Reowned(owner, gone, come, k), k)
  {
    hide EntryFor, Blocks;
  }

  lemma StoredOther(heap: Heap, heap': Heap, index: map<CStr, Addr>, owner: map<Addr, CStr>,
                    gone: set<Addr>, come: set<Addr>, k: CStr, e: Addr, j: CStr)
    requires Stored(heap, index, owner) && j in index && j != k
    requires come !! owner.Keys
    requires forall a :: a in gone ==> a in owner && owner[a] == k
    requires forall a :: a in owner && owner[a] != k ==> a in heap && a in heap' && SameButLinks(heap[a], heap'[a])
    ensures EntryFor(heap', j, index[j]) && OwnsBlocks(heap', index[k := e], Reowned(owner, gone, come, k), j)
  {
    hide HashOf;
    assert EntryFor(heap, j, index[j]) && OwnsBlocks(heap, index, owner, j);
    hide Stored;
    EntryForFrame(heap, heap', j, index[j]);
    hide EntryFor, Blocks, SameButLinks;
  }

  lemma ContentsExtended(heap: Heap, h: Heap, index: map<CStr, Addr>, k: CStr, e: Addr, w: Val)
    requires e in h && h[e].EntryCell? && h[e].entry.val == w
    requires forall j :: j in index && j != k ==>
      && index[j] in heap && heap[index[j]].EntryCell?
      && index[j] in h && h[index[j]].EntryCell? && h[index[j]].entry.val == heap[index[j]].entry.val
    requires k in index ==> index[k] in heap && heap[index[k]].EntryCell?
    ensures ContentsOf(h, index[k := e]) == ContentsOf(heap, index)[k := w]
  {
  }

  // Chains spell the same after a change that keeps every entry's links and the bucket array.
  lemma ChainedFrame(heap: Heap, heap': Heap, table: Addr, chains: seq<seq<Addr>>)
    requires Chained(heap, table, chains) && table in heap' && heap'[table] == heap[table]
    requires forall a :: a in heap && heap[a].EntryCell? ==>
      && a in heap' && heap'[a].EntryCell?
      && heap'[a].entry.prev == heap[a].entry.prev && heap'[a].entry.next == heap[a].entry.next
    ensures Chained(heap', table, chains)
  {
    forall i, j | 0 <= i < |chains| && 0 <= j < |chains[i]| ensures LinkSpells(heap', chains[i], j) {
      assert LinkSpells(heap, chains[i], j);
    }
  }

  lemma IndexedFrame(index: map<CStr, Addr>, chains: seq<seq<Addr>>, owner: map<Addr, CStr>, owner': map<Addr, CStr>)
    requires Indexed(index, chains, owner)
    requires forall a :: a in owner && owner[a] in index && index[owner[a]] == a ==>
      a in owner' && owner'[a] == owner[a]
    ensures Indexed(index, chains, owner')
  {
    forall i, j | 0 <= i < |chains| && 0 <= j < |chains[i]|
      ensures ChainedKey(index, owner', chains[i][j], i, |chains|)
    {
      assert ChainedKey(index, owner, chains[i][j], i, |chains|);
    }
  }

  // ----- overwriting (touchdb_map.c:212-219)

  function Overwritten(v: View, k: CStr, w: Val): View
    requires k in v.index && EntryFor(v.heap, k, v.index[k]) && StringInPlace(v.heap, w)
  {
    var e := v.index[k];
    var n := v.heap[e].entry;
    var gone := StringBlocks(v.heap, n.val);
    v.(heap := v.heap[e := EntryCell(n.(val := w))] - gone,
       owner := Reowned(v.owner, gone, StringBlocks(v.heap, w), k))
  }

  // The blocks of key k: an entry that is no part of a string, and belonging to no other key.
  lemma KeyFacts(heap: Heap, index: map<CStr, Addr>, owner: map<Addr, CStr>, k: CStr)
    requires Stored(heap, index, owner) && k in index
    ensures index[k] in heap && heap[index[k]].EntryCell?
    ensures EntryFor(heap, k, index[k]) && OwnsBlocks(heap, index, owner, k)
    ensures var e := index[k]; var n := heap[e].entry; var g := StringBlocks(heap, n.val);
      && Blocks(heap, k, e) == {e, n.key} + g
      && {e, n.key} !! g && e != n.key
      && e in owner && owner[e] == k && n.key in owner && owner[n.key] == k
      && (forall a :: a in g ==> a in owner && owner[a] == k && a in heap && !heap[a].EntryCell? && !heap[a].Table?)
  {
    hide HashOf;
    assert EntryFor(heap, k, index[k]) && OwnsBlocks(heap, index, owner, k);
    hide Stored;
    var e := index[k];
    var n := heap[e].entry;
    var g := StringBlocks(heap, n.val);
    assert Blocks(heap, k, e) == {e, n.key} + g;
    hide Blocks;
    assert e in Blocks(heap, k, e) && n.key in Blocks(heap, k, e);
    forall a | a in g
      ensures a in owner && owner[a] == k && a in heap && !heap[a].EntryCell? && !heap[a].Table? && !heap[a].Key?
    {
      assert a in Blocks(heap, k, e);
    }
  }

  lemma OverwrittenConsistent(v: View, pending: set<Addr>, k: CStr, w: Val)
    requires Consistent(v, pending) && k in v.index
    requires StringInPlace(v.heap, w) && StringBlocks(v.heap, w) <= pending
    ensures EntryFor(v.heap, k, v.index[k])
    ensures Consistent(Overwritten(v, k, w), pending - StringBlocks(v.heap, w))
    ensures Contents(Overwritten(v, k, w)) == Contents(v)[k := w]
    ensures StringInPlace(Overwritten(v, k, w).heap, w)
  {
    assert forall a :: a in v.owner ==> a in v.heap && v.owner[a] in v.index;
    assert pending !! v.owner.Keys;
    KeyFacts(v.heap, v.index, v.owner, k);
    OverwrittenContents(v, k, w);
    OverwrittenStored(v.heap, v.index, v.owner, k, w);
    OverwrittenAccounted(v, pending, k, w);
    OverwrittenChains(v, k, w);
  }

  lemma OverwrittenStored(heap: Heap, index: map<CStr, Addr>, owner: map<Addr, CStr>, k: CStr, w: Val)
    requires Stored(heap, index, owner) && k in index && EntryFor(heap, k, index[k])
    requires forall a :: a in owner ==> a in heap && owner[a] in index
    requires StringInPlace(heap, w) && StringBlocks(heap, w) !! owner.Keys
    ensures var e := index[k]; var n := heap[e].entry;
      var gone, come := StringBlocks(heap, n.val), StringBlocks(heap, w);
      var heap' := heap[e := EntryCell(n.(val := w))] - gone;
      EntryFor(heap', k, e) && Stored(heap', index, Reowned(owner, gone, come, k)) && StringInPlace(heap', w)
  {
    hide HashOf, Stored, EntryFor, Blocks, StringBlocks, StringInPlace, Reowned;
    KeyFacts(heap, index, owner, k);
    OverwrittenEntry(heap, index, owner, k, w);
    var e := index[k];
    var n := heap[e].entry;
    var gone, come := StringBlocks(heap, n.val), StringBlocks(heap, w);
    assert index[k := e] == index;
    StoredAfter(heap, heap[e := EntryCell(n.(val := w))] - gone, index, owner, gone, come, k, e);
  }

  lemma OverwrittenEntry(heap: Heap, index: map<CStr, Addr>, owner: map<Addr, CStr>, k: CStr, w: Val)
    requires Stored(heap, index, owner) && k in index && EntryFor(heap, k, index[k])
    requires StringInPlace(heap, w) && StringBlocks(heap, w) !! owner.Keys
    ensures index[k] in heap && heap[index[k]].EntryCell? && StringInPlace(heap, heap[index[k]].entry.val)
    ensures var e := index[k]; var n := heap[e].entry;
      var heap' := heap[e := EntryCell(n.(val := w))] - StringBlocks(heap, n.val);
      && EntryFor(heap', k, e) && StringInPlace(heap', w)
      && Blocks(heap', k, e) == {e, n.key} + StringBlocks(heap, w)
  {
    hide HashOf, Stored;
    KeyFacts(heap, index, owner, k);
    hide OwnsBlocks;
    var e := index[k];
    var n := heap[e].entry;
    var heap' := heap[e := EntryCell(n.(val := w))] - StringBlocks(heap, n.val);
    assert forall a :: a in StringBlocks(heap, w) ==> a in heap' && heap'[a] == heap[a];
  }

  lemma OverwrittenAccounted(v: View, pending: set<Addr>, k: CStr, w: Val)
    requires Accounted(v, pending) && k in v.index && EntryFor(v.heap, k, v.index[k])
    requires StringInPlace(v.heap, w) && StringBlocks(v.heap, w) <= pending
    requires forall b :: b in Blocks(v.heap, k, v.index[k]) ==> b in v.owner && v.owner[b] == k
    ensures Accounted(Overwritten(v, k, w), pending - StringBlocks(v.heap, w))
  {
    hide HashOf;
  }

  lemma OverwrittenChains(v: View, k: CStr, w: Val)
    requires Chained(v.heap, v.table, v.chains) && Indexed(v.index, v.chains, v.owner)
    requires Stored(v.heap, v.index, v.owner) && k in v.index && EntryFor(v.heap, k, v.index[k])
    requires StringInPlace(v.heap, w)
    ensures var v' := Overwritten(v, k, w);
      Chained(v'.heap, v'.table, v'.chains) && Indexed(v'.index, v'.chains, v'.owner)
  {
    hide *;
    var v' := Overwritten(v, k, w);
    TableIn(v.heap, v.table, v.chains);
    OverwrittenCells(v, k, w);
    ChainedFrame(v.heap, v'.heap, v.table, v.chains);
    OverwrittenOwner(v, k, w);
    IndexedFrame(v.index, v.chains, v.owner, v'.owner);
  }

  lemma TableIn(heap: Heap, table: Addr, chains: seq<seq<Addr>>)
    requires Chained(heap, table, chains)
    ensures table in heap && heap[table].Table?
  {
  }

  // Entries keep their links, and the bucket array stays as it is.
  lemma OverwrittenCells(v: View, k: CStr, w: Val)
    requires Stored(v.heap, v.index, v.owner) && k in v.index && EntryFor(v.heap, k, v.index[k])
    requires StringInPlace(v.heap, w)
    ensures var v' := Overwritten(v, k, w);
      && v'.table == v.table && v'.chains == v.chains && v'.index == v.index
      && (forall a :: a in v.heap && v.heap[a].Table? ==> a in v'.heap && v'.heap[a] == v.heap[a])
      && (forall a :: a in v.heap && v.heap[a].EntryCell? ==>
            && a in v'.heap && v'.heap[a].EntryCell?
            && v'.heap[a].entry.prev == v.heap[a].entry.prev && v'.heap[a].entry.next == v.heap[a].entry.next)
  {
    hide HashOf, Stored, Reowned, StringInPlace;
    KeyFacts(v.heap, v.index, v.owner, k);
    hide EntryFor, StringBlocks;
  }

  // Entries keep their keys.
  lemma OverwrittenOwner(v: View, k: CStr, w: Val)
    requires Stored(v.heap, v.index, v.owner) && k in v.index && EntryFor(v.heap, k, v.index[k])
    requires StringInPlace(v.heap, w)
    ensures var v' := Overwritten(v, k, w);
      forall a :: a in v.owner && v.owner[a] in v.index && v.index[v.owner[a]] == a ==>
        a in v'.owner && v'.owner[a] == v.owner[a]
  {
    hide HashOf, Stored, StringInPlace, StringBlocks, EntryFor;
    KeyFacts(v.heap, v.index, v.owner, k);
    StringCells(v.heap, w);
    forall a | a in v.owner && v.owner[a] in v.index && v.index[v.owner[a]] == a
      ensures a in Overwritten(v, k, w).owner && Overwritten(v, k, w).owner[a] == v.owner[a]
    {
      KeyFacts(v.heap, v.index, v.owner, v.owner[a]);
    }
  }

  lemma StringCells(heap: Heap, w: Val)
    requires StringInPlace(heap, w)
    ensures forall a :: a in StringBlocks(heap, w) ==> a in heap && !heap[a].EntryCell?
  {
  }

  lemma OverwrittenContents(v: View, k: CStr, w: Val)
    requires Stored(v.heap, v.index, v.owner) && k in v.index && EntryFor(v.heap, k, v.index[k])
    requires StringInPlace(v.heap, w)
    ensures Contents(Overwritten(v, k, w)) == Contents(v)[k := w]
  {
    hide HashOf, StringInPlace;
    var e, h := v.index[k], Overwritten(v, k, w).heap;
    KeyFacts(v.heap, v.index, v.owner, k);
    hide StringBlocks, Reowned;
    forall j | j in v.index
      ensures v.index[j] in v.heap && v.heap[v.index[j]].EntryCell?
      ensures j != k ==> v.index[j] in h && h[v.index[j]] == v.heap[v.index[j]]
    {
      KeyFacts(v.heap, v.index, v.owner, j);
    }
    hide Stored, EntryFor, Overwritten;
    ContentsExtended(v.heap, h, v.index, k, e, w);
    assert v.index[k := e] == v.index;
  }

  // ----- a new entry (touchdb_map.c:224-245)

  function NewEntry(q: seq<Addr>, k: CStr, kb: Addr, w: Val): Entry {
    Entry(if q == [] then NULL_ADDR else q[|q| - 1], NULL_ADDR, HashOf(k), kb, w)
  }

  function NewBulk(q: seq<Addr>, e: Addr): Bulk {
    Bulk(if q == [] then e else q[0], e, |q| + 1)
  }

  // The heap after entry e with key block kb is filled in and linked behind the last entry of chain q.
  function AppendedHeap(heap: Heap, table: Addr, i: nat, q: seq<Addr>, k: CStr, e: Addr, kb: Addr, w: Val): Heap
    requires table in heap && heap[table].Table? && i < |heap[table].bulks|
    requires q != [] ==> q[|q| - 1] in heap && heap[q[|q| - 1]].EntryCell?
  {
    var h1 := heap[e := EntryCell(NewEntry(q, k, kb, w))][kb := Key(k)];
    var h2 := if q == [] then h1 else h1[q[|q| - 1] := EntryCell(heap[q[|q| - 1]].entry.(next := e))];
    h2[table := Table(heap[table].bulks[i := NewBulk(q, e)])]
  }

  lemma AppendedHeapFacts(heap: Heap, table: Addr, i: nat, q: seq<Addr>, k: CStr, e: Addr, kb: Addr, w: Val)
    requires table in heap && heap[table].Table? && i < |heap[table].bulks|
    requires q != [] ==> q[|q| - 1] in heap && heap[q[|q| - 1]].EntryCell?
    requires e !in heap && kb !in heap && e != kb
    ensures var h := AppendedHeap(heap, table, i, q, k, e, kb, w);
      && h.Keys == heap.Keys + {e, kb}
      && h[e] == EntryCell(NewEntry(q, k, kb, w)) && h[kb] == Key(k) && h[table].Table?
      && (forall a :: a in heap && a != table ==> SameButLinks(heap[a], h[a]))
      && (forall a :: a in heap && !heap[a].EntryCell? && a != table ==> h[a] == heap[a])
  {
    hide HashOf;
  }

  lemma AppendedChains(heap: Heap, table: Addr, chains: seq<seq<Addr>>, i: nat, k: CStr, e: Addr, kb: Addr, w: Val)
    requires Chained(heap, table, chains) && i < |chains|
    requires e !in heap && kb !in heap && e != kb && e.offset != NIL
    requires forall j :: 0 <= j < |chains| && j != i && chains[i] != [] ==> chains[i][|chains[i]| - 1] !in chains[j]
    requires NoDuplicates(chains[i])
    ensures chains[i] != [] ==> LinkSpells(heap, chains[i], |chains[i]| - 1)
    ensures Chained(AppendedHeap(heap, table, i, chains[i], k, e, kb, w), table, chains[i := chains[i] + [e]])
  {
    hide HashOf;
    var q := chains[i];
    if q != [] { assert LinkSpells(heap, q, |q| - 1); }
    var heap' := AppendedHeap(heap, table, i, q, k, e, kb, w);
    var chains' := chains[i := q + [e]];
    assert BulkSpells(heap[table].bulks[i], q);
    forall m, j | 0 <= m < |chains'| && 0 <= j < |chains'[m]| ensures LinkSpells(heap', chains'[m], j) {
      if m != i || j < |q| {
        assert LinkSpells(heap, chains[m], j);
        assert m != i ==> chains[m][j] in chains[m];
      }
    }
  }

  lemma AppendedIndexed(index: map<CStr, Addr>, chains: seq<seq<Addr>>, owner: map<Addr, CStr>, owner': map<Addr, CStr>,
                        k: CStr, e: Addr)
    requires Indexed(index, chains, owner) && k !in index && e !in owner && Bucket(|chains|, k) < |chains|
    requires forall a :: a in owner ==> a in owner' && owner'[a] == owner[a]
    requires e in owner' && owner'[e] == k
    ensures var i := Bucket(|chains|, k);
      Indexed(index[k := e], chains[i := chains[i] + [e]], owner')
  {
    hide HashOf;
    var i := Bucket(|chains|, k);
    var chains', index' := chains[i := chains[i] + [e]], index[k := e];
    hide Bucket;
    forall m, j | 0 <= m < |chains'| && 0 <= j < |chains'[m]|
      ensures ChainedKey(index', owner', chains'[m][j], m, |chains'|)
    {
      if m != i || j < |chains[i]| {
        assert ChainedKey(index, owner, chains[m][j], m, |chains|);
      }
    }
    assert e !in chains[i] by {
      forall j | 0 <= j < |chains[i]| ensures chains[i][j] != e {
        assert ChainedKey(index, owner, chains[i][j], i, |chains|);
      }
    }
  }

  // The last entry of a chain is in no other chain.
  lemma ChainsApart(index: map<CStr, Addr>, chains: seq<seq<Addr>>, owner: map<Addr, CStr>, i: nat, j: nat, m: nat)
    requires Indexed(index, chains, owner) && i < |chains| && j < |chains| && i != j && m < |chains[i]|
    ensures chains[i][m] !in chains[j]
  {
    assert ChainedKey(index, owner, chains[i][m], i, |chains|);
    forall n | 0 <= n < |chains[j]| ensures chains[j][n] != chains[i][m] {
      assert ChainedKey(index, owner, chains[j][n], j, |chains|);
    }
  }

  ghost function Appended(v: View, k: CStr, e: Addr, kb: Addr, w: Val): View
    requires Appendable(v, k) && StringInPlace(v.heap, w)
  {
    var i := Bucket(|v.chains|, k);
    View(AppendedHeap(v.heap, v.table, i, v.chains[i], k, e, kb, w), v.table, v.size + 1, v.index[k := e],
         v.chains[i := v.chains[i] + [e]], Reowned(v.owner, {}, {e, kb} + StringBlocks(v.heap, w), k))
  }

  // What an append needs of the map: the bucket, and the last entry of its chain.
  ghost predicate Appendable(v: View, k: CStr) {
    && v.table in v.heap && v.heap[v.table].Table? && |v.heap[v.table].bulks| == |v.chains|
    && k !in v.index
    && var i := Bucket(|v.chains|, k);
    && i < |v.chains|
    && (v.chains[i] != [] ==> LinkSpells(v.heap, v.chains[i], |v.chains[i]| - 1))
  }

  lemma ConsistentAppendable(v: View, pending: set<Addr>, k: CStr)
    requires Consistent(v, pending) && k !in v.index && Bucket(|v.chains|, k) < |v.chains|
    ensures Appendable(v, k)
  {
    hide Bucket;
    var i := Bucket(|v.chains|, k);
    if v.chains[i] != [] { assert LinkSpells(v.heap, v.chains[i], |v.chains[i]| - 1); }
  }

  lemma AppendedConsistent(v: View, pending: set<Addr>, k: CStr, e: Addr, kb: Addr, w: Val)
    requires Consistent(v, pending) && Appendable(v, k)
    requires e !in v.heap && kb !in v.heap && e != kb && e.offset != NIL
    requires StringInPlace(v.heap, w) && StringBlocks(v.heap, w) <= pending
    ensures Consistent(Appended(v, k, e, kb, w), pending - StringBlocks(v.heap, w))
    ensures Contents(Appended(v, k, e, kb, w)) == Contents(v)[k := w]
    ensures StringInPlace(Appended(v, k, e, kb, w).heap, w)
  {
    AppendedOwner(v, pending, k, e, kb, w);
    AccountedDisjoint(v, pending);
    AppendedStored(v, pending, k, e, kb, w);
    AppendedLinks(v, k, e, kb, w);
    hide Stored, Accounted, Appended;
  }

  lemma AppendedLinks(v: View, k: CStr, e: Addr, kb: Addr, w: Val)
    requires Chained(v.heap, v.table, v.chains) && Indexed(v.index, v.chains, v.owner) && Appendable(v, k)
    requires e !in v.heap && kb !in v.heap && e != kb && e.offset != NIL && e !in v.owner && kb !in v.owner
    requires StringInPlace(v.heap, w) && StringBlocks(v.heap, w) !! v.owner.Keys
    ensures var v' := Appended(v, k, e, kb, w);
      Chained(v'.heap, v'.table, v'.chains) && Indexed(v'.index, v'.chains, v'.owner)
  {
    hide Bucket, HashOf, AppendedHeap, Indexed, Chained, Reowned, StringBlocks, StringInPlace;
    var i := Bucket(|v.chains|, k);
    ReownedKeys(v.owner, {e, kb} + StringBlocks(v.heap, w), k);
    LastApart(v.index, v.chains, v.owner, i);
    AppendedIndexed(v.index, v.chains, v.owner, Appended(v, k, e, kb, w).owner, k, e);
    AppendedChains(v.heap, v.table, v.chains, i, k, e, kb, w);
  }

  lemma LastApart(index: map<CStr, Addr>, chains: seq<seq<Addr>>, owner: map<Addr, CStr>, i: nat)
    requires Indexed(index, chains, owner) && i < |chains|
    ensures NoDuplicates(chains[i])
    ensures forall j :: 0 <= j < |chains| && j != i && chains[i] != [] ==> chains[i][|chains[i]| - 1] !in chains[j]
  {
    forall j | 0 <= j < |chains| && j != i && chains[i] != [] ensures chains[i][|chains[i]| - 1] !in chains[j] {
      ChainsApart(index, chains, owner, i, j, |chains[i]| - 1);
    }
  }

  lemma AppendedFields(v: View, k: CStr, e: Addr, kb: Addr, w: Val)
    requires Appendable(v, k) && e !in v.heap && kb !in v.heap && e != kb && StringInPlace(v.heap, w)
    ensures var v', s := Appended(v, k, e, kb, w), StringBlocks(v.heap, w);
      && k !in v.index && v'.table == v.table && v'.size == v.size + 1 && v'.index == v.index[k := e]
      && v'.heap.Keys == v.heap.Keys + {e, kb}
      && v'.owner == Reowned(v.owner, {}, {e, kb} + s, k)
  {
    hide Bucket, HashOf, StringBlocks, StringInPlace, Reowned;
    var i := Bucket(|v.chains|, k);
    AppendedHeapFacts(v.heap, v.table, i, v.chains[i], k, e, kb, w);
  }

  // What appending means for the ownership of blocks.
  lemma AppendedOwner(v: View, pending: set<Addr>, k: CStr, e: Addr, kb: Addr, w: Val)
    requires Accounted(v, pending) && Appendable(v, k)
    requires e !in v.heap && kb !in v.heap && e != kb
    requires StringInPlace(v.heap, w) && StringBlocks(v.heap, w) <= pending
    ensures Accounted(Appended(v, k, e, kb, w), pending - StringBlocks(v.heap, w))
  {
    hide Appended, Appendable, Reowned, StringBlocks, StringInPlace, Accounted;
    AppendedFields(v, k, e, kb, w);
    ReownedKeys(v.owner, {e, kb} + StringBlocks(v.heap, w), k);
    AccountedExtended(v, Appended(v, k, e, kb, w), pending, {e, kb}, StringBlocks(v.heap, w), k);
  }

  lemma AccountedDisjoint(v: View, pending: set<Addr>)
    requires Accounted(v, pending)
    ensures v.owner.Keys <= v.heap.Keys && pending !! v.owner.Keys && v.heap.Keys == {v.table} + pending + v.owner.Keys
    ensures v.table !in v.owner.Keys && v.table !in pending && v.size == |v.index.Keys|
    ensures forall a :: a in v.owner.Keys ==> v.owner[a] in v.index.Keys
  {
  }

  lemma AccountedIntro(v: View, pending: set<Addr>)
    requires pending !! v.owner.Keys && v.heap.Keys == {v.table} + pending + v.owner.Keys
    requires v.table !in v.owner.Keys && v.table !in pending && v.size == |v.index.Keys|
    requires forall a :: a in v.owner.Keys ==> v.owner[a] in v.index.Keys
    ensures Accounted(v, pending)
  {
  }

  lemma AccountedExtended(v: View, v': View, pending: set<Addr>, extra: set<Addr>, s: set<Addr>, k: CStr)
    requires Accounted(v, pending) && s <= pending && extra !! v.heap.Keys && k !in v.index
    requires v'.table == v.table && v'.size == v.size + 1 && v'.index.Keys == v.index.Keys + {k}
    requires v'.heap.Keys == v.heap.Keys + extra && v'.owner.Keys == v.owner.Keys + (extra + s)
    requires forall a :: a in v'.owner.Keys ==> v'.owner[a] == k || (a in v.owner.Keys && v'.owner[a] == v.owner[a])
    ensures Accounted(v', pending - s)
  {
    hide *;
    OwnersAccounted(v, v', pending, k);
    KeysAccounted(v, v', pending, extra, s);
    SizeAccounted(v, v', pending, k);
    AccountedIntro(v', pending - s);
  }

  lemma OwnersAccounted(v: View, v': View, pending: set<Addr>, k: CStr)
    requires Accounted(v, pending) && v'.index.Keys == v.index.Keys + {k}
    requires forall a :: a in v'.owner.Keys ==> v'.owner[a] == k || (a in v.owner.Keys && v'.owner[a] == v.owner[a])
    ensures forall a :: a in v'.owner.Keys ==> v'.owner[a] in v'.index.Keys
  {
    hide *;
    AccountedDisjoint(v, pending);
    OwnersExtended(v.owner, v'.owner, v.index.Keys, v'.index.Keys, k);
  }

  lemma KeysAccounted(v: View, v': View, pending: set<Addr>, extra: set<Addr>, s: set<Addr>)
    requires Accounted(v, pending) && s <= pending && extra !! v.heap.Keys && v'.table == v.table
    requires v'.heap.Keys == v.heap.Keys + extra && v'.owner.Keys == v.owner.Keys + (extra + s)
    ensures v'.heap.Keys == {v'.table} + (pending - s) + v'.owner.Keys && (pending - s) !! v'.owner.Keys
    ensures v'.table !in v'.owner.Keys && v'.table !in pending - s
  {
    hide *;
    AccountedDisjoint(v, pending);
    KeysExtended(v.heap.Keys, v.table, pending, v.owner.Keys, extra, s, v'.heap.Keys, v'.owner.Keys);
  }

  lemma SizeAccounted(v: View, v': View, pending: set<Addr>, k: CStr)
    requires Accounted(v, pending) && k !in v.index
    requires v'.size == v.size + 1 && v'.index.Keys == v.index.Keys + {k}
    ensures v'.size == |v'.index.Keys|
  {
    hide *;
    AccountedDisjoint(v, pending);
    OneMore(v.index.Keys, k);
  }

  lemma OwnersExtended(owner: map<Addr, CStr>, owner': map<Addr, CStr>, keys: set<CStr>, keys': set<CStr>, k: CStr)
    requires keys' == keys + {k} && forall a :: a in owner.Keys ==> owner[a] in keys
    requires forall a :: a in owner'.Keys ==> owner'[a] == k || (a in owner.Keys && owner'[a] == owner[a])
    ensures forall a :: a in owner'.Keys ==> owner'[a] in keys'
  {
  }

  lemma OneMore<T>(s: set<T>, x: T)
    requires x !in s
    ensures |s + {x}| == |s| + 1
  {
  }

  lemma KeysExtended(h: set<Addr>, t: Addr, p: set<Addr>, o: set<Addr>, n: set<Addr>, s: set<Addr>,
                     h': set<Addr>, o': set<Addr>)
    requires h == {t} + p + o && s <= p && n !! h && t !in o && t !in p && p !! o
    requires h' == h + n && o' == o + (n + s)
    ensures h' == {t} + (p - s) + o' && o <= o' && t !in o' && t !in p - s && (p - s) !! o'
  {
  }

  lemma AppendedEntry(v: View, k: CStr, e: Addr, kb: Addr, w: Val)
    requires Appendable(v, k) && e !in v.heap && kb !in v.heap && e != kb && StringInPlace(v.heap, w)
    ensures var h := Appended(v, k, e, kb, w).heap;
      && EntryFor(h, k, e) && Blocks(h, k, e) == {e, kb} + StringBlocks(v.heap, w)
      && h[e].entry.val == w && StringInPlace(h, w)
      && forall a :: a in v.heap && a != v.table ==> a in h && SameButLinks(v.heap[a], h[a])
  {
    hide Bucket, HashOf;
    var i := Bucket(|v.chains|, k);
    AppendedHeapFacts(v.heap, v.table, i, v.chains[i], k, e, kb, w);
    hide AppendedHeap;
    var h := Appended(v, k, e, kb, w).heap;
    assert forall a :: a in StringBlocks(v.heap, w) ==> a != v.table && h[a] == v.heap[a];
  }

  lemma AppendedStored(v: View, pending: set<Addr>, k: CStr, e: Addr, kb: Addr, w: Val)
    requires Accounted(v, pending) && Stored(v.heap, v.index, v.owner) && Appendable(v, k)
    requires e !in v.heap && kb !in v.heap && e != kb
    requires StringInPlace(v.heap, w) && StringBlocks(v.heap, w) <= pending
    ensures var v' := Appended(v, k, e, kb, w);
      Stored(v'.heap, v'.index, v'.owner) && Contents(v') == Contents(v)[k := w] && StringInPlace(v'.heap, w)
  {
    hide Appended, Appendable, Reowned, StringBlocks, StringInPlace, EntryFor, Blocks, SameButLinks, Stored;
    AppendedEntry(v, k, e, kb, w);
    AppendedFields(v, k, e, kb, w);
    AppendedContents(v, pending, k, e, kb, w);
    var h, come := Appended(v, k, e, kb, w).heap, {e, kb} + StringBlocks(v.heap, w);
    assert come !! v.owner.Keys;
    assert forall b :: b in v.owner ==> v.owner[b] != k && b in v.heap && b != v.table;
    StoredAfter(v.heap, h, v.index, v.owner, {}, come, k, e);
  }

  lemma AppendedContents(v: View, pending: set<Addr>, k: CStr, e: Addr, kb: Addr, w: Val)
    requires Accounted(v, pending) && Stored(v.heap, v.index, v.owner) && Appendable(v, k)
    requires e !in v.heap && kb !in v.heap && e != kb && StringInPlace(v.heap, w)
    ensures Contents(Appended(v, k, e, kb, w)) == Contents(v)[k := w]
  {
    hide Appended, Appendable, Reowned, StringBlocks, StringInPlace, Stored, ContentsOf, HashOf;
    AppendedEntry(v, k, e, kb, w);
    AppendedFields(v, k, e, kb, w);
    var h := Appended(v, k, e, kb, w).heap;
    forall j | j in v.index
      ensures && v.index[j] in v.heap && v.heap[v.index[j]].EntryCell?
              && v.index[j] in h && h[v.index[j]].EntryCell? && h[v.index[j]].entry.val == v.heap[v.index[j]].entry.val
    {
      KeyFacts(v.heap, v.index, v.owner, j);
    }
    ContentsExtended(v.heap, h, v.index, k, e, w);
  }

  // ----- texts

  lemma TextFrame(heap: Heap, h: Heap, v: Val)
    requires StringInPlace(heap, v)
    requires forall a :: a in StringBlocks(heap, v) ==> a in h && h[a] == heap[a]
    ensures StringInPlace(h, v) && TextOf(h, v) == TextOf(heap, v) && StringBlocks(h, v) == StringBlocks(heap, v)
  {
    if v.kind == StrVal {
      assert v.value in StringBlocks(heap, v) && heap[v.value].data in StringBlocks(heap, v);
    }
  }

  lemma TextsExtended(heap: Heap, h: Heap, index: map<CStr, Addr>, k: CStr, e: Addr, w: Val)
    requires e in h && h[e].EntryCell? && h[e].entry.val == w
    requires forall j :: j in index && j != k ==>
      && index[j] in heap && heap[index[j]].EntryCell? && index[j] in h && h[index[j]].EntryCell?
      && TextOf(h, h[index[j]].entry.val) == TextOf(heap, heap[index[j]].entry.val)
    requires k in index ==> index[k] in heap && heap[index[k]].EntryCell?
    ensures TextsOf(h, index[k := e]) == TextsOf(heap, index)[k := TextOf(h, w)]
  {
  }

  // The text of key j is the same in h if its blocks are, but for links.
  lemma KeyTextFrame(heap: Heap, h: Heap, index: map<CStr, Addr>, owner: map<Addr, CStr>, j: CStr)
    requires Stored(heap, index, owner) && j in index
    requires forall a :: a in owner && owner[a] == j ==> a in heap && a in h && SameButLinks(heap[a], h[a])
    ensures index[j] in heap && heap[index[j]].EntryCell? && index[j] in h && h[index[j]].EntryCell?
    ensures h[index[j]].entry.val == heap[index[j]].entry.val
    ensures TextOf(h, h[index[j]].entry.val) == TextOf(heap, heap[index[j]].entry.val)
  {
    hide HashOf;
    KeyFacts(heap, index, owner, j);
    var v := heap[index[j]].entry.val;
    forall a | a in StringBlocks(heap, v) ensures a in h && h[a] == heap[a] {
      assert a in owner && owner[a] == j;
    }
    TextFrame(heap, h, v);
  }

  lemma OverwrittenTexts(v: View, pending: set<Addr>, k: CStr, w: Val)
    requires Consistent(v, pending) && k in v.index && EntryFor(v.heap, k, v.index[k])
    requires StringInPlace(v.heap, w) && StringBlocks(v.heap, w) <= pending
    ensures Texts(Overwritten(v, k, w)) == Texts(v)[k := TextOf(v.heap, w)]
    ensures TextOf(Overwritten(v, k, w).heap, w) == TextOf(v.heap, w)
  {
    hide Chained, Indexed, HashOf, TextsOf, TextOf, EntryFor, StringInPlace, Reowned;
    var e, h := v.index[k], Overwritten(v, k, w).heap;
    AccountedDisjoint(v, pending);
    hide Accounted;
    KeyFacts(v.heap, v.index, v.owner, k);
    forall a | a in StringBlocks(v.heap, w) ensures a in h && h[a] == v.heap[a] {
      assert a in pending;
    }
    hide StringBlocks, Overwritten;
    TextFrame(v.heap, h, w);
    OverwrittenOthers(v, pending, k, w);
    TextsExtended(v.heap, h, v.index, k, e, w);
    assert v.index[k := e] == v.index;
  }

  lemma OverwrittenOthers(v: View, pending: set<Addr>, k: CStr, w: Val)
    requires Stored(v.heap, v.index, v.owner) && Accounted(v, pending)
    requires k in v.index && EntryFor(v.heap, k, v.index[k]) && StringInPlace(v.heap, w)
    ensures var h := Overwritten(v, k, w).heap;
      forall j :: j in v.index && j != k ==>
        && v.index[j] in v.heap && v.heap[v.index[j]].EntryCell? && v.index[j] in h && h[v.index[j]].EntryCell?
        && TextOf(h, h[v.index[j]].entry.val) == TextOf(v.heap, v.heap[v.index[j]].entry.val)
    ensures var e, h := v.index[k], Overwritten(v, k, w).heap;
      e in v.heap && v.heap[e].EntryCell? && e in h && h[e].EntryCell? && h[e].entry.val == w
  {
    hide HashOf, TextOf, EntryFor, StringInPlace, Reowned;
    var h := Overwritten(v, k, w).heap;
    AccountedDisjoint(v, pending);
    KeyFacts(v.heap, v.index, v.owner, k);
    hide StringBlocks, Accounted;
    forall j | j in v.index && j != k
      ensures && v.index[j] in v.heap && v.heap[v.index[j]].EntryCell? && v.index[j] in h && h[v.index[j]].EntryCell?
              && TextOf(h, h[v.index[j]].entry.val) == TextOf(v.heap, v.heap[v.index[j]].entry.val)
    {
      KeyTextFrame(v.heap, h, v.index, v.owner, j);
    }
  }

  lemma AppendedTexts(v: View, pending: set<Addr>, k: CStr, e: Addr, kb: Addr, w: Val)
    requires Accounted(v, pending) && Stored(v.heap, v.index, v.owner) && Appendable(v, k)
    requires e !in v.heap && kb !in v.heap && e != kb
    requires StringInPlace(v.heap, w) && StringBlocks(v.heap, w) <= pending
    ensures Texts(Appended(v, k, e, kb, w)) == Texts(v)[k := TextOf(v.heap, w)]
    ensures TextOf(Appended(v, k, e, kb, w).heap, w) == TextOf(v.heap, w)
  {
    hide Appended, Appendable, Reowned, Stored, TextsOf, TextOf, HashOf, StringInPlace, StringBlocks;
    AppendedEntry(v, k, e, kb, w);
    AppendedFields(v, k, e, kb, w);
    var h := Appended(v, k, e, kb, w).heap;
    AccountedDisjoint(v, pending);
    hide Accounted, Blocks, EntryFor;
    AppendedText(v, pending, k, e, kb, w);
    forall j | j in v.index
      ensures && v.index[j] in v.heap && v.heap[v.index[j]].EntryCell? && v.index[j] in h && h[v.index[j]].EntryCell?
              && TextOf(h, h[v.index[j]].entry.val) == TextOf(v.heap, v.heap[v.index[j]].entry.val)
    {
      KeyTextFrame(v.heap, h, v.index, v.owner, j);
    }
    TextsExtended(v.heap, h, v.index, k, e, w);
  }

  lemma AppendedText(v: View, pending: set<Addr>, k: CStr, e: Addr, kb: Addr, w: Val)
    requires Appendable(v, k) && e !in v.heap && kb !in v.heap && e != kb
    requires v.table !in pending && StringInPlace(v.heap, w) && StringBlocks(v.heap, w) <= pending
    ensures TextOf(Appended(v, k, e, kb, w).heap, w) == TextOf(v.heap, w)
  {
    hide Appendable, HashOf, TextOf;
    AppendedEntry(v, k, e, kb, w);
    hide Appended;
    var h := Appended(v, k, e, kb, w).heap;
    forall a | a in StringBlocks(v.heap, w) ensures a in h && h[a] == v.heap[a] {
      assert a in pending;
    }
    TextFrame(v.heap, h, w);
  }

  // Everything an append does.
  lemma AppendedAll(v: View, pending: set<Addr>, k: CStr, e: Addr, kb: Addr, w: Val)
    requires Consistent(v, pending) && k !in v.index && Bucket(|v.chains|, k) < |v.chains|
    requires e !in v.heap && kb !in v.heap && e != kb && e.offset != NIL
    requires StringInPlace(v.heap, w) && StringBlocks(v.heap, w) <= pending
    ensures Appendable(v, k)
    ensures var v' := Appended(v, k, e, kb, w);
      && Consistent(v', pending - StringBlocks(v.heap, w))
      && Contents(v') == Contents(v)[k := w]
      && Texts(v') == Texts(v)[k := TextOf(v.heap, w)]
      && StringInPlace(v'.heap, w) && TextOf(v'.heap, w) == TextOf(v.heap, w)
      && |v'.chains| == |v.chains|
      && v'.chains == v.chains[Bucket(|v.chains|, k) := v.chains[Bucket(|v.chains|, k)] + [e]]
      && v'.index == v.index[k := e] && v'.table == v.table && v'.size == v.size + 1
      && v'.heap.Keys == v.heap.Keys + {e, kb}
    ensures var i := Bucket(|v.chains|, k); var q := v.chains[i];
      && v.table in v.heap && v.heap[v.table].Table? && i < |v.heap[v.table].bulks| && v.table !in {e, kb}
      && v.heap[v.table].bulks[i] == (if q == [] then Bulk(NULL_ADDR, NULL_ADDR, 0) else Bulk(q[0], q[|q| - 1], |q|))
      && (q != [] ==> q[|q| - 1] in v.heap && q[|q| - 1] !in {e, kb} && v.heap[q[|q| - 1]].EntryCell?)
      && Appended(v, k, e, kb, w).heap == AppendedHeap(v.heap, v.table, i, q, k, e, kb, w)
  {
    ConsistentAppendable(v, pending, k);
    AppendedConsistent(v, pending, k, e, kb, w);
    AppendedTexts(v, pending, k, e, kb, w);
    AppendedFields(v, k, e, kb, w);
    hide Consistent, HashOf, Bucket, StringBlocks, StringInPlace, Contents, Texts, TextOf, AppendedHeap, Reowned;
    AppendBucket(v, pending, k);
  }

  lemma AppendBucket(v: View, pending: set<Addr>, k: CStr)
    requires Consistent(v, pending) && k !in v.index && Bucket(|v.chains|, k) < |v.chains|
    ensures var i := Bucket(|v.chains|, k);
      && v.table in v.heap && v.heap[v.table].Table? && i < |v.heap[v.table].bulks|
      && BulkSpells(v.heap[v.table].bulks[i], v.chains[i])
  {
  }

  // ----- blocks that come and go beside the map

  // The same map over a heap that has the same owned blocks and table, and other pending blocks.
  lemma PendingChanged(v: View, pending: set<Addr>, h: Heap, pending': set<Addr>)
    requires Consistent(v, pending)
    requires v.table in h && forall a :: a in v.owner || a == v.table ==> a in h && h[a] == v.heap[a]
    requires h.Keys == {v.table} + pending' + v.owner.Keys && v.table !in pending' && pending' !! v.owner.Keys
    ensures Consistent(v.(heap := h), pending')
    ensures Contents(v.(heap := h)) == Contents(v) && Texts(v.(heap := h)) == Texts(v)
  {
    hide HashOf, Bucket;
    AccountedDisjoint(v, pending);
    PendingLinks(v, h);
    PendingStored(v.heap, h, v.index, v.owner);
    AccountedIntro(v.(heap := h), pending');
  }

  lemma PendingLinks(v: View, h: Heap)
    requires Chained(v.heap, v.table, v.chains) && Indexed(v.index, v.chains, v.owner)
    requires v.table in h && forall a :: a in v.owner || a == v.table ==> a in h && a in v.heap && h[a] == v.heap[a]
    ensures Chained(h, v.table, v.chains)
  {
    hide HashOf, Bucket;
    forall i, j | 0 <= i < |v.chains| && 0 <= j < |v.chains[i]| ensures LinkSpells(h, v.chains[i], j) {
      assert LinkSpells(v.heap, v.chains[i], j);
      assert ChainedKey(v.index, v.owner, v.chains[i][j], i, |v.chains|);
    }
  }

  lemma PendingStored(heap: Heap, h: Heap, index: map<CStr, Addr>, owner: map<Addr, CStr>)
    requires Stored(heap, index, owner) && forall a :: a in owner ==> a in h && a in heap && h[a] == heap[a]
    ensures Stored(h, index, owner)
    ensures ContentsOf(h, index) == ContentsOf(heap, index) && TextsOf(h, index) == TextsOf(heap, index)
  {
    hide HashOf, TextOf, EntryFor, Blocks, StringBlocks, StringInPlace, Stored, OwnsBlocks;
    forall k | k in index
      ensures EntryFor(h, k, index[k]) && OwnsBlocks(h, index, owner, k)
      ensures index[k] in heap && heap[index[k]].EntryCell? && index[k] in h && h[index[k]] == heap[index[k]]
      ensures TextOf(h, h[index[k]].entry.val) == TextOf(heap, heap[index[k]].entry.val)
    {
      KeyFacts(heap, index, owner, k);
      PendingKey(heap, h, index, owner, k);
      KeyTextFrame(heap, h, index, owner, k);
    }
    StoredIntro(h, index, owner);
  }

  lemma StoredIntro(h: Heap, index: map<CStr, Addr>, owner: map<Addr, CStr>)
    requires forall k :: k in index ==> EntryFor(h, k, index[k]) && OwnsBlocks(h, index, owner, k)
    ensures Stored(h, index, owner)
  {
    hide EntryFor, OwnsBlocks;
  }

  lemma PendingKey(heap: Heap, h: Heap, index: map<CStr, Addr>, owner: map<Addr, CStr>, k: CStr)
    requires k in index && EntryFor(heap, k, index[k]) && OwnsBlocks(heap, index, owner, k)
    requires forall a :: a in owner ==> a in h && a in heap && h[a] == heap[a]
    ensures EntryFor(h, k, index[k]) && OwnsBlocks(h, index, owner, k)
  {
    hide EntryFor, Blocks;
    EntryForFrame(heap, h, k, index[k]);
  }

  // ----- the pending blocks

  predicate Keeps(h: Heap, h': Heap, s: set<Addr>) {
    forall a :: a in s ==> a in h && a in h' && h'[a] == h[a]
  }

  lemma OverwrittenKeeps(v: View, pending: set<Addr>, k: CStr, w: Val)
    requires Consistent(v, pending) && k in v.index && EntryFor(v.heap, k, v.index[k]) && StringInPlace(v.heap, w)
    ensures Keeps(v.heap, Overwritten(v, k, w).heap, pending)
  {
    hide HashOf, Chained, Indexed, Stored, Accounted, StringInPlace, Reowned;
    KeyFacts(v.heap, v.index, v.owner, k);
    AccountedDisjoint(v, pending);
    hide EntryFor, StringBlocks;
  }

  lemma AppendedKeeps(v: View, pending: set<Addr>, k: CStr, e: Addr, kb: Addr, w: Val)
    requires Consistent(v, pending) && Appendable(v, k) && StringInPlace(v.heap, w)
    requires e !in v.heap && kb !in v.heap && e != kb
    ensures Keeps(v.heap, Appended(v, k, e, kb, w).heap, pending)
  {
    hide HashOf, Bucket, Chained, Indexed, Stored, Accounted, StringInPlace, StringBlocks, Reowned, Keeps, AppendedHeap,
         ChainedKey;
    AccountedDisjoint(v, pending);
    var i := Bucket(|v.chains|, k);
    var q := v.chains[i];
    if q != [] { ChainedOwned(v.index, v.chains, v.owner, i, |q| - 1); }
    AppendedHeapKeeps(v.heap, v.table, i, q, k, e, kb, w, pending);
  }

  lemma ChainedOwned(index: map<CStr, Addr>, chains: seq<seq<Addr>>, owner: map<Addr, CStr>, i: nat, j: nat)
    requires Indexed(index, chains, owner) && i < |chains| && j < |chains[i]|
    ensures chains[i][j] in owner.Keys
  {
    hide HashOf, Bucket;
    assert ChainedKey(index, owner, chains[i][j], i, |chains|);
  }

  lemma AppendedHeapKeeps(heap: Heap, table: Addr, i: nat, q: seq<Addr>, k: CStr, e: Addr, kb: Addr, w: Val,
                          pending: set<Addr>)
    requires table in heap && heap[table].Table? && i < |heap[table].bulks|
    requires q != [] ==> q[|q| - 1] in heap && heap[q[|q| - 1]].EntryCell? && q[|q| - 1] !in pending
    requires e !in heap && kb !in heap && table !in pending && pending <= heap.Keys
    ensures Keeps(heap, AppendedHeap(heap, table, i, q, k, e, kb, w), pending)
  {
    hide HashOf;
  }

  // A string in kept blocks is in place, with the same blocks and text.
  lemma KeptString(h: Heap, h': Heap, s: set<Addr>, v: Val)
    requires Keeps(h, h', s) && StringInPlace(h, v) && StringBlocks(h, v) <= s
    ensures StringInPlace(h', v) && StringBlocks(h', v) == StringBlocks(h, v)
  {
    TextFrame(h, h', v);
  }

  // ----- counting blocks

  function Fiber(owner: map<Addr, CStr>, k: CStr): set<Addr> {
    set a | a in owner && owner[a] == k
  }

  // Two blocks of each key, and two more of each key in `strings`.
  lemma {:induction false} OwnedCount(owner: map<Addr, CStr>, keys: set<CStr>, strings: set<CStr>)
    requires forall k :: k in keys ==> |Fiber(owner, k)| == if k in strings then 4 else 2
    requires forall a :: a in owner ==> owner[a] in keys
    ensures |owner.Keys| == 2 * |keys| + 2 * |keys * strings|
    decreases |keys|
  {
    hide Fiber;
    if keys == {} {
      assert owner.Keys == {};
    } else {
      var k :| k in keys;
      FiberRemoved(owner, k);
      OwnedCount(owner - Fiber(owner, k), keys - {k}, strings);
      OneLess(keys, strings, k);
    }
  }

  lemma OneLess(keys: set<CStr>, strings: set<CStr>, k: CStr)
    requires k in keys
    ensures |keys| == |keys - {k}| + 1
    ensures |keys * strings| == |(keys - {k}) * strings| + if k in strings then 1 else 0
  {
    if k in strings { assert keys * strings == (keys - {k}) * strings + {k}; }
    else { assert keys * strings == (keys - {k}) * strings; }
  }

  lemma FiberRemoved(owner: map<Addr, CStr>, k: CStr)
    ensures var rest := owner - Fiber(owner, k);
      && |owner.Keys| == |rest.Keys| + |Fiber(owner, k)|
      && (forall a :: a in rest ==> a in owner && rest[a] == owner[a] && owner[a] != k)
      && (forall j :: j != k ==> Fiber(rest, j) == Fiber(owner, j))
  {
    var f := Fiber(owner, k);
    assert owner.Keys == (owner - f).Keys + f;
  }

  function StringKeys(contents: map<CStr, Val>): set<CStr> {
    set k | k in contents && contents[k].kind == StrVal
  }

  ghost predicate AllStrings(contents: map<CStr, Val>) {
    forall k :: k in contents ==> contents[k].kind == StrVal
  }

  lemma AllStringKeys(contents: map<CStr, Val>)
    requires AllStrings(contents)
    ensures StringKeys(contents) == contents.Keys
  {
  }

  // Beside the pending blocks there are one for the bucket array, two for each key and two more for each string.
  lemma BlocksPerKey(v: View, pending: set<Addr>)
    requires Consistent(v, pending)
    ensures |v.heap.Keys| == 1 + |pending| + 2 * |v.index.Keys| + 2 * |StringKeys(Contents(v))|
    ensures Contents(v).Keys == v.index.Keys
  {
    hide HashOf, Chained, Indexed, Stored, Accounted, ContentsOf, StringKeys, Fiber;
    AccountedDisjoint(v, pending);
    OwnedBlocks(v.heap, v.index, v.owner, Contents(v));
    PartsCount(v.heap.Keys, v.table, pending, v.owner.Keys);
  }

  lemma PartsCount(h: set<Addr>, t: Addr, p: set<Addr>, o: set<Addr>)
    requires h == {t} + p + o && t !in p && t !in o && p !! o
    ensures |h| == 1 + |p| + |o|
  {
  }

  // A map of strings holds one block for the bucket array and four for each key, and no other.
  lemma FourBlocksPerKey(v: View)
    requires Consistent(v, {}) && AllStrings(Contents(v))
    ensures |v.heap.Keys| == 1 + 4 * |v.index.Keys|
  {
    hide *;
    BlocksPerKey(v, {});
    AllStringKeys(Contents(v));
  }

  lemma OwnedBlocks(heap: Heap, index: map<CStr, Addr>, owner: map<Addr, CStr>, contents: map<CStr, Val>)
    requires Stored(heap, index, owner) && contents == ContentsOf(heap, index)
    requires forall a :: a in owner.Keys ==> owner[a] in index.Keys
    ensures contents.Keys == index.Keys && |owner.Keys| == 2 * |index.Keys| + 2 * |StringKeys(contents)|
  {
    hide Stored, ContentsOf, Fiber, StringKeys;
    forall k | k in index
      ensures k in contents && |Fiber(owner, k)| == if k in StringKeys(contents) then 4 else 2
    {
      KeyBlocks(heap, index, owner, k, contents);
    }
    StringKeysIn(heap, index, contents);
    OwnedCount(owner, index.Keys, StringKeys(contents));
  }

  lemma StringKeysIn(heap: Heap, index: map<CStr, Addr>, contents: map<CStr, Val>)
    requires contents == ContentsOf(heap, index)
    ensures contents.Keys <= index.Keys && index.Keys * StringKeys(contents) == StringKeys(contents)
  {
  }

  lemma KeyBlocks(heap: Heap, index: map<CStr, Addr>, owner: map<Addr, CStr>, k: CStr, contents: map<CStr, Val>)
    requires Stored(heap, index, owner) && k in index && contents == ContentsOf(heap, index)
    ensures k in contents && |Fiber(owner, k)| == if k in StringKeys(contents) then 4 else 2
  {
    hide HashOf, Stored;
    KeyFacts(heap, index, owner, k);
    var e := index[k];
    var n := heap[e].entry;
    assert k in contents && contents[k] == n.val;
    assert Fiber(owner, k) == Blocks(heap, k, e);
    if n.val.kind == StrVal {
      assert Blocks(heap, k, e) == {e, n.key, n.val.value, heap[n.val.value].data};
    } else {
      assert Blocks(heap, k, e) == {e, n.key};
    }
  }

  // ----- the lengths of the chains

  function TotalLength(chains: seq<seq<Addr>>): nat {
    if chains == [] then 0 else TotalLength(chains[..|chains| - 1]) + |chains[|chains| - 1]|
  }

  // The keys of the first entries of a chain.
  function KeysOf(owner: map<Addr, CStr>, q: seq<Addr>): set<CStr> {
    set e | e in q && e in owner :: owner[e]
  }

  lemma {:induction false} KeysOfChain(index: map<CStr, Addr>, owner: map<Addr, CStr>, q: seq<Addr>)
    requires NoDuplicates(q)
    requires forall m :: 0 <= m < |q| ==> q[m] in owner && owner[q[m]] in index && index[owner[q[m]]] == q[m]
    ensures |KeysOf(owner, q)| == |q|
  {
    if q != [] {
      var n := |q| - 1;
      KeysOfChain(index, owner, q[..n]);
      assert q == q[..n] + [q[n]];
      assert KeysOf(owner, q) == KeysOf(owner, q[..n]) + {owner[q[n]]};
      assert owner[q[n]] !in KeysOf(owner, q[..n]) by {
        forall m | 0 <= m < n ensures owner[q[m]] != owner[q[n]] { assert index[owner[q[m]]] == q[m]; }
      }
    }
  }

  lemma KeysAt(index: map<CStr, Addr>, chains: seq<seq<Addr>>, owner: map<Addr, CStr>, i: nat)
    requires Indexed(index, chains, owner) && i < |chains|
    requires forall k :: k in index ==> index[k] in owner && owner[index[k]] == k
    ensures |set k | k in index && Bucket(|chains|, k) == i| == |chains[i]|
  {
    hide HashOf, Bucket;
    var q := chains[i];
    forall m | 0 <= m < |q|
      ensures q[m] in owner && owner[q[m]] in index && index[owner[q[m]]] == q[m] && Bucket(|chains|, owner[q[m]]) == i
    {
      assert ChainedKey(index, owner, chains[i][m], i, |chains|);
    }
    KeysOfChain(index, owner, q);
    assert (set k | k in index && Bucket(|chains|, k) == i) == KeysOf(owner, q) by {
      forall k | k in index && Bucket(|chains|, k) == i ensures k in KeysOf(owner, q) {
        assert index[k] in q && owner[index[k]] == k;
      }
    }
  }

  // The keys of the buckets below n are as many as those buckets' entries.
  lemma {:induction false} KeysBelow(index: map<CStr, Addr>, chains: seq<seq<Addr>>, owner: map<Addr, CStr>, n: nat)
    requires Indexed(index, chains, owner) && n <= |chains|
    requires forall k :: k in index ==> index[k] in owner && owner[index[k]] == k
    ensures |set k | k in index && Bucket(|chains|, k) < n| == TotalLength(chains[..n])
    decreases n
  {
    hide HashOf, Bucket, Indexed;
    var below := set k | k in index && Bucket(|chains|, k) < n;
    if n == 0 {
      assert below == {};
    } else {
      KeysBelow(index, chains, owner, n - 1);
      KeysAt(index, chains, owner, n - 1);
      var a, b := set k | k in index && Bucket(|chains|, k) < n - 1, set k | k in index && Bucket(|chains|, k) == n - 1;
      assert below == a + b && a !! b;
      assert chains[..n][..n - 1] == chains[..n - 1];
    }
  }

  // A bucket has its chain's ends and length, and the entries are linked both ways in its order; a link to
  // nothing is pool -1, offset 0.
  lemma BucketLinks(v: View, pending: set<Addr>, i: nat, j: nat)
    requires Consistent(v, pending) && i < |v.chains|
    ensures v.table in v.heap && v.heap[v.table].Table? && i < |v.heap[v.table].bulks|
    ensures var q := v.chains[i];
      v.heap[v.table].bulks[i]
      == if q == [] then Bulk(Addr(-1, 0), Addr(-1, 0), 0) else Bulk(q[0], q[|q| - 1], |q|)
    ensures j < |v.chains[i]| ==>
      var q := v.chains[i];
      && q[j] in v.heap && v.heap[q[j]].EntryCell?
      && v.heap[q[j]].entry.next == (if j + 1 < |q| then q[j + 1] else Addr(-1, 0))
      && v.heap[q[j]].entry.prev == (if j > 0 then q[j - 1] else Addr(-1, 0))
  {
    hide HashOf, Bucket, Stored, Accounted, Indexed;
    assert BulkSpells(v.heap[v.table].bulks[i], v.chains[i]);
    if j < |v.chains[i]| { assert LinkSpells(v.heap, v.chains[i], j); }
  }

  // Bucket sizes sum to the map's size.
  lemma BucketSizesSum(v: View, pending: set<Addr>)
    requires Consistent(v, pending)
    ensures v.table in v.heap && v.heap[v.table].Table? && |v.heap[v.table].bulks| == |v.chains|
    ensures forall i :: 0 <= i < |v.chains| ==> v.heap[v.table].bulks[i].size == |v.chains[i]|
    ensures TotalLength(v.chains) == v.size
  {
    hide HashOf, Bucket, Stored, Accounted, Indexed;
    forall i | 0 <= i < |v.chains| ensures v.heap[v.table].bulks[i].size == |v.chains[i]| {
      assert BulkSpells(v.heap[v.table].bulks[i], v.chains[i]);
    }
    ChainLengthsSum(v.heap, v.index, v.chains, v.owner);
    AccountedDisjoint(v, pending);
  }

  lemma ChainLengthsSum(heap: Heap, index: map<CStr, Addr>, chains: seq<seq<Addr>>, owner: map<Addr, CStr>)
    requires Indexed(index, chains, owner) && Stored(heap, index, owner)
    ensures TotalLength(chains) == |index.Keys|
  {
    hide HashOf, Bucket;
    forall k | k in index ensures index[k] in owner && owner[index[k]] == k {
      KeyFacts(heap, index, owner, k);
    }
    hide Stored;
    KeysBelow(index, chains, owner, |chains|);
    assert chains[..|chains|] == chains;
    assert (set k | k in index && Bucket(|chains|, k) < |chains|) == index.Keys;
  }
}
