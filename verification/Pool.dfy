/** The shared-memory pool of src/touchdb_pool.c: a bump offset plus one FIFO free list per block class,
    doubly linked through the headers of the freed blocks themselves. */
module Pool {
  import opened Values
  import opened Sequences
  import opened PoolSpec

  // A free list record; header and tail are header offsets, NIL when the list is empty.
  datatype FreeList = FreeList(header: nat, tail: nat, size: nat)

  // Byte positions of the integers of a block header: next offset, previous offset, class.
  const NEXT: nat := 0
  const PREV: nat := 4
  const IDX: nat := 8

  // ptr_offset arithmetic is unsigned and 32 bits wide.
  const UINT_RANGE: nat := 0x1_0000_0000

  // The carved blocks by header offset, without overlap.
  ghost predicate Apart(cls: map<nat, nat>) {
    forall g, h :: g in cls && h in cls && g < h ==> g + BlkSize(cls[g]) <= h
  }

  ghost predicate Placed(carved: seq<Block>, cls: map<nat, nat>, cur: nat) {
    && (forall h, i :: Block(h, i) in carved <==> h in cls && cls[h] == i)
    && (forall h :: h in cls ==> cls[h] < FREE_LIST_COUNT && 1 <= h && h + BlkSize(cls[h]) <= cur)
    && Apart(cls)
  }

  ghost predicate Laid(carved: seq<Block>, cls: map<nat, nat>, cur: nat) {
    Tiled(carved, cur) && Placed(carved, cls, cur)
  }

  // Only blocks of class i wait in queue i.
  ghost predicate Queued(cls: map<nat, nat>, queues: seq<seq<nat>>) {
    && |queues| == FREE_LIST_COUNT
    && (forall i, j :: 0 <= i < FREE_LIST_COUNT && 0 <= j < |queues[i]| ==>
          queues[i][j] in cls && cls[queues[i][j]] == i)
  }

  // Every carved block is either live or waits once in the queue of its own class.
  ghost predicate Parted(cls: map<nat, nat>, live: set<nat>, queues: seq<seq<nat>>) {
    && Queued(cls, queues)
    && (forall h :: h in cls ==> cls[h] < FREE_LIST_COUNT)
    && live <= cls.Keys
    && (forall h :: h in cls ==> (h in live) != (h in queues[cls[h]]))
    && (forall i :: 0 <= i < FREE_LIST_COUNT ==> NoDuplicates(queues[i]))
  }

  // The memory and the list records spell the queues: forward through the next offsets, backward through
  // the previous offsets, with the class of every block in its header.
  ghost predicate Linked(mem: seq<int>, lists: seq<FreeList>, cls: map<nat, nat>, queues: seq<seq<nat>>) {
    && |mem| == POOL_SIZE && |lists| == |queues| == FREE_LIST_COUNT
    && (forall h :: h in cls ==> h + BLK_HDR_SIZE <= POOL_SIZE && mem[h + IDX] == cls[h])
    && (forall i :: 0 <= i < FREE_LIST_COUNT ==> ListSpells(lists[i], queues[i]))
    && (forall i, j :: 0 <= i < FREE_LIST_COUNT && 0 <= j < |queues[i]| ==> Spells(mem, queues[i], j))
  }

  ghost predicate ListSpells(list: FreeList, q: seq<nat>) {
    list == if q == [] then FreeList(NIL, NIL, 0) else FreeList(q[0], q[|q| - 1], |q|)
  }

  ghost predicate Spells(mem: seq<int>, q: seq<nat>, j: nat)
    requires j < |q|
  {
    && q[j] + BLK_HDR_SIZE <= |mem|
    && mem[q[j] + NEXT] == (if j + 1 < |q| then q[j + 1] else NIL)
    && mem[q[j] + PREV] == (if j > 0 then q[j - 1] else NIL)
  }

  ghost predicate Counted(carved: seq<Block>, live: set<nat>, queues: seq<seq<nat>>, peak: seq<nat>) {
    && |queues| == |peak| == FREE_LIST_COUNT
    && (forall i :: 0 <= i < FREE_LIST_COUNT ==>
          peak[i] == CountIn(carved, i) && CountIn(carved, i) == CountLive(carved, live, i) + |queues[i]|)
  }

  // The whole invariant of a pool, on its contents and bookkeeping.
  ghost predicate Consistent(mem: seq<int>, lists: seq<FreeList>, cur: nat, carved: seq<Block>, cls: map<nat, nat>,
                             live: set<nat>, queues: seq<seq<nat>>, peak: seq<nat>) {
    && cur <= POOL_SIZE
    && Laid(carved, cls, cur)
    && Parted(cls, live, queues)
    && Counted(carved, live, queues, peak)
    && Linked(mem, lists, cls, queues)
  }

  lemma ConsistentBounds(mem: seq<int>, lists: seq<FreeList>, cur: nat, carved: seq<Block>, cls: map<nat, nat>,
                         live: set<nat>, queues: seq<seq<nat>>, peak: seq<nat>)
    requires Consistent(mem, lists, cur, carved, cls, live, queues, peak)
    ensures 1 <= cur <= POOL_SIZE == |mem| && |lists| == |queues| == |peak| == FREE_LIST_COUNT
    ensures live <= cls.Keys
    ensures forall h :: h in cls ==> 1 <= h && h + BlkSize(cls[h]) <= cur
  {
  }

  lemma ConsistentApart(mem: seq<int>, lists: seq<FreeList>, cur: nat, carved: seq<Block>, cls: map<nat, nat>,
                        live: set<nat>, queues: seq<seq<nat>>, peak: seq<nat>)
    requires Consistent(mem, lists, cur, carved, cls, live, queues, peak)
    ensures Apart(cls)
  {
  }

  lemma ConsistentLists(mem: seq<int>, lists: seq<FreeList>, cur: nat, carved: seq<Block>, cls: map<nat, nat>,
                        live: set<nat>, queues: seq<seq<nat>>, peak: seq<nat>, idx: nat)
    requires Consistent(mem, lists, cur, carved, cls, live, queues, peak) && idx < FREE_LIST_COUNT
    ensures lists[idx].size == |queues[idx]|
  {
    assert ListSpells(lists[idx], queues[idx]);
  }

  function Max(a: nat, b: nat): nat {
    if a < b then b else a
  }

  // ----- a block is carved

  lemma TiledAfterCarving(carved: seq<Block>, cur: nat, idx: nat)
    requires Tiled(carved, cur)
    ensures Tiled(carved + [Block(cur, idx)], cur + BlkSize(idx))
  {
    var carved' := carved + [Block(cur, idx)];
    assert carved'[..|carved|] == carved;
    forall k | 0 <= k < |carved'| ensures Abuts(carved', k) {
      assert k < |carved| ==> carved'[..k] == carved[..k] && Abuts(carved, k);
    }
  }

  lemma PlacedAfterCarving(carved: seq<Block>, cls: map<nat, nat>, cur: nat, idx: nat)
    requires Placed(carved, cls, cur) && idx < FREE_LIST_COUNT && 1 <= cur
    ensures cur !in cls
    ensures Placed(carved + [Block(cur, idx)], cls[cur := idx], cur + BlkSize(idx))
  {
  }

  lemma PartedAfterCarving(cls: map<nat, nat>, live: set<nat>, queues: seq<seq<nat>>, h: nat, idx: nat)
    requires Parted(cls, live, queues) && h !in cls && idx < FREE_LIST_COUNT
    ensures h !in live
    ensures Parted(cls[h := idx], live + {h}, queues)
  {
    assert forall j :: 0 <= j < |queues[idx]| ==> queues[idx][j] != h;
  }

  lemma CountedAfterCarving(carved: seq<Block>, cur: nat, live: set<nat>,
                            queues: seq<seq<nat>>, peak: seq<nat>, idx: nat)
    requires Counted(carved, live, queues, peak) && forall b :: b in carved ==> b.at != cur
    requires idx < FREE_LIST_COUNT && queues[idx] == []
    ensures var carved', live' := carved + [Block(cur, idx)], live + {cur};
      Counted(carved', live', queues, peak[idx := Max(peak[idx], CountLive(carved', live', idx))])
  {
    var carved', live' := carved + [Block(cur, idx)], live + {cur};
    assert carved'[..|carved|] == carved;
    forall i | 0 <= i < FREE_LIST_COUNT
      ensures CountLive(carved', live', i) == CountLive(carved, live, i) + if i == idx then 1 else 0
    {
      CountLiveSame(carved, live, live', i);
    }
  }

  lemma LinkedAfterCarving(mem: seq<int>, lists: seq<FreeList>, cls: map<nat, nat>, queues: seq<seq<nat>>,
                           cur: nat, idx: nat)
    requires Queued(cls, queues) && Linked(mem, lists, cls, queues)
    requires cur + BLK_HDR_SIZE <= POOL_SIZE && forall h :: h in cls ==> h + BLK_HDR_SIZE <= cur
    ensures Linked(mem[cur + IDX := idx], lists, cls[cur := idx], queues)
  {
    var mem' := mem[cur + IDX := idx];
    forall i, j | 0 <= i < FREE_LIST_COUNT && 0 <= j < |queues[i]| ensures Spells(mem', queues[i], j) {
      assert Spells(mem, queues[i], j);
      assert queues[i][j] in cls;
    }
  }

  lemma ConsistentAfterCarving(mem: seq<int>, lists: seq<FreeList>, cur: nat, carved: seq<Block>, cls: map<nat, nat>,
                               live: set<nat>, queues: seq<seq<nat>>, peak: seq<nat>, idx: nat)
    requires Consistent(mem, lists, cur, carved, cls, live, queues, peak)
    requires idx < FREE_LIST_COUNT && queues[idx] == [] && cur + BlkSize(idx) <= POOL_SIZE
    ensures cur !in cls && cur !in live
    ensures var carved', live' := carved + [Block(cur, idx)], live + {cur};
      Consistent(mem[cur + IDX := idx], lists, cur + BlkSize(idx), carved', cls[cur := idx], live', queues,
                 peak[idx := Max(peak[idx], CountLive(carved', live', idx))])
  {
    TiledAfterCarving(carved, cur, idx);
    PlacedAfterCarving(carved, cls, cur, idx);
    PartedAfterCarving(cls, live, queues, cur, idx);
    assert forall b :: b in carved ==> b == Block(b.at, b.idx) && b.at != cur;
    CountedAfterCarving(carved, cur, live, queues, peak, idx);
    LinkedAfterCarving(mem, lists, cls, queues, cur, idx);
  }

  // ----- the oldest free block is taken

  lemma PartedAfterTaking(cls: map<nat, nat>, live: set<nat>, queues: seq<seq<nat>>, idx: nat)
    requires Parted(cls, live, queues) && idx < FREE_LIST_COUNT && queues[idx] != []
    ensures var h := queues[idx][0];
      && h in cls && h !in live
      && Parted(cls, live + {h}, queues[idx := queues[idx][1..]])
  {
    var h, queues' := queues[idx][0], queues[idx := queues[idx][1..]];
    assert h in queues[idx] && cls[h] == idx;
    forall g | g in cls && g != h ensures g in queues'[cls[g]] <==> g in queues[cls[g]] {
      assert queues[idx] == [h] + queues[idx][1..];
    }
  }

  // The header fields of different blocks do not overlap.
  lemma HeaderCellsApart(cls: map<nat, nat>, g: nat, h: nat)
    requires Apart(cls) && g in cls && h in cls && g != h
    ensures g + BLK_HDR_SIZE <= h || h + BLK_HDR_SIZE <= g
  {
    assert g < h || h < g;
  }

  // Position o lies in the payload of block h.
  ghost predicate InPayload(cls: map<nat, nat>, h: nat, o: nat) {
    h in cls && h + BLK_HDR_SIZE <= o < h + BlkSize(cls[h])
  }

  lemma HeaderOutsidePayloads(cls: map<nat, nat>, g: nat)
    requires Apart(cls) && g in cls
    ensures forall h: nat, o: nat :: InPayload(cls, h, o) ==> !(g <= o < g + BLK_HDR_SIZE)
  {
  }

  lemma QueuedAt(cls: map<nat, nat>, queues: seq<seq<nat>>, i: nat, j: nat)
    requires Queued(cls, queues) && i < FREE_LIST_COUNT && j < |queues[i]|
    ensures queues[i][j] in cls && cls[queues[i][j]] == i
  {
  }

  // Writing the previous offset of block g leaves the links of any other block alone.
  lemma SpellsElsewhere(mem: seq<int>, mem': seq<int>, cls: map<nat, nat>, q: seq<nat>, j: nat, g: nat)
    requires Apart(cls) && j < |q| && q[j] in cls && g in cls && q[j] != g && Spells(mem, q, j)
    requires |mem'| == |mem| && forall o :: 0 <= o < |mem| && !(g <= o < g + BLK_HDR_SIZE) ==> mem'[o] == mem[o]
    ensures Spells(mem', q, j)
  {
    HeaderCellsApart(cls, g, q[j]);
  }

  lemma ClassesElsewhere(mem: seq<int>, mem': seq<int>, cls: map<nat, nat>, g: nat)
    requires Apart(cls) && g in cls && |mem'| == |mem| == POOL_SIZE
    requires forall h :: h in cls ==> h + BLK_HDR_SIZE <= POOL_SIZE && mem[h + IDX] == cls[h]
    requires forall o :: 0 <= o < |mem| && !(g <= o < g + IDX) ==> mem'[o] == mem[o]
    ensures forall h :: h in cls ==> mem'[h + IDX] == cls[h]
  {
    forall h | h in cls ensures mem'[h + IDX] == cls[h] {
      if h != g { HeaderCellsApart(cls, g, h); }
    }
  }

  function TakenMemory(mem: seq<int>, q: seq<nat>): seq<int> {
    if |q| > 1 && q[1] + PREV < |mem| then mem[q[1] + PREV := NIL] else mem
  }

  // No payload is written.
  lemma PayloadsAfterTaking(mem: seq<int>, cls: map<nat, nat>, q: seq<nat>)
    requires Apart(cls) && (|q| > 1 ==> q[1] in cls && q[1] + BLK_HDR_SIZE <= |mem|)
    ensures |TakenMemory(mem, q)| == |mem|
    ensures forall g: nat, o: nat :: InPayload(cls, g, o) && o < |mem| ==> TakenMemory(mem, q)[o] == mem[o]
  {
    if |q| > 1 { HeaderOutsidePayloads(cls, q[1]); }
  }

  function TakenList(list: FreeList, q: seq<nat>): FreeList
    requires q != []
  {
    FreeList(if |q| > 1 then q[1] else NIL, if |q| > 1 then list.tail else NIL, |q| - 1)
  }

  lemma SpellsAfterTaking(mem: seq<int>, cls: map<nat, nat>, queues: seq<seq<nat>>, idx: nat, i: nat, j: nat)
    requires Queued(cls, queues) && Apart(cls) && idx < FREE_LIST_COUNT && i < FREE_LIST_COUNT
    requires queues[idx] != [] && NoDuplicates(queues[idx])
    requires var j' := if i == idx then j + 1 else j; j' < |queues[i]| && Spells(mem, queues[i], j')
    ensures Spells(TakenMemory(mem, queues[idx]), if i == idx then queues[i][1..] else queues[i], j)
  {
    assert |queues| == FREE_LIST_COUNT;
    hide Apart, Queued;
    var q := queues[idx];
    var j' := if i == idx then j + 1 else j;
    QueuedAt(cls, queues, i, j');
    if |q| > 1 {
      QueuedAt(cls, queues, idx, 1);
      if queues[i][j'] != q[1] {
        SpellsElsewhere(mem, TakenMemory(mem, q), cls, queues[i], j', q[1]);
      }
    }
  }

  // The list and the memory after the first block of a queue is unlinked (touchdb_pool.c:90-99).
  lemma LinkedAfterTaking(mem: seq<int>, lists: seq<FreeList>, cls: map<nat, nat>, queues: seq<seq<nat>>, idx: nat)
    requires Queued(cls, queues) && Linked(mem, lists, cls, queues) && Apart(cls)
    requires idx < FREE_LIST_COUNT && queues[idx] != [] && NoDuplicates(queues[idx])
    ensures var q := queues[idx];
      && q[0] in cls && mem[q[0] + NEXT] == (if |q| > 1 then q[1] else NIL)
      && (|q| > 1 ==> q[1] in cls && q[1] + BLK_HDR_SIZE <= POOL_SIZE)
      && Linked(TakenMemory(mem, q), lists[idx := TakenList(lists[idx], q)], cls, queues[idx := q[1..]])
  {
    LinkedParts(mem, lists, cls, queues);
    hide Linked, Apart, Queued, NoDuplicates, TakenMemory, TakenList;
    var q := queues[idx];
    assert Spells(mem, q, 0) && ListSpells(lists[idx], q);
    hide Spells, ListSpells;
    QueuedAt(cls, queues, idx, 0);
    ListAfterTaking(lists[idx], q);
    var lists', queues' := lists[idx := TakenList(lists[idx], q)], queues[idx := q[1..]];
    ListsSpell(lists, queues, idx, lists', queues');
    ClassesAfterTaking(mem, cls, queues, idx);
    LinksAfterTaking(mem, cls, queues, idx);
    LinkedWhole(TakenMemory(mem, q), lists', cls, queues');
  }

  lemma ListAfterTaking(list: FreeList, q: seq<nat>)
    requires q != [] && ListSpells(list, q)
    ensures ListSpells(TakenList(list, q), q[1..])
  {
  }

  lemma LinksAfterTaking(mem: seq<int>, cls: map<nat, nat>, queues: seq<seq<nat>>, idx: nat)
    requires Queued(cls, queues) && Apart(cls) && |queues| == FREE_LIST_COUNT
    requires idx < FREE_LIST_COUNT && queues[idx] != [] && NoDuplicates(queues[idx])
    requires forall i, j :: 0 <= i < FREE_LIST_COUNT && 0 <= j < |queues[i]| ==> Spells(mem, queues[i], j)
    ensures var q := queues[idx]; var queues' := queues[idx := q[1..]];
      forall i, j :: 0 <= i < FREE_LIST_COUNT && 0 <= j < |queues'[i]| ==> Spells(TakenMemory(mem, q), queues'[i], j)
  {
    hide Apart, Queued, NoDuplicates, TakenMemory, Spells;
    var q := queues[idx];
    var queues' := queues[idx := q[1..]];
    forall i, j | 0 <= i < FREE_LIST_COUNT && 0 <= j < |queues'[i]| ensures Spells(TakenMemory(mem, q), queues'[i], j) {
      assert Spells(mem, queues[i], if i == idx then j + 1 else j);
      SpellsAfterTaking(mem, cls, queues, idx, i, j);
    }
  }

  lemma ClassesAfterTaking(mem: seq<int>, cls: map<nat, nat>, queues: seq<seq<nat>>, idx: nat)
    requires Queued(cls, queues) && Apart(cls) && |mem| == POOL_SIZE && |queues| == FREE_LIST_COUNT
    requires idx < FREE_LIST_COUNT && queues[idx] != []
    requires forall h :: h in cls ==> h + BLK_HDR_SIZE <= POOL_SIZE && mem[h + IDX] == cls[h]
    ensures var q := queues[idx];
      && |TakenMemory(mem, q)| == POOL_SIZE && (|q| > 1 ==> q[1] in cls)
      && forall h :: h in cls ==> TakenMemory(mem, q)[h + IDX] == cls[h]
  {
    hide Apart, Queued;
    var q := queues[idx];
    if |q| > 1 {
      QueuedAt(cls, queues, idx, 1);
      ClassesElsewhere(mem, TakenMemory(mem, q), cls, q[1]);
    }
  }

  lemma ConsistentAfterTaking(mem: seq<int>, lists: seq<FreeList>, cur: nat, carved: seq<Block>, cls: map<nat, nat>,
                              live: set<nat>, queues: seq<seq<nat>>, peak: seq<nat>, idx: nat)
    requires Consistent(mem, lists, cur, carved, cls, live, queues, peak)
    requires idx < FREE_LIST_COUNT && queues[idx] != []
    ensures var q := queues[idx];
      && q[0] in cls && cls[q[0]] == idx && q[0] !in live && lists[idx] == FreeList(q[0], q[|q| - 1], |q|)
      && mem[q[0] + NEXT] == (if |q| > 1 then q[1] else NIL)
      && (|q| > 1 ==> q[1] in cls && q[1] + BLK_HDR_SIZE <= POOL_SIZE)
      && var live' := live + {q[0]};
      Consistent(TakenMemory(mem, q), lists[idx := TakenList(lists[idx], q)], cur, carved, cls, live',
                 queues[idx := q[1..]],
                 peak[idx := Max(peak[idx], CountLive(carved, live', idx))])
  {
    PartedAfterTaking(cls, live, queues, idx);
    CountedAfterTaking(carved, cur, live, queues, peak, idx);
    LinkedAfterTaking(mem, lists, cls, queues, idx);
    assert ListSpells(lists[idx], queues[idx]);
  }

  lemma CountLiveGrowsAt(carved: seq<Block>, cur: nat, live: set<nat>, b: Block)
    requires Tiled(carved, cur) && b in carved && b.at !in live
    ensures forall i: nat :: CountLive(carved, live + {b.at}, i)
                             == CountLive(carved, live, i) + if i == b.idx then 1 else 0
  {
    var k :| 0 <= k < |carved| && carved[k] == b;
    forall i, j | 0 <= i < j < |carved| ensures carved[i].at != carved[j].at {
      TiledDisjoint(carved, cur, i, j);
    }
    forall i: nat {
      CountLiveGrows(carved, live, k, i);
    }
  }

  lemma CountedAfterTaking(carved: seq<Block>, cur: nat, live: set<nat>,
                           queues: seq<seq<nat>>, peak: seq<nat>, idx: nat)
    requires Tiled(carved, cur) && Counted(carved, live, queues, peak)
    requires idx < FREE_LIST_COUNT && queues[idx] != []
    requires Block(queues[idx][0], idx) in carved && queues[idx][0] !in live
    ensures var live' := live + {queues[idx][0]};
      Counted(carved, live', queues[idx := queues[idx][1..]],
              peak[idx := Max(peak[idx], CountLive(carved, live', idx))])
  {
    CountLiveGrowsAt(carved, cur, live, Block(queues[idx][0], idx));
  }

  // ----- a live block is given back

  lemma PartedAfterFreeing(cls: map<nat, nat>, live: set<nat>, queues: seq<seq<nat>>, h: nat)
    requires Parted(cls, live, queues) && h in live
    ensures Parted(cls, live - {h}, queues[cls[h] := queues[cls[h]] + [h]])
  {
  }

  lemma CountedAfterFreeing(carved: seq<Block>, cur: nat, live: set<nat>,
                            queues: seq<seq<nat>>, peak: seq<nat>, b: Block)
    requires Tiled(carved, cur) && Counted(carved, live, queues, peak)
    requires b in carved && b.idx < FREE_LIST_COUNT && b.at in live
    ensures var live' := live - {b.at};
      && Counted(carved, live', queues[b.idx := queues[b.idx] + [b.at]], peak)
      && (forall i :: 0 <= i < FREE_LIST_COUNT ==> CountLive(carved, live', i) <= peak[i])
  {
    var live' := live - {b.at};
    assert live' + {b.at} == live;
    CountLiveGrowsAt(carved, cur, live', b);
  }

  function FreedMemory(mem: seq<int>, q: seq<nat>, h: nat): seq<int>
    requires h + BLK_HDR_SIZE <= |mem| && (q != [] ==> q[|q| - 1] + BLK_HDR_SIZE <= |mem|)
  {
    if q == [] then mem[h + PREV := NIL][h + NEXT := NIL]
    else mem[h + PREV := q[|q| - 1]][q[|q| - 1] + NEXT := h][h + NEXT := NIL]
  }

  // Only the headers of h and of the old last block change, each in one place but for h.
  lemma FreedMemoryCells(mem: seq<int>, q: seq<nat>, h: nat)
    requires h + BLK_HDR_SIZE <= |mem|
    requires q != [] ==> q[|q| - 1] + BLK_HDR_SIZE <= |mem|
    requires q != [] ==> q[|q| - 1] + BLK_HDR_SIZE <= h || h + BLK_HDR_SIZE <= q[|q| - 1]
    ensures var mem' := FreedMemory(mem, q, h);
      && |mem'| == |mem| && mem'[h + NEXT] == NIL && mem'[h + PREV] == (if q == [] then NIL else q[|q| - 1])
      && (q != [] ==> mem'[q[|q| - 1] + NEXT] == h)
      && forall o :: 0 <= o < |mem| && o != h + NEXT && o != h + PREV && (q != [] ==> o != q[|q| - 1] + NEXT) ==>
           mem'[o] == mem[o]
  {
  }

  // No payload is written.
  lemma PayloadsAfterFreeing(mem: seq<int>, cls: map<nat, nat>, q: seq<nat>, h: nat)
    requires Apart(cls) && h in cls && h + BLK_HDR_SIZE <= |mem|
    requires q != [] ==> q[|q| - 1] in cls && q[|q| - 1] + BLK_HDR_SIZE <= |mem|
    ensures |FreedMemory(mem, q, h)| == |mem|
    ensures forall g: nat, o: nat :: InPayload(cls, g, o) && o < |mem| ==> FreedMemory(mem, q, h)[o] == mem[o]
  {
    HeaderOutsidePayloads(cls, h);
    if q != [] { HeaderOutsidePayloads(cls, q[|q| - 1]); }
  }

  lemma SpellsAfterFreeing(mem: seq<int>, cls: map<nat, nat>, queues: seq<seq<nat>>, h: nat, i: nat, j: nat)
    requires Queued(cls, queues) && Apart(cls) && i < FREE_LIST_COUNT && j < |queues[i]|
    requires h in cls && cls[h] < FREE_LIST_COUNT && queues[i][j] != h && h !in queues[cls[h]]
    requires NoDuplicates(queues[cls[h]]) && h + BLK_HDR_SIZE <= |mem| && Spells(mem, queues[i], j)
    requires var q := queues[cls[h]]; q != [] ==> q[|q| - 1] + BLK_HDR_SIZE <= |mem|
    ensures Spells(FreedMemory(mem, queues[cls[h]], h), if i == cls[h] then queues[i] + [h] else queues[i], j)
  {
    hide Apart, Queued, NoDuplicates, FreedMemory;
    QueuesLong(cls, queues);
    var q, g := queues[cls[h]], queues[i][j];
    QueuedAt(cls, queues, i, j);
    HeaderCellsApart(cls, g, h);
    if q != [] {
      var last := q[|q| - 1];
      QueuedAt(cls, queues, cls[h], |q| - 1);
      HeaderCellsApart(cls, last, h);
      if g != last { HeaderCellsApart(cls, g, last); } else { OnlyLast(q, j); }
    }
    FreedMemoryCells(mem, q, h);
  }

  lemma QueuesLong(cls: map<nat, nat>, queues: seq<seq<nat>>)
    requires Queued(cls, queues)
    ensures |queues| == FREE_LIST_COUNT
  {
  }

  lemma OnlyLast(q: seq<nat>, j: nat)
    requires NoDuplicates(q) && j < |q| && q[j] == q[|q| - 1]
    ensures j == |q| - 1
  {
  }

  lemma LastApart(cls: map<nat, nat>, queues: seq<seq<nat>>, h: nat)
    requires Queued(cls, queues) && Apart(cls)
    requires h in cls && cls[h] < FREE_LIST_COUNT && queues[cls[h]] != [] && h !in queues[cls[h]]
    ensures var q := queues[cls[h]]; var g := q[|q| - 1];
      g in q && g in cls && (g + BLK_HDR_SIZE <= h || h + BLK_HDR_SIZE <= g)
  {
    var q := queues[cls[h]];
    QueuedAt(cls, queues, cls[h], |q| - 1);
    HeaderCellsApart(cls, q[|q| - 1], h);
  }

  lemma ClassesAfterFreeing(mem: seq<int>, cls: map<nat, nat>, queues: seq<seq<nat>>, h: nat)
    requires Queued(cls, queues) && Apart(cls) && |mem| == POOL_SIZE
    requires h in cls && cls[h] < FREE_LIST_COUNT && h !in queues[cls[h]]
    requires forall g :: g in cls ==> g + BLK_HDR_SIZE <= POOL_SIZE && mem[g + IDX] == cls[g]
    ensures var q := queues[cls[h]]; q != [] ==> q[|q| - 1] in cls
    ensures forall g :: g in cls ==> FreedMemory(mem, queues[cls[h]], h)[g + IDX] == cls[g]
  {
    assert |queues| == FREE_LIST_COUNT;
    hide Apart, Queued;
    var q := queues[cls[h]];
    if q != [] { LastApart(cls, queues, h); }
    FreedMemoryCells(mem, q, h);
    hide FreedMemory;
    forall g | g in cls ensures FreedMemory(mem, q, h)[g + IDX] == cls[g] {
      if g != h { HeaderCellsApart(cls, g, h); }
      if q != [] && g != q[|q| - 1] { HeaderCellsApart(cls, g, q[|q| - 1]); }
    }
  }

  // The list record, the links and the classes after block h is appended (touchdb_pool.c:120-130).
  lemma LinkedAfterFreeing(mem: seq<int>, lists: seq<FreeList>, cls: map<nat, nat>, queues: seq<seq<nat>>, h: nat)
    requires Queued(cls, queues) && Linked(mem, lists, cls, queues) && Apart(cls)
    requires h in cls && cls[h] < FREE_LIST_COUNT && h !in queues[cls[h]] && NoDuplicates(queues[cls[h]])
    ensures var q := queues[cls[h]];
      && (q != [] ==> q[|q| - 1] in cls && q[|q| - 1] + BLK_HDR_SIZE <= POOL_SIZE)
      && Linked(FreedMemory(mem, q, h), lists[cls[h] := FreeList(if q == [] then h else q[0], h, |q| + 1)],
                cls, queues[cls[h] := q + [h]])
  {
    LinkedParts(mem, lists, cls, queues);
    hide Linked, Apart, Queued, NoDuplicates, FreedMemory, Spells, ListSpells;
    var q, i := queues[cls[h]], cls[h];
    if q != [] { LastApart(cls, queues, h); }
    ClassesAfterFreeing(mem, cls, queues, h);
    ListAfterFreeing(q, h);
    var lists', queues' := lists[i := FreeList(if q == [] then h else q[0], h, |q| + 1)], queues[i := q + [h]];
    ListsSpell(lists, queues, i, lists', queues');
    LinksAfterFreeing(mem, cls, queues, h);
    FreedMemoryCells(mem, q, h);
    LinkedWhole(FreedMemory(mem, q, h), lists', cls, queues');
  }

  // What makes the memory and the list records spell the queues, taken apart and put together.
  lemma LinkedParts(mem: seq<int>, lists: seq<FreeList>, cls: map<nat, nat>, queues: seq<seq<nat>>)
    requires Linked(mem, lists, cls, queues)
    ensures |mem| == POOL_SIZE && |lists| == |queues| == FREE_LIST_COUNT
    ensures forall h :: h in cls ==> h + BLK_HDR_SIZE <= POOL_SIZE && mem[h + IDX] == cls[h]
    ensures forall i :: 0 <= i < FREE_LIST_COUNT ==> ListSpells(lists[i], queues[i])
    ensures forall i, j :: 0 <= i < FREE_LIST_COUNT && 0 <= j < |queues[i]| ==> Spells(mem, queues[i], j)
  {
    hide ListSpells, Spells;
  }

  lemma LinkedWhole(mem: seq<int>, lists: seq<FreeList>, cls: map<nat, nat>, queues: seq<seq<nat>>)
    requires |mem| == POOL_SIZE && |lists| == |queues| == FREE_LIST_COUNT
    requires forall h :: h in cls ==> h + BLK_HDR_SIZE <= POOL_SIZE && mem[h + IDX] == cls[h]
    requires forall i :: 0 <= i < FREE_LIST_COUNT ==> ListSpells(lists[i], queues[i])
    requires forall i, j :: 0 <= i < FREE_LIST_COUNT && 0 <= j < |queues[i]| ==> Spells(mem, queues[i], j)
    ensures Linked(mem, lists, cls, queues)
  {
    hide ListSpells, Spells;
  }

  lemma ListsSpell(lists: seq<FreeList>, queues: seq<seq<nat>>, i: nat, lists': seq<FreeList>, queues': seq<seq<nat>>)
    requires |lists| == |queues| == |lists'| == |queues'| == FREE_LIST_COUNT && i < FREE_LIST_COUNT
    requires lists' == lists[i := lists'[i]] && queues' == queues[i := queues'[i]] && ListSpells(lists'[i], queues'[i])
    requires forall k :: 0 <= k < FREE_LIST_COUNT ==> ListSpells(lists[k], queues[k])
    ensures forall k :: 0 <= k < FREE_LIST_COUNT ==> ListSpells(lists'[k], queues'[k])
  {
    hide ListSpells;
  }

  lemma ListAfterFreeing(q: seq<nat>, h: nat)
    ensures ListSpells(FreeList(if q == [] then h else q[0], h, |q| + 1), q + [h])
  {
  }

  lemma LinksAfterFreeing(mem: seq<int>, cls: map<nat, nat>, queues: seq<seq<nat>>, h: nat)
    requires Queued(cls, queues) && Apart(cls) && |mem| == POOL_SIZE && |queues| == FREE_LIST_COUNT
    requires h in cls && cls[h] < FREE_LIST_COUNT && h !in queues[cls[h]] && NoDuplicates(queues[cls[h]])
    requires h + BLK_HDR_SIZE <= POOL_SIZE
    requires forall i, j :: 0 <= i < FREE_LIST_COUNT && 0 <= j < |queues[i]| ==> Spells(mem, queues[i], j)
    requires var q := queues[cls[h]]; q != [] ==> q[|q| - 1] + BLK_HDR_SIZE <= POOL_SIZE
    ensures var q := queues[cls[h]]; var queues' := queues[cls[h] := q + [h]];
      forall i, j :: 0 <= i < FREE_LIST_COUNT && 0 <= j < |queues'[i]| ==> Spells(FreedMemory(mem, q, h), queues'[i], j)
  {
    hide Apart, Queued, NoDuplicates, FreedMemory, Spells;
    var q := queues[cls[h]];
    var queues' := queues[cls[h] := q + [h]];
    forall i, j | 0 <= i < FREE_LIST_COUNT && 0 <= j < |queues'[i]|
      ensures Spells(FreedMemory(mem, q, h), queues'[i], j)
    {
      if j < |queues[i]| {
        QueuedAt(cls, queues, i, j);
        assert i == cls[h] ==> queues[i][j] in q;
        SpellsAfterFreeing(mem, cls, queues, h, i, j);
      } else {
        LastAfterFreeing(mem, cls, queues, h);
      }
    }
  }

  lemma LastAfterFreeing(mem: seq<int>, cls: map<nat, nat>, queues: seq<seq<nat>>, h: nat)
    requires Queued(cls, queues) && Apart(cls) && |mem| == POOL_SIZE && |queues| == FREE_LIST_COUNT
    requires h in cls && cls[h] < FREE_LIST_COUNT && h !in queues[cls[h]] && h + BLK_HDR_SIZE <= POOL_SIZE
    requires var q := queues[cls[h]]; q != [] ==> q[|q| - 1] + BLK_HDR_SIZE <= POOL_SIZE
    ensures var q := queues[cls[h]]; Spells(FreedMemory(mem, q, h), q + [h], |q|)
  {
    hide Apart, Queued, FreedMemory;
    var q := queues[cls[h]];
    if q != [] { LastApart(cls, queues, h); }
    FreedMemoryCells(mem, q, h);
  }

  lemma ConsistentAfterFreeing(mem: seq<int>, lists: seq<FreeList>, cur: nat, carved: seq<Block>, cls: map<nat, nat>,
                               live: set<nat>, queues: seq<seq<nat>>, peak: seq<nat>, h: nat)
    requires Consistent(mem, lists, cur, carved, cls, live, queues, peak) && h in live
    ensures h in cls && cls[h] < FREE_LIST_COUNT && h + BLK_HDR_SIZE <= POOL_SIZE && mem[h + IDX] == cls[h]
    ensures var q := queues[cls[h]];
      && lists[cls[h]] == (if q == [] then FreeList(NIL, NIL, 0) else FreeList(q[0], q[|q| - 1], |q|))
      && (q != [] ==> q[|q| - 1] in cls && q[|q| - 1] + BLK_HDR_SIZE <= POOL_SIZE && q[|q| - 1] !in live)
      && Consistent(FreedMemory(mem, q, h),
                    lists[cls[h] := FreeList(if q == [] then h else q[0], h, |q| + 1)],
                    cur, carved, cls, live - {h}, queues[cls[h] := q + [h]], peak)
    ensures forall i :: 0 <= i < FREE_LIST_COUNT ==> CountLive(carved, live - {h}, i) <= peak[i]
  {
    PartedAfterFreeing(cls, live, queues, h);
    CountedAfterFreeing(carved, cur, live, queues, peak, Block(h, cls[h]));
    LinkedAfterFreeing(mem, lists, cls, queues, h);
    assert ListSpells(lists[cls[h]], queues[cls[h]]);
    var q := queues[cls[h]];
    assert q != [] ==> q[|q| - 1] in q;
  }

  class Pool {
    // The bytes of the pool. An integer is kept at the position of its first byte.
    const mem: array<int>
    const lists: array<FreeList>
    var cur: nat

    // Carved blocks in order, and their class by header offset.
    ghost var carved: seq<Block>
    ghost var cls: map<nat, nat>
    // Header offsets of the blocks handed out and not yet given back.
    ghost var live: set<nat>
    // Header offsets of the free blocks of each class, oldest first.
    ghost var queues: seq<seq<nat>>
    // The greatest number of live blocks of each class so far.
    ghost var peak: seq<nat>

    ghost predicate Valid()
      reads this, mem, lists
    {
      Consistent(mem[..], lists[..], cur, carved, cls, live, queues, peak)
    }

    // touchdb_pool_init of a fresh pool (touchdb_pool.c:47-55).
    constructor ()
      ensures Valid() && fresh(mem) && fresh(lists)
      ensures live == {} && carved == [] && cur == 1
      ensures queues == seq(FREE_LIST_COUNT, _ => []) && peak == seq(FREE_LIST_COUNT, _ => 0)
    {
      mem := new int[POOL_SIZE];
      lists := new FreeList[FREE_LIST_COUNT](_ => FreeList(NIL, NIL, 0));
      cur := 1;
      carved, cls, live := [], map[], {};
      queues, peak := seq(FREE_LIST_COUNT, _ => []), seq(FREE_LIST_COUNT, _ => 0);
    }

    // Payload p is handed out and not yet given back.
    ghost predicate Live(p: nat)
      reads this
    {
      p >= BLK_HDR_SIZE && p - BLK_HDR_SIZE in live
    }

    // Payload p is live and has room for size bytes and less than 8 to spare.
    ghost predicate Holds(p: nat, size: nat)
      reads this
    {
      && Live(p) && p - BLK_HDR_SIZE in cls
      && size <= Payload(cls[p - BLK_HDR_SIZE]) < size + 8
    }

    // A live payload lies inside the pool, behind a header that is not at offset NIL.
    lemma LiveInside(p: nat)
      requires Valid() && Live(p)
      ensures BLK_HDR_SIZE < p && p - BLK_HDR_SIZE in cls && p + Payload(cls[p - BLK_HDR_SIZE]) <= cur <= POOL_SIZE
    {
      ConsistentBounds(mem[..], lists[..], cur, carved, cls, live, queues, peak);
    }

    // The payload bytes of every live block are as they were.
    twostate predicate PayloadsUntouched()
      reads this, mem
    {
      forall h: nat, o: nat :: h in old(live) && InPayload(old(cls), h, o) && o < mem.Length ==> mem[o] == old(mem[o])
    }

    // No free block of class idx, and no room to carve one.
    ghost predicate Exhausted(idx: nat)
      reads this
    {
      idx < |queues| && queues[idx] == [] && cur + BlkSize(idx) > POOL_SIZE
    }

    // The pool ends at 100 MB, and a new block of the class would go past that.
    lemma ExhaustedMeans(idx: nat)
      ensures Exhausted(idx) <==> idx < |queues| && queues[idx] == [] && cur + 16 + 8 * (idx + 1) > 0x640_0000
    {
    }

    // Block h of class idx became live: the oldest free block of the class, or a new one if there was none.
    twostate predicate Handed(h: nat, idx: nat)
      reads this
    {
      && h !in old(live) && live == old(live) + {h} && h in cls && cls[h] == idx
      && idx < |old(queues)| == |old(peak)|
      && peak == old(peak)[idx := Max(old(peak)[idx], CountLive(carved, live, idx))]
      && if old(queues)[idx] == [] then
           && h == old(cur) && cur == old(cur) + BlkSize(idx) && queues == old(queues)
           && carved == old(carved) + [Block(h, idx)] && cls == old(cls)[h := idx]
         else
           && h == old(queues)[idx][0] && queues == old(queues)[idx := old(queues)[idx][1..]]
           && cur == old(cur) && carved == old(carved) && cls == old(cls)
    }

    // Block h went to the end of the queue of its class.
    twostate predicate Returned(h: nat)
      reads this
    {
      && h in old(cls) && live == old(live) - {h}
      && cur == old(cur) && carved == old(carved) && cls == old(cls) && peak == old(peak)
      && cls[h] < |old(queues)| && queues == old(queues)[cls[h] := old(queues)[cls[h]] + [h]]
    }

    // A block is cut off the unused area (touchdb_pool.c:78-87). No result when the area is used up.
    method Carve(idx: nat) returns (hdr: nat)
      requires Valid() && idx < FREE_LIST_COUNT && queues[idx] == []
      modifies this, mem
      ensures PayloadsUntouched()
      ensures hdr == NIL <==> old(Exhausted(idx))
      ensures hdr == NIL ==> Unchanged()
      ensures hdr != NIL ==> Handed(hdr, idx)
      ensures Valid()
    {
      hide Consistent;
      ConsistentBounds(mem[..], lists[..], cur, carved, cls, live, queues, peak);
      var blkSize := BLK_HDR_SIZE + 8 * (idx + 1);
      if (cur + blkSize) % UINT_RANGE > POOL_SIZE {
        return NIL;
      }
      ConsistentAfterCarving(mem[..], lists[..], cur, carved, cls, live, queues, peak, idx);
      hdr := cur;
      mem[hdr + IDX] := idx;
      assert mem[..] == old(mem[..])[hdr + IDX := idx];
      cur := cur + blkSize;
      carved, cls, live := carved + [Block(hdr, idx)], cls[hdr := idx], live + {hdr};
      peak := peak[idx := Max(peak[idx], CountLive(carved, live, idx))];
    }

    twostate predicate Unchanged()
      reads this, mem, lists
    {
      && cur == old(cur) && carved == old(carved) && cls == old(cls) && live == old(live)
      && queues == old(queues) && peak == old(peak) && mem[..] == old(mem[..]) && lists[..] == old(lists[..])
    }

    // The oldest block of a free list is unlinked (touchdb_pool.c:89-99).
    method TakeFirst(idx: nat) returns (hdr: nat)
      requires Valid() && idx < FREE_LIST_COUNT && queues[idx] != []
      modifies this, mem, lists
      ensures PayloadsUntouched() && Handed(hdr, idx) && hdr != NIL
      ensures Valid()
    {
      hide Consistent, Apart, TakenMemory, TakenList;
      ConsistentBounds(mem[..], lists[..], cur, carved, cls, live, queues, peak);
      ConsistentApart(mem[..], lists[..], cur, carved, cls, live, queues, peak);
      ConsistentAfterTaking(mem[..], lists[..], cur, carved, cls, live, queues, peak, idx);
      PayloadsAfterTaking(mem[..], cls, queues[idx]);
      hdr := UnlinkFirst(idx, queues[idx]);
      queues, live := queues[idx := queues[idx][1..]], live + {hdr};
      peak := peak[idx := Max(peak[idx], CountLive(carved, live, idx))];
    }

    // The first block of a free list is linked out (touchdb_pool.c:90-99).
    method UnlinkFirst(idx: nat, ghost q: seq<nat>) returns (hdr: nat)
      requires mem.Length == POOL_SIZE && idx < lists.Length && q != [] && ListSpells(lists[idx], q)
      requires q[0] + BLK_HDR_SIZE <= POOL_SIZE && mem[q[0] + NEXT] == if |q| > 1 then q[1] else NIL
      requires |q| > 1 ==> NIL < q[1] && q[1] + BLK_HDR_SIZE <= POOL_SIZE
      modifies mem, lists
      ensures hdr == q[0] && mem[..] == TakenMemory(old(mem[..]), q)
      ensures lists[..] == old(lists[..])[idx := TakenList(old(lists[idx]), q)]
    {
      hdr := lists[idx].header;
      var next := mem[hdr + NEXT];
      if next != NIL {
        mem[next + PREV] := NIL;
        assert mem[..] == old(mem[..])[next + PREV := NIL];
      } else {
        lists[idx] := lists[idx].(tail := NIL);
      }
      lists[idx] := lists[idx].(header := next);
      lists[idx] := lists[idx].(size := lists[idx].size - 1);
      assert lists[..] == old(lists[..])[idx := lists[idx]];
    }

    // touchdb_pool_free of a payload (touchdb_pool.c:105-131).
    method Free(p: nat)
      requires Valid() && Live(p)
      modifies this, mem, lists
      ensures PayloadsUntouched() && Returned(p - BLK_HDR_SIZE)
      ensures Valid()
    {
      hide Consistent, Apart, FreedMemory;
      ConsistentBounds(mem[..], lists[..], cur, carved, cls, live, queues, peak);
      ConsistentApart(mem[..], lists[..], cur, carved, cls, live, queues, peak);
      var blk := p - BLK_HDR_SIZE;
      ConsistentAfterFreeing(mem[..], lists[..], cur, carved, cls, live, queues, peak, blk);
      ghost var q := queues[cls[blk]];
      PayloadsAfterFreeing(mem[..], cls, q, blk);
      var idx := mem[blk + IDX];
      if idx < 0 || idx > FREE_LIST_COUNT {
        return;
      }
      LinkLast(idx, blk, q);
      queues, live := queues[idx := q + [blk]], live - {blk};
    }

    // The block is linked in at the end of a free list (touchdb_pool.c:120-130).
    method LinkLast(idx: nat, blk: nat, ghost q: seq<nat>)
      requires mem.Length == POOL_SIZE && idx < lists.Length && blk + BLK_HDR_SIZE <= POOL_SIZE
      requires ListSpells(lists[idx], q) && (q != [] ==> q[|q| - 1] + BLK_HDR_SIZE <= POOL_SIZE)
      modifies mem, lists
      ensures mem[..] == FreedMemory(old(mem[..]), q, blk)
      ensures lists[..] == old(lists[..])[idx := FreeList(if q == [] then blk else q[0], blk, |q| + 1)]
    {
      if lists[idx].size == 0 {
        mem[blk + PREV] := NIL;
        lists[idx] := lists[idx].(header := blk, tail := blk);
      } else {
        var tail := lists[idx].tail;
        mem[blk + PREV] := lists[idx].tail;
        mem[tail + NEXT] := blk;
        lists[idx] := lists[idx].(tail := blk);
      }
      mem[blk + NEXT] := NIL;
      lists[idx] := lists[idx].(size := lists[idx].size + 1);
      assert lists[..] == old(lists[..])[idx := lists[idx]];
    }

    // touchdb_pool_malloc. The result is the payload's offset, NIL for a null pointer.
    method Malloc(size: nat) returns (p: nat)
      requires Valid()
      modifies this, mem, lists
      ensures PayloadsUntouched()
      ensures p == NIL <==> !(1 <= size <= 0x10_0000) || old(Exhausted(FreeListIdx(size)))
      ensures p == NIL ==> Unchanged()
      ensures p != NIL ==>
        p > BLK_HDR_SIZE && size <= Payload(FreeListIdx(size)) < size + 8 && p + Payload(FreeListIdx(size)) <= POOL_SIZE
      ensures p != NIL ==> Handed(p - BLK_HDR_SIZE, FreeListIdx(size))
      ensures Valid()
    {
      hide Consistent;
      ConsistentBounds(mem[..], lists[..], cur, carved, cls, live, queues, peak);
      ClassFits(size);
      var idx := FreeListIdx(size);
      // Repair of touchdb_pool.c:70, which lets idx == FREE_LIST_COUNT through and lacks the test for
      // idx < 0 that :112 has.
      if idx < 0 || idx >= FREE_LIST_COUNT {
        return NIL;
      }
      ConsistentLists(mem[..], lists[..], cur, carved, cls, live, queues, peak, idx);
      var hdr: nat;
      if lists[idx].size == 0 {
        hdr := Carve(idx);
        if hdr == NIL {
          return NIL;
        }
      } else {
        hdr := TakeFirst(idx);
      }
      ConsistentBounds(mem[..], lists[..], cur, carved, cls, live, queues, peak);
      p := hdr + BLK_HDR_SIZE;
    }
  }
}
