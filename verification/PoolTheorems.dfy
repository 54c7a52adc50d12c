/** What a consistent pool guarantees after any run of Malloc and Free. */
module PoolTheorems {
  import opened Values
  import opened Sequences
  import opened PoolSpec
  import opened Pool

  // The parts of a pool's invariant that the theorems below are about.
  lemma ValidMeans(p: Pool)
    requires p.Valid()
    ensures |p.mem[..]| == 0x640_0000 && |p.lists[..]| == |p.queues| == 0x2_0000
    ensures p.cur <= POOL_SIZE == 0x640_0000 && Laid(p.carved, p.cls, p.cur) && Parted(p.cls, p.live, p.queues)
    ensures Counted(p.carved, p.live, p.queues, p.peak) && Linked(p.mem[..], p.lists[..], p.cls, p.queues)
  {
  }

  // Every offset in [1, cur) belongs to exactly one block, and each block is either live or in exactly one
  // free list, that of its own class, in exactly one place.
  lemma Tiling(carved: seq<Block>, cls: map<nat, nat>, cur: nat, live: set<nat>, queues: seq<seq<nat>>, o: nat)
    requires Laid(carved, cls, cur) && Parted(cls, live, queues) && 1 <= o < cur
    ensures exists h :: h in cls && h <= o < h + 16 + 8 * (cls[h] + 1) && h != NIL
              && forall g :: g in cls && g <= o < g + 16 + 8 * (cls[g] + 1) ==> g == h
    ensures forall h :: h in cls ==> (h in live <==> forall i :: 0 <= i < FREE_LIST_COUNT ==> h !in queues[i])
    ensures forall i, j, i', j' :: 0 <= i < FREE_LIST_COUNT && 0 <= i' < FREE_LIST_COUNT
              && 0 <= j < |queues[i]| && 0 <= j' < |queues[i']| && queues[i][j] == queues[i'][j']
              ==> queues[i][j] in cls && i == i' == cls[queues[i][j]] && j == j'
  {
    hide Tiled, Parted;
    OneBlockAt(carved, cls, cur, o);
    OneQueueEach(cls, live, queues);
  }

  lemma OneBlockAt(carved: seq<Block>, cls: map<nat, nat>, cur: nat, o: nat)
    requires Laid(carved, cls, cur) && 1 <= o < cur
    ensures exists h :: h in cls && h <= o < h + BlkSize(cls[h]) && h != NIL
              && forall g :: g in cls && g <= o < g + BlkSize(cls[g]) ==> g == h
  {
    hide Tiled, Placed;
    TiledCovers(carved, cur, o);
    var k :| 0 <= k < |carved| && Covers(carved[k], o);
    CarvedAt(carved, cls, cur, k);
    OnlyCover(cls, carved[k].at, o);
  }

  lemma CarvedAt(carved: seq<Block>, cls: map<nat, nat>, cur: nat, k: nat)
    requires Placed(carved, cls, cur) && k < |carved|
    ensures Apart(cls) && carved[k].at in cls && cls[carved[k].at] == carved[k].idx && carved[k].at != NIL
  {
    hide Apart;
    assert carved[k] == Block(carved[k].at, carved[k].idx) && carved[k] in carved;
  }

  lemma OnlyCover(cls: map<nat, nat>, h: nat, o: nat)
    requires Apart(cls) && h in cls && h <= o < h + BlkSize(cls[h])
    ensures forall g :: g in cls && g <= o < g + BlkSize(cls[g]) ==> g == h
  {
    forall g | g in cls && g <= o < g + BlkSize(cls[g]) ensures g == h {
      assert !(g < h) && !(h < g);
    }
  }

  lemma OneQueueEach(cls: map<nat, nat>, live: set<nat>, queues: seq<seq<nat>>)
    requires Parted(cls, live, queues)
    ensures |queues| == FREE_LIST_COUNT
    ensures forall h :: h in cls ==> (h in live <==> forall i :: 0 <= i < FREE_LIST_COUNT ==> h !in queues[i])
    ensures forall i, j, i', j' :: 0 <= i < FREE_LIST_COUNT && 0 <= i' < FREE_LIST_COUNT
              && 0 <= j < |queues[i]| && 0 <= j' < |queues[i']| && queues[i][j] == queues[i'][j']
              ==> queues[i][j] in cls && i == i' == cls[queues[i][j]] && j == j'
  {
  }

  // A block's class is in the third integer of its header, and the links of a free block in the first two.
  lemma HeaderFields(p: Pool, h: nat, i: nat, j: nat)
    requires p.Valid()
    ensures h in p.cls ==> h + 8 < p.mem.Length && p.mem[h + 8] == p.cls[h]
    ensures i < |p.queues| && j < |p.queues[i]| ==>
      var q := p.queues[i];
      && q[j] + 4 < p.mem.Length
      && p.mem[q[j]] == (if j + 1 < |q| then q[j + 1] else 0) && p.mem[q[j] + 4] == (if j > 0 then q[j - 1] else 0)
  {
    hide Laid, Parted, Counted;
    if i < |p.queues| && j < |p.queues[i]| { assert Spells(p.mem[..], p.queues[i], j); }
  }

  // No live payload overlaps another live payload or any header, and all lie inside the pool.
  lemma PayloadsDisjoint(carved: seq<Block>, cls: map<nat, nat>, cur: nat, live: set<nat>, queues: seq<seq<nat>>,
                         g: nat, h: nat)
    requires Laid(carved, cls, cur) && cur <= POOL_SIZE && Parted(cls, live, queues) && g in live && h in cls && g != h
    ensures forall o: nat :: InPayload(cls, g, o) ==> o < cur <= POOL_SIZE && !InPayload(cls, h, o)
    ensures forall o: nat :: InPayload(cls, g, o) ==> !(h <= o < h + BLK_HDR_SIZE) && !(g <= o < g + BLK_HDR_SIZE)
  {
    assert g < h || h < g;
  }

  // The blocks carved for a class are as many as were ever live at once, so the pool's extent is exactly
  // what those high-water marks need.
  lemma HighWater(carved: seq<Block>, cls: map<nat, nat>, cur: nat, live: set<nat>, queues: seq<seq<nat>>,
                  peak: seq<nat>)
    requires Laid(carved, cls, cur) && Counted(carved, live, queues, peak)
    ensures cur == 1 + SizeByClass((i: nat) => if i < |peak| then peak[i] else 0, FREE_LIST_COUNT)
    ensures forall i :: 0 <= i < FREE_LIST_COUNT ==> CountLive(carved, live, i) <= peak[i]
  {
    forall b | b in carved ensures b.idx < FREE_LIST_COUNT {
      assert b == Block(b.at, b.idx);
    }
    TotalByClass(carved);
    SizeByClassSame(i => CountIn(carved, i), (i: nat) => if i < |peak| then peak[i] else 0, FREE_LIST_COUNT);
  }

  lemma {:induction false} SizeByClassSame(c: nat -> nat, d: nat -> nat, n: nat)
    requires forall i: nat :: i < n ==> c(i) == d(i)
    ensures SizeByClass(c, n) == SizeByClass(d, n)
  {
    if n > 0 {
      SizeByClassSame(c, d, n - 1);
    }
  }

  // ----- the links of a free list

  // The header offsets met on n steps from offset o, forward and backward.
  function Forward(mem: seq<int>, o: int, n: nat): seq<int>
    decreases n
  {
    if n == 0 || o < 0 || o + NEXT >= |mem| then [] else [o] + Forward(mem, mem[o + NEXT], n - 1)
  }

  function Backward(mem: seq<int>, o: int, n: nat): seq<int>
    decreases n
  {
    if n == 0 || o < 0 || o + PREV >= |mem| then [] else [o] + Backward(mem, mem[o + PREV], n - 1)
  }

  lemma {:induction false} ForwardSpells(mem: seq<int>, q: seq<nat>, j: nat)
    requires j < |q| && forall i :: 0 <= i < |q| ==> Spells(mem, q, i)
    ensures Forward(mem, q[j], |q| - j) == q[j..]
    decreases |q| - j
  {
    assert Spells(mem, q, j);
    if j + 1 < |q| {
      ForwardSpells(mem, q, j + 1);
    }
  }

  lemma {:induction false} BackwardSpells(mem: seq<int>, q: seq<nat>, j: nat)
    requires j < |q| && forall i :: 0 <= i < |q| ==> Spells(mem, q, i)
    ensures Backward(mem, q[j], j + 1) == Reversed(q[..j + 1])
  {
    assert Spells(mem, q, j);
    assert q[..j + 1][..j] == q[..j];
    if j > 0 {
      BackwardSpells(mem, q, j - 1);
    }
  }

  lemma WalksSpell(mem: seq<int>, list: FreeList, q: seq<nat>)
    requires ListSpells(list, q) && forall j :: 0 <= j < |q| ==> Spells(mem, q, j)
    ensures list.size == |q| && Forward(mem, list.header, |q|) == q && Backward(mem, list.tail, |q|) == Reversed(q)
    ensures q != [] ==>
      && 0 <= list.tail + NEXT < |mem| && mem[list.tail + NEXT] == NIL
      && 0 <= list.header + PREV < |mem| && mem[list.header + PREV] == NIL
  {
    hide Spells;
    if q != [] {
      WalksBothWays(mem, q);
      EndsSpell(mem, q);
    }
  }

  lemma WalksBothWays(mem: seq<int>, q: seq<nat>)
    requires q != [] && forall j :: 0 <= j < |q| ==> Spells(mem, q, j)
    ensures Forward(mem, q[0], |q|) == q && Backward(mem, q[|q| - 1], |q|) == Reversed(q)
  {
    hide Spells, Forward, Backward, Reversed;
    assert q[..|q|] == q && q[0..] == q;
    ForwardSpells(mem, q, 0);
    BackwardSpells(mem, q, |q| - 1);
  }

  lemma EndsSpell(mem: seq<int>, q: seq<nat>)
    requires q != [] && Spells(mem, q, 0) && Spells(mem, q, |q| - 1)
    ensures q[0] + PREV < |mem| && mem[q[0] + PREV] == NIL
    ensures q[|q| - 1] + NEXT < |mem| && mem[q[|q| - 1] + NEXT] == NIL
  {
  }

  // Walking a free list from its header spells the queue of the class, and walking it from its tail spells
  // the reverse; both walks end at NIL, and the list's size is the length.
  lemma WalksSpellQueue(mem: seq<int>, lists: seq<FreeList>, cls: map<nat, nat>, queues: seq<seq<nat>>, i: nat)
    requires Linked(mem, lists, cls, queues) && i < FREE_LIST_COUNT
    ensures lists[i].size == |queues[i]|
    ensures Forward(mem, lists[i].header, lists[i].size) == queues[i]
    ensures Backward(mem, lists[i].tail, lists[i].size) == Reversed(queues[i])
    ensures |Reversed(queues[i])| == |queues[i]|
    ensures forall k :: 0 <= k < |queues[i]| ==> Reversed(queues[i])[k] == queues[i][|queues[i]| - 1 - k]
    ensures queues[i] != [] ==>
      && 0 <= lists[i].tail + NEXT < |mem| && mem[lists[i].tail + NEXT] == NIL
      && 0 <= lists[i].header + PREV < |mem| && mem[lists[i].header + PREV] == NIL
  {
    WalksSpell(mem, lists[i], queues[i]);
    ReversedIs(queues[i]);
  }

  // ----- runs

  // What a program asks of the pool: a block, or to take back the one it holds at a place, counting from the
  // oldest. A place at which it holds none stands for no call.
  datatype Request = Ask(size: nat) | Give(place: nat)

  // The blocks carved so far, those that the program holds, and those that it has given back and not got again,
  // each oldest first.
  datatype Moment = Moment(carved: seq<Block>, held: seq<Block>, free: seq<Block>)

  function Ats(q: seq<Block>): set<nat> {
    set b | b in q :: b.at
  }

  function LiveOf(m: Moment, idx: nat): nat {
    CountLive(m.carved, Ats(m.held), idx)
  }

  function Without(q: seq<Block>, place: nat): seq<Block>
    requires place < |q|
  {
    q[..place] + q[place + 1..]
  }

  // The first place of a block of the class, the length if there is none.
  function FirstOf(q: seq<Block>, idx: nat): nat {
    if q == [] || q[0].idx == idx then 0 else 1 + FirstOf(q[1..], idx)
  }

  // The moment after a request: what is handed out is the block of the class that was given back longest ago, or
  // a new one at the end of the used area if none is free, or nothing if there is no room or no such class.
  function Next(m: Moment, r: Request): Moment {
    match r
    case Ask(size) =>
      if !HasClass(size) then m
      else
        var idx := FreeListIdx(size);
        var place := FirstOf(m.free, idx);
        if place < |m.free| then m.(held := m.held + [m.free[place]], free := Without(m.free, place))
        else
          var b := Block(1 + TotalSize(m.carved), idx);
          if 1 + TotalSize(m.carved) + BlkSize(idx) > POOL_SIZE then m
          else m.(carved := m.carved + [b], held := m.held + [b])
    case Give(place) =>
      if place < |m.held| then m.(held := Without(m.held, place), free := m.free + [m.held[place]]) else m
  }

  // The greatest number of blocks of a class live at once in any of the moments.
  function Greatest(trail: seq<Moment>, idx: nat): nat {
    if trail == [] then 0
    else Max(Greatest(trail[..|trail| - 1], idx), LiveOf(trail[|trail| - 1], idx))
  }

  // After any run, the blocks carved for each class are as many as were live at once at some moment of it, and
  // the pool's extent is exactly what those need.
  method Run(requests: seq<Request>) returns (pool: Pool, ghost trail: seq<Moment>)
    ensures pool.Valid() && |trail| == |requests| + 1
    ensures trail[0] == Moment([], [], [])
    ensures forall i :: 0 <= i < |requests| ==> trail[i + 1] == Next(trail[i], requests[i])
    ensures Shows(pool, trail[|requests|])
    ensures forall idx :: 0 <= idx < FREE_LIST_COUNT ==> CountIn(pool.carved, idx) == Greatest(trail, idx)
    ensures pool.cur == 1 + SizeByClass((idx: nat) => Greatest(trail, idx), FREE_LIST_COUNT)
  {
    hide Consistent, CountLive, Greatest, Next, Shows;
    pool := new Pool();
    trail := [Moment([], [], [])];
    AtFirst(pool);
    var held: seq<nat> := [];
    var i := 0;
    while i < |requests|
      invariant i <= |requests| && |trail| == i + 1 && pool.Valid()
      invariant fresh(pool) && fresh(pool.mem) && fresh(pool.lists)
      invariant trail[0] == Moment([], [], [])
      invariant forall j :: 0 <= j < i ==> trail[j + 1] == Next(trail[j], requests[j])
      invariant PeaksOf(pool, trail)
      invariant Shows(pool, trail[i]) && HeldAt(trail[i].held, held)
    {
      ghost var peak := pool.peak;
      held := Serve(pool, requests[i], held, trail[i]);
      trail := trail + [Next(trail[i], requests[i])];
      ShownLive(pool, trail[i + 1]);
      PeaksKept(pool, trail, peak);
      i := i + 1;
    }
    InTheEnd(pool, trail);
  }

  // The offsets are those of the blocks.
  predicate HeldAt(q: seq<Block>, held: seq<nat>) {
    |q| == |held| && forall j :: 0 <= j < |q| ==> q[j].at == held[j]
  }

  function OfClass(q: seq<Block>, idx: nat): seq<nat> {
    if q == [] then []
    else OfClass(q[..|q| - 1], idx) + if q[|q| - 1].idx == idx then [q[|q| - 1].at] else []
  }

  // The pool is at this moment: what is held is live, and each queue has the free blocks of its class in order.
  ghost predicate Shows(pool: Pool, m: Moment)
    reads pool
  {
    ShowsIn(pool.carved, pool.live, pool.cls, pool.queues, m)
  }

  ghost predicate ShowsIn(carved: seq<Block>, live: set<nat>, cls: map<nat, nat>, queues: seq<seq<nat>>, m: Moment) {
    && carved == m.carved && live == Ats(m.held)
    && (forall j :: 0 <= j < |m.held| ==> m.held[j].at in cls && cls[m.held[j].at] == m.held[j].idx)
    && (forall i, j :: 0 <= i < j < |m.held| ==> m.held[i].at != m.held[j].at)
    && |queues| == FREE_LIST_COUNT
    && (forall i :: 0 <= i < FREE_LIST_COUNT ==> queues[i] == OfClass(m.free, i))
  }

  lemma ReusedShown(carved: seq<Block>, live: set<nat>, cls: map<nat, nat>, queues: seq<seq<nat>>, m: Moment, idx: nat)
    requires ShowsIn(carved, live, cls, queues, m) && idx < FREE_LIST_COUNT && queues[idx] != []
    requires queues[idx][0] !in live && queues[idx][0] in cls && cls[queues[idx][0]] == idx
    ensures var place, h := FirstOf(m.free, idx), queues[idx][0];
      && place < |m.free| && m.free[place] == Block(h, idx)
      && ShowsIn(carved, live + {h}, cls, queues[idx := queues[idx][1..]],
                 m.(held := m.held + [m.free[place]], free := Without(m.free, place)))
  {
    hide OfClass, FirstOf;
    FirstQueued(m.free, idx);
    var place := FirstOf(m.free, idx);
    MoreHeld(m.held, m.free[place]);
    forall i | 0 <= i < FREE_LIST_COUNT
      ensures queues[idx := queues[idx][1..]][i] == OfClass(Without(m.free, place), i)
    {
      FreeTaken(m.free, idx, i);
    }
  }

  lemma CarvedShown(carved: seq<Block>, live: set<nat>, cls: map<nat, nat>, queues: seq<seq<nat>>, m: Moment, b: Block)
    requires ShowsIn(carved, live, cls, queues, m) && b.at !in live
    ensures ShowsIn(carved + [b], live + {b.at}, cls[b.at := b.idx], queues,
                    m.(carved := m.carved + [b], held := m.held + [b]))
  {
    hide OfClass;
    MoreHeld(m.held, b);
  }

  ghost predicate PeaksOf(pool: Pool, trail: seq<Moment>)
    reads pool
  {
    && |pool.peak| == FREE_LIST_COUNT
    && forall idx :: 0 <= idx < FREE_LIST_COUNT ==> pool.peak[idx] == Greatest(trail, idx)
  }

  // One request of the run, with the blocks held before and after it.
  method Serve(pool: Pool, r: Request, held: seq<nat>, ghost m: Moment) returns (held': seq<nat>)
    requires pool.Valid() && Shows(pool, m) && HeldAt(m.held, held)
    modifies pool, pool.mem, pool.lists
    ensures pool.Valid() && Shows(pool, Next(m, r)) && HeldAt(Next(m, r).held, held')
    ensures Raised(old(pool.peak), pool)
  {
    hide Consistent, CountLive;
    match r
    case Ask(size) => held' := ServeAsk(pool, size, held, m);
    case Give(place) => held' := ServeGive(pool, place, held, m);
  }

  method ServeAsk(pool: Pool, size: nat, held: seq<nat>, ghost m: Moment) returns (held': seq<nat>)
    requires pool.Valid() && Shows(pool, m) && HeldAt(m.held, held)
    modifies pool, pool.mem, pool.lists
    ensures pool.Valid() && Shows(pool, Next(m, Ask(size))) && HeldAt(Next(m, Ask(size)).held, held')
    ensures Raised(old(pool.peak), pool)
  {
    hide Consistent, CountLive, OfClass, FirstOf, ShowsIn;
    var idx := FreeListIdx(size);
    UsedArea(pool);
    ghost var carved, live, cls, queues := pool.carved, pool.live, pool.cls, pool.queues;
    if HasClass(size) { NoneFree(carved, live, cls, queues, m, idx); }
    var p := pool.Malloc(size);
    held' := held;
    if p != NIL {
      held' := held + [p - BLK_HDR_SIZE];
      if FirstOf(m.free, idx) < |m.free| {
        ReusedShown(carved, live, cls, queues, m, idx);
      } else {
        CarvedShown(carved, live, cls, queues, m, Block(p - BLK_HDR_SIZE, idx));
      }
    }
  }

  lemma NoneFree(carved: seq<Block>, live: set<nat>, cls: map<nat, nat>, queues: seq<seq<nat>>, m: Moment, idx: nat)
    requires ShowsIn(carved, live, cls, queues, m) && idx < FREE_LIST_COUNT
    ensures carved == m.carved && |queues| == FREE_LIST_COUNT
    ensures FirstOf(m.free, idx) < |m.free| <==> queues[idx] != []
  {
    FirstQueued(m.free, idx);
  }

  method ServeGive(pool: Pool, place: nat, held: seq<nat>, ghost m: Moment) returns (held': seq<nat>)
    requires pool.Valid() && Shows(pool, m) && HeldAt(m.held, held)
    modifies pool, pool.mem, pool.lists
    ensures pool.Valid() && Shows(pool, Next(m, Give(place))) && HeldAt(Next(m, Give(place)).held, held')
    ensures Raised(old(pool.peak), pool)
  {
    hide Consistent, CountLive, OfClass, ShowsIn;
    held' := held;
    if place < |held| {
      ReleasedShown(pool.carved, pool.live, pool.cls, pool.queues, m, place);
      pool.Free(held[place] + BLK_HDR_SIZE);
      held' := held[..place] + held[place + 1..];
    }
  }

  lemma ReleasedShown(carved: seq<Block>, live: set<nat>, cls: map<nat, nat>, queues: seq<seq<nat>>, m: Moment,
                      place: nat)
    requires ShowsIn(carved, live, cls, queues, m) && place < |m.held|
    ensures var b := m.held[place];
      && carved == m.carved && |queues| == FREE_LIST_COUNT && b.at in live && b.at in cls && cls[b.at] == b.idx
      && (b.idx < FREE_LIST_COUNT ==>
            ShowsIn(carved, live - {b.at}, cls, queues[b.idx := queues[b.idx] + [b.at]],
                    m.(held := Without(m.held, place), free := m.free + [b])))
  {
    hide OfClass;
    assert m.held[place] in m.held;
    LessHeld(m.held, place);
    forall i ensures OfClass(m.free + [m.held[place]], i)
      == OfClass(m.free, i) + if m.held[place].idx == i then [m.held[place].at] else []
    {
      ClassBack(m.free, m.held[place], i);
    }
  }

  lemma ClassBack(q: seq<Block>, b: Block, i: nat)
    ensures OfClass(q + [b], i) == OfClass(q, i) + if b.idx == i then [b.at] else []
  {
    assert (q + [b])[..|q|] == q;
  }

  lemma ShownLive(pool: Pool, m: Moment)
    requires Shows(pool, m)
    ensures m.carved == pool.carved && Ats(m.held) == pool.live
  {
  }

  lemma UsedArea(pool: Pool)
    requires pool.Valid()
    ensures pool.cur == 1 + TotalSize(pool.carved)
  {
    hide Counted, Linked, Parted, Placed;
  }

  lemma MoreHeld(q: seq<Block>, b: Block)
    ensures Ats(q + [b]) == Ats(q) + {b.at}
    ensures forall i :: 0 <= i < |q| ==> q[i].at in Ats(q)
  {
    forall i | 0 <= i < |q| ensures q[i].at in Ats(q) { assert q[i] in q; }
    assert b in q + [b];
  }

  lemma LessHeld(q: seq<Block>, place: nat)
    requires place < |q| && forall i, j :: 0 <= i < j < |q| ==> q[i].at != q[j].at
    ensures Ats(Without(q, place)) == Ats(q) - {q[place].at}
  {
    forall i | 0 <= i < |q| && i != place ensures q[i] in Without(q, place) {
      assert q[i] == Without(q, place)[if i < place then i else i - 1];
    }
    forall b | b in Without(q, place) ensures b in q && b.at != q[place].at {
      var i :| 0 <= i < |q| - 1 && Without(q, place)[i] == b;
      assert b == q[if i < place then i else i + 1];
    }
  }

  // The first free block of a class is the first in its queue.
  lemma {:induction false} FirstQueued(q: seq<Block>, idx: nat)
    ensures FirstOf(q, idx) <= |q|
    ensures FirstOf(q, idx) == |q| <==> OfClass(q, idx) == []
    ensures FirstOf(q, idx) < |q| ==>
      && q[FirstOf(q, idx)].idx == idx && OfClass(q, idx) != [] && OfClass(q, idx)[0] == q[FirstOf(q, idx)].at
    decreases |q|
  {
    if q != [] {
      FirstQueued(q[1..], idx);
      ClassFront(q, idx);
    }
  }

  lemma {:induction false} ClassFront(q: seq<Block>, idx: nat)
    requires q != []
    ensures OfClass(q, idx) == (if q[0].idx == idx then [q[0].at] else []) + OfClass(q[1..], idx)
    decreases |q|
  {
    if |q| > 1 {
      ClassFront(q[..|q| - 1], idx);
      assert q[..|q| - 1][1..] == q[1..][..|q| - 2];
    } else {
      assert OfClass(q[..0], idx) == [] && OfClass(q[1..], idx) == [];
    }
  }

  // Without the first free block of class idx its queue loses the first, and the others stay.
  lemma {:induction false} FreeTaken(q: seq<Block>, idx: nat, i: nat)
    requires FirstOf(q, idx) < |q|
    ensures i == idx ==> OfClass(q, i) != []
    ensures OfClass(Without(q, FirstOf(q, idx)), i) == if i == idx then OfClass(q, i)[1..] else OfClass(q, i)
    decreases |q|
  {
    hide OfClass;
    FirstQueued(q, idx);
    var place := FirstOf(q, idx);
    ClassFront(q, i);
    if place == 0 {
      assert Without(q, 0) == q[1..];
    } else {
      FreeTaken(q[1..], idx, i);
      assert Without(q, place)[1..] == Without(q[1..], place - 1) && Without(q, place)[0] == q[0];
      ClassFront(Without(q, place), i);
    }
  }

  // The peaks went up only to a number of blocks that is live now.
  ghost predicate Raised(peak: seq<nat>, pool: Pool)
    reads pool
  {
    |peak| == |pool.peak| && forall idx :: 0 <= idx < |peak| ==>
      pool.peak[idx] == peak[idx] || pool.peak[idx] == Max(peak[idx], CountLive(pool.carved, pool.live, idx))
  }

  lemma AtFirst(pool: Pool)
    requires pool.Valid() && pool.carved == [] && pool.live == {}
    requires pool.queues == seq(FREE_LIST_COUNT, _ => []) && pool.peak == seq(FREE_LIST_COUNT, _ => 0)
    ensures PeaksOf(pool, [Moment([], [], [])]) && Shows(pool, Moment([], [], []))
  {
    hide Consistent;
    var trail := [Moment([], [], [])];
    forall idx | 0 <= idx < FREE_LIST_COUNT ensures Greatest(trail, idx) == 0 {
      assert trail[..0] == [] && Greatest([], idx) == 0;
    }
  }

  lemma PeaksKept(pool: Pool, trail: seq<Moment>, peak: seq<nat>)
    requires pool.Valid() && trail != []
    requires trail[|trail| - 1].carved == pool.carved && Ats(trail[|trail| - 1].held) == pool.live
    requires Raised(peak, pool) && forall idx :: 0 <= idx < |peak| ==> peak[idx] == Greatest(trail[..|trail| - 1], idx)
    ensures PeaksOf(pool, trail)
  {
    hide Consistent, CountLive;
    ValidMeans(pool);
    HighWater(pool.carved, pool.cls, pool.cur, pool.live, pool.queues, pool.peak);
  }

  lemma InTheEnd(pool: Pool, trail: seq<Moment>)
    requires pool.Valid() && PeaksOf(pool, trail)
    ensures forall idx :: 0 <= idx < FREE_LIST_COUNT ==> CountIn(pool.carved, idx) == Greatest(trail, idx)
    ensures pool.cur == 1 + SizeByClass((idx: nat) => Greatest(trail, idx), FREE_LIST_COUNT)
  {
    hide Consistent, Greatest, Laid;
    ValidMeans(pool);
    var peak, greatest := pool.peak, (idx: nat) => Greatest(trail, idx);
    HighWater(pool.carved, pool.cls, pool.cur, pool.live, pool.queues, peak);
    SizeByClassSame((i: nat) => if i < |peak| then peak[i] else 0, greatest, FREE_LIST_COUNT);
  }
}
