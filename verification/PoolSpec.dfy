/** What the allocator's bookkeeping means: carved blocks, which of them are live, and the queues of free ones. */
module PoolSpec {

  const FREE_LIST_COUNT: nat := 128 * 1024
  const POOL_SIZE: nat := 100 * 1024 * 1024
  const BLK_HDR_SIZE: nat := 16

  // The class of a request: class i serves payloads of 8 * (i + 1) bytes.
  function FreeListIdx(size: int): int {
    if size % 8 == 0 then size / 8 - 1 else size / 8
  }

  predicate HasClass(size: int) {
    0 <= FreeListIdx(size) < FREE_LIST_COUNT
  }

  function Payload(idx: nat): nat {
    8 * (idx + 1)
  }

  function BlkSize(idx: nat): nat {
    BLK_HDR_SIZE + Payload(idx)
  }

  // The class of a request is the one whose payload is the request rounded up to a multiple of 8.
  lemma ClassFits(size: nat)
    ensures HasClass(size) <==> 1 <= size <= 0x10_0000
    ensures HasClass(size) ==> size <= Payload(FreeListIdx(size)) < size + 8 && Payload(FreeListIdx(size)) % 8 == 0
  {
  }

  // A block carved from the pool: the offset of its header and its class.
  datatype Block = Block(at: nat, idx: nat)

  function TotalSize(carved: seq<Block>): nat {
    if carved == [] then 0
    else TotalSize(carved[..|carved| - 1]) + BlkSize(carved[|carved| - 1].idx)
  }

  // The blocks of a class, and those of them that are live.
  function CountIn(carved: seq<Block>, idx: nat): nat {
    if carved == [] then 0
    else CountIn(carved[..|carved| - 1], idx) + if carved[|carved| - 1].idx == idx then 1 else 0
  }

  function CountLive(carved: seq<Block>, live: set<nat>, idx: nat): nat {
    if carved == [] then 0
    else
      var b := carved[|carved| - 1];
      CountLive(carved[..|carved| - 1], live, idx) + if b.idx == idx && b.at in live then 1 else 0
  }

  // Block k starts where the blocks before it end.
  ghost predicate Abuts(carved: seq<Block>, k: nat)
    requires k < |carved|
  {
    carved[k].at == 1 + TotalSize(carved[..k])
  }

  // The blocks tile [1, cur) in the order in which they were carved.
  ghost predicate Tiled(carved: seq<Block>, cur: nat) {
    && (forall k :: 0 <= k < |carved| ==> Abuts(carved, k))
    && cur == 1 + TotalSize(carved)
  }

  lemma {:induction false} TotalSizePrefix(carved: seq<Block>, j: nat, k: nat)
    requires j < k <= |carved|
    ensures TotalSize(carved[..j]) + BlkSize(carved[j].idx) <= TotalSize(carved[..k])
  {
    assert carved[..k][..k - 1] == carved[..k - 1];
    if j < k - 1 {
      TotalSizePrefix(carved, j, k - 1);
    }
  }

  // Blocks of a tiling do not overlap, lie inside [1, cur), and are told apart by their offset.
  lemma TiledDisjoint(carved: seq<Block>, cur: nat, j: nat, k: nat)
    requires Tiled(carved, cur) && j < k < |carved|
    ensures 1 <= carved[j].at && carved[j].at + BlkSize(carved[j].idx) <= carved[k].at
    ensures carved[k].at + BlkSize(carved[k].idx) <= cur
  {
    assert Abuts(carved, j) && Abuts(carved, k);
    TotalSizePrefix(carved, j, k);
    TotalSizePrefix(carved, k, |carved|);
    assert carved[..|carved|] == carved;
  }

  // Each block takes 16 bytes for its header and 8 * (idx + 1) for its payload, and the next one, or the unused
  // area, follows at once.
  lemma TiledExactly(carved: seq<Block>, cur: nat, j: nat)
    requires Tiled(carved, cur) && j < |carved|
    ensures carved[0].at == 1
    ensures carved[j].at + 16 + 8 * (carved[j].idx + 1) == if j + 1 < |carved| then carved[j + 1].at else cur
  {
    assert Abuts(carved, 0) && Abuts(carved, j);
    assert carved[..j + 1][..j] == carved[..j];
    if j + 1 < |carved| { assert Abuts(carved, j + 1); } else { assert carved[..|carved|] == carved; }
  }

  predicate Covers(b: Block, o: nat) {
    b.at <= o < b.at + BlkSize(b.idx)
  }

  // Every offset below cur belongs to exactly one block.
  lemma {:induction false} TiledCovers(carved: seq<Block>, cur: nat, o: nat)
    requires Tiled(carved, cur) && 1 <= o < cur
    ensures exists k :: 0 <= k < |carved| && Covers(carved[k], o)
    ensures forall j, k :: 0 <= j < k < |carved| ==> !(Covers(carved[j], o) && Covers(carved[k], o))
    decreases |carved|
  {
    var n := |carved| - 1;
    var rest := carved[..n];
    assert Abuts(carved, n);
    forall i | 0 <= i < n ensures Abuts(rest, i) {
      assert Abuts(carved, i) && rest[..i] == carved[..i];
    }
    if Covers(carved[n], o) {
    } else {
      TiledCovers(rest, 1 + TotalSize(rest), o);
      var k :| 0 <= k < n && Covers(rest[k], o);
      assert carved[k] == rest[k];
    }
    forall j, k | 0 <= j < k < |carved| ensures !(Covers(carved[j], o) && Covers(carved[k], o)) {
      TiledDisjoint(carved, cur, j, k);
    }
  }

  // ----- sizes by class

  // The bytes taken by count(i) blocks of every class i < n.
  ghost function SizeByClass(count: nat -> nat, n: nat): nat {
    if n == 0 then 0 else SizeByClass(count, n - 1) + count(n - 1) * BlkSize(n - 1)
  }

  lemma {:induction false} SizeByClassStep(c: nat -> nat, d: nat -> nat, idx: nat, n: nat)
    requires forall i: nat :: d(i) == c(i) + if i == idx then 1 else 0
    ensures SizeByClass(d, n) == SizeByClass(c, n) + if idx < n then BlkSize(idx) else 0
  {
    if n > 0 {
      SizeByClassStep(c, d, idx, n - 1);
      if idx == n - 1 {
        assert d(n - 1) * BlkSize(n - 1) == c(n - 1) * BlkSize(n - 1) + BlkSize(n - 1);
      }
    }
  }

  lemma {:induction false} SizeByClassZero(c: nat -> nat, n: nat)
    requires forall i: nat :: c(i) == 0
    ensures SizeByClass(c, n) == 0
  {
    if n > 0 {
      SizeByClassZero(c, n - 1);
    }
  }

  lemma {:induction false} TotalByClass(carved: seq<Block>)
    requires forall b :: b in carved ==> b.idx < FREE_LIST_COUNT
    ensures TotalSize(carved) == SizeByClass(i => CountIn(carved, i), FREE_LIST_COUNT)
    decreases |carved|
  {
    if carved == [] {
      SizeByClassZero(i => CountIn(carved, i), FREE_LIST_COUNT);
    } else {
      var rest, b := carved[..|carved| - 1], carved[|carved| - 1];
      TotalByClass(rest);
      SizeByClassStep(i => CountIn(rest, i), i => CountIn(carved, i), b.idx, FREE_LIST_COUNT);
    }
  }

  // ----- counting under allocation and release

  lemma {:induction false} CountLiveGrows(carved: seq<Block>, live: set<nat>, k: nat, idx: nat)
    requires k < |carved| && carved[k].at !in live
    requires forall i, j :: 0 <= i < j < |carved| ==> carved[i].at != carved[j].at
    ensures CountLive(carved, live + {carved[k].at}, idx)
            == CountLive(carved, live, idx) + if carved[k].idx == idx then 1 else 0
    decreases |carved|
  {
    var n := |carved| - 1;
    if k < n {
      CountLiveGrows(carved[..n], live, k, idx);
    } else {
      CountLiveSame(carved[..n], live, live + {carved[k].at}, idx);
    }
  }

  lemma {:induction false} CountLiveSame(carved: seq<Block>, live: set<nat>, live': set<nat>, idx: nat)
    requires forall b :: b in carved ==> (b.at in live <==> b.at in live')
    ensures CountLive(carved, live, idx) == CountLive(carved, live', idx)
    decreases |carved|
  {
    if carved != [] {
      CountLiveSame(carved[..|carved| - 1], live, live', idx);
    }
  }
}
