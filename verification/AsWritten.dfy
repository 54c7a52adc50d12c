/** Places where the repository's code departs from its own mirrored branches: exactly when the code as it
    stands does what the repaired form does, and inputs at which it does not. */
module AsWritten {
  import opened Bits
  import opened CStrings
  import opened Values
  import opened RbTrees
  import opened RbArena
  import opened RbContents
  import PoolSpec
  import ChainSpec
  import HashMapSpec
  import HashMapSteps

  // ----- touchdb_rbtree.c:235: right_rotate assigns left's right link to itself, and n keeps its left link

  function RightRotated(a: Arena, n: nat): Arena
    requires n in a && a[n].left in a
    requires a[a[n].left].right != NIL ==> a[a[n].left].right in a
    requires a[n].parent != NIL ==> a[n].parent in a
  {
    var left := a[n].left;
    var a1 := if a[left].right != NIL then a[a[left].right := a[a[left].right].(parent := n)] else a;
    var a2 := a1[left := a1[left].(right := n, parent := a1[n].parent)];
    var parent := a2[n].parent;
    var a3 :=
      if parent == NIL || parent !in a2 then a2
      else if a2[parent].right == n then a2[parent := a2[parent].(right := left)]
      else a2[parent := a2[parent].(left := left)];
    a3[n := a3[n].(parent := left)]
  }

  // Two records that point to each other spell no tree.
  lemma {:induction false} NoCyclicTree(a: Arena, n: nat, left: nat, t: Tree, p: nat)
    requires n in a && left in a && left != NIL && n != NIL && a[n].left == left && a[left].right == n
    ensures !(Holds(a, t, p) && Root(t) == left)
    decreases t
  {
    if Holds(a, t, p) && Root(t) == left {
      assert Root(t.right) == n && Holds(a, t.right, left);
      assert Root(t.right.left) == left && Holds(a, t.right.left, n);
      NoCyclicTree(a, n, left, t.right.left, n);
    }
  }

  // As written, a right rotation leaves a tree in place only where it does nothing at all.
  lemma RightRotateAsWritten(a: Arena, root: nat, c: Path, t: Tree)
    requires t.Node? && State(a, root, c, t)
    ensures t.at in a && (a[t.at].left == NIL <==> t.left.Leaf?)
    ensures t.left.Node? ==>
      && a[t.at].left in a && (a[a[t.at].left].right != NIL ==> a[a[t.at].left].right in a)
      && (a[t.at].parent != NIL ==> a[t.at].parent in a)
      && !exists s, root' :: State(RightRotated(a, t.at), root', c, s) && Root(s) == a[t.at].left
  {
    LinksAt(a, root, c, t);
    if t.left.Node? {
      LinksBelow(a, root, c, t, t.left);
      var a' := RightRotated(a, t.at);
      assert a'[t.at].left == t.left.at && a'[t.left.at].right == t.at;
      forall s, root' ensures !(State(a', root', c, s) && Root(s) == t.left.at) {
        NoCyclicTree(a', t.at, t.left.at, s, UpAt(c));
      }
    }
  }

  // Two black nodes and a red one on the left.
  lemma RightRotateExample()
    ensures var v := Val(IntVal, NULL_ADDR);
      var a := map[17 := Rec(65, NIL, NIL, Black, [66], v), 65 := Rec(NIL, NIL, 17, Red, [65], v)];
      RightRotated(a, 17)[17].left == 65 && RightRotated(a, 17)[65].right == 17
  {
  }

  // ----- touchdb_rbtree.c:115: insert_fixup paints the grandparent black before the left rotation

  function StraightenedBlack(c: Path, t: Tree): Tree
    requires t.Node? && !c.Top? && !c.up.Top?
  {
    if c.up.InLeft? then Straightened(c, t)
    else
      var p := Fill(c, t);
      var p' := if c.InLeft? then RotatedRight(p) else p;
      RotatedLeft(Paint(Fill(c.up, Paint(p', Black)), Black))
  }

  // As written, the whole tree is red-black once its root is painted black on the left side only.
  lemma InsertColourAsWritten(c: Path, t: Tree)
    requires OneRedEdge(c, t) && !c.Top? && c.color == Red && !IsRed(Side(c.up))
    ensures RedBlack(StraightenedBlack(c, t)) <==> c.up.InLeft?
    ensures RedBlack(Paint(Plug(c.up.up, StraightenedBlack(c, t)), Black)) <==> c.up.InLeft?
  {
    StraightenedFacts(c, t);
    StepColourAsWritten(c, t);
    var g := StraightenedBlack(c, t);
    if c.up.InLeft? {
      InsertionDone(InLeft(g.at, Black, g.key, g.val, g.right, c.up.up), g.left);
      assert g == Node(g.at, Black, g.key, g.val, g.left, g.right);
    } else if !c.up.up.Top? {
      WrongInside(c.up.up, g);
    }
  }

  // No colour of the root makes up for a subtree that is not red-black.
  lemma {:induction false} WrongInside(c: Path, t: Tree)
    requires !c.Top? && !RedBlack(t)
    ensures !RedBlack(Paint(Plug(c, t), Black))
    decreases c
  {
    if !c.up.Top? { WrongInside(c.up, Fill(c, t)); }
  }

  lemma StepColourAsWritten(c: Path, t: Tree)
    requires OneRedEdge(c, t) && !c.Top? && c.color == Red && !IsRed(Side(c.up))
    ensures RedBlack(StraightenedBlack(c, t)) <==> c.up.InLeft?
    ensures c.up.InRight? ==> !RedBlack(Paint(StraightenedBlack(c, t), Black))
  {
    StraightenedFacts(c, t);
    var g := Straightened(c, t);
    assert Fits(c.up, BlackHeight(t), true);
    if c.up.InLeft? {
      var e := InLeft(g.at, Black, g.key, g.val, g.right, c.up.up);
      assert Fits(e, BlackHeight(g.left), false);
      assert g == Node(g.at, Black, g.key, g.val, g.left, g.right);
    } else {
      var s := StraightenedBlack(c, t);
      assert BlackHeight(s.left) == BlackHeight(t) + 1;
      assert BlackHeight(s.right) == BlackHeight(t);
    }
  }

  // The third of three ascending keys, below the tree that the first two make.
  lemma InsertColourExample()
    ensures var v := Val(IntVal, NULL_ADDR);
      var t := Node(113, Red, [67], v, Leaf, Leaf);
      var c := InRight(65, Red, [66], v, Leaf, InRight(17, Black, [65], v, Leaf, Top));
      && OneRedEdge(c, t) && RedBlack(Plug(c, Leaf))
      && !RedBlack(StraightenedBlack(c, t)) && RedBlack(Straightened(c, t))
  {
  }

  // ----- touchdb_rbtree.c:272: insertion compares with 1 where the search compares with 0

  // As written, a new key goes to the side where the search will look for it unless strcmp gave exactly 1.
  lemma InsertSideAsWritten(c: Path, k: CStr)
    requires !c.Top? && Brackets(c, k)
    ensures (Strcmp(k, c.key) > 1 <==> c.InRight?) <==> Strcmp(k, c.key) != 1
  {
    BracketSide(c, k);
  }

  lemma InsertSideExample()
    ensures var c := InLeft(17, Black, [98], Val(IntVal, NULL_ADDR), Leaf, Top);
      Strcmp([99], [98]) == 1 && !Sorted(InOrder(Plug(c, Node(65, Red, [99], Val(IntVal, NULL_ADDR), Leaf, Leaf))))
  {
    var x := Node(65, Red, [99], Val(IntVal, NULL_ADDR), Leaf, Leaf);
    var c := InLeft(17, Black, [98], Val(IntVal, NULL_ADDR), Leaf, Top);
    var s := InOrder(Plug(c, x));
    assert InOrder(x) == [Item(65, [99], Val(IntVal, NULL_ADDR))];
    assert s[0].key == [99] && s[1].key == [98];
    assert !Less(s[0].key, s[1].key);
  }

  // ----- touchdb_pool.c:70: the class is compared with `>`

  // free_list_idx of an unsigned size handed over as a signed int.
  function SignedIdx(size: nat): int {
    PoolSpec.FreeListIdx(ToInt32(size))
  }

  // As written, every 32-bit request is either refused or served from a list that exists, except for the
  // request of nothing, the 8 sizes past the greatest class, and sizes that are negative as an int.
  lemma PoolBoundAsWritten(size: nat)
    requires size < 0x1_0000_0000
    ensures SignedIdx(size) > PoolSpec.FREE_LIST_COUNT || 0 <= SignedIdx(size) < PoolSpec.FREE_LIST_COUNT
      <==> 1 <= size <= 0x10_0000 || 0x10_0008 < size < 0x8000_0000
  {
    assert size < 0x8000_0000 ==> ToInt32(size) == size;
    assert size >= 0x8000_0000 ==> ToInt32(size) == size - 0x1_0000_0000;
  }

  // The first request past the greatest class is neither refused nor served from a list, and nor is one of nothing.
  lemma PoolBoundExample()
    ensures SignedIdx(0x10_0001) == PoolSpec.FREE_LIST_COUNT == 0x2_0000 && SignedIdx(0) == -1
  {
  }

  // ----- touchdb_chain.c:116: push_head sets the old head's next link

  // The node behind the head leads on, and only to the head does its prev link lead back.
  lemma HeadLinks(nodes: ChainSpec.Nodes, s: seq<Addr>)
    requires ChainSpec.Spelled(nodes, s) && s != []
    ensures s[0] in nodes && nodes[s[0]].prev.offset == NIL
    ensures nodes[s[0]].next.offset != NIL ==> nodes[s[0]].next in nodes && nodes[nodes[s[0]].next].next != s[0]
    ensures |s| > 1 ==> s[1] in nodes && nodes[s[1]].prev == s[0] && s[0].offset != NIL
  {
    assert ChainSpec.NodeAt(nodes, s, 0);
    if |s| > 1 { assert ChainSpec.NodeAt(nodes, s, 1); }
  }

  // As written, pushing at the head leaves a chain only if the chain was empty.
  lemma PushHeadAsWritten(nodes: ChainSpec.Nodes, q: seq<Addr>, a: Addr, v: Val)
    requires ChainSpec.Spelled(nodes, q) && a !in nodes && a.offset != NIL
    ensures q != [] ==> q[0] in nodes
    ensures var n1 := nodes[a := ChainSpec.ChainNode(NULL_ADDR, if q == [] then NULL_ADDR else q[0], v)];
      var n2 := if q == [] then n1 else n1[q[0] := n1[q[0]].(next := a)];
      (exists s :: ChainSpec.Spelled(n2, s) && s != [] && s[0] == a) <==> q == []
  {
    if q == [] {
      var n1 := nodes[a := ChainSpec.ChainNode(NULL_ADDR, NULL_ADDR, v)];
      assert ChainSpec.NodeAt(n1, [a], 0);
      assert forall x :: x in n1 <==> x in [a];
      assert ChainSpec.Spelled(n1, [a]);
    } else {
      assert ChainSpec.NodeAt(nodes, q, 0);
      var n2 := nodes[a := ChainSpec.ChainNode(NULL_ADDR, q[0], v)][q[0] := nodes[q[0]].(next := a)];
      forall s | s != [] && s[0] == a ensures !ChainSpec.Spelled(n2, s) {
        if ChainSpec.Spelled(n2, s) { HeadLinks(n2, s); }
      }
    }
  }

  // ----- touchdb_chain.c:145-147: pull_head leaves the new head's prev link

  // As written, pulling at the head leaves a chain only if nothing is left.
  lemma PullHeadAsWritten(nodes: ChainSpec.Nodes, q: seq<Addr>)
    requires ChainSpec.Spelled(nodes, q) && q != []
    ensures ChainSpec.Spelled(nodes - {q[0]}, q[1..]) <==> |q| == 1
  {
    if |q| == 1 {
      assert nodes - {q[0]} == map[] by {
        assert forall x :: x in nodes <==> x in q;
      }
    } else {
      HeadLinks(nodes, q);
      if ChainSpec.Spelled(nodes - {q[0]}, q[1..]) { HeadLinks(nodes - {q[0]}, q[1..]); }
    }
  }

  // As written, so does pulling at the tail.
  lemma PullTailAsWritten(nodes: ChainSpec.Nodes, q: seq<Addr>)
    requires ChainSpec.Spelled(nodes, q) && q != []
    ensures ChainSpec.Spelled(nodes - {q[|q| - 1]}, q[..|q| - 1]) <==> |q| == 1
  {
    if |q| == 1 {
      assert nodes - {q[0]} == map[] by {
        assert forall x :: x in nodes <==> x in q;
      }
    } else {
      TailLinks(nodes, q);
      var z := |q| - 1;
      if ChainSpec.Spelled(nodes - {q[z]}, q[..z]) { TailLinks(nodes - {q[z]}, q[..z]); }
    }
  }

  lemma TailLinks(nodes: ChainSpec.Nodes, s: seq<Addr>)
    requires ChainSpec.Spelled(nodes, s) && s != []
    ensures var z := |s| - 1;
      && s[z] in nodes && nodes[s[z]].next.offset == NIL
      && (z > 0 ==> s[z - 1] in nodes && nodes[s[z - 1]].next == s[z] && s[z].offset != NIL)
  {
    assert ChainSpec.NodeAt(nodes, s, |s| - 1);
    if |s| > 1 { assert ChainSpec.NodeAt(nodes, s, |s| - 2); }
  }

  // ----- touchdb_chain.c:155 and :175: the value being returned is destroyed with its node

  // As written, the returned value's string is still there only if it has none.
  lemma PullValueAsWritten(strings: ChainSpec.Strings, a: Addr, v: Val, live: set<Addr>)
    requires ChainSpec.InPlace(strings, v) && {a} + ChainSpec.StringBlocks(strings, v) <= live
    ensures ChainSpec.StringBlocks(strings, v) <= live - ({a} + ChainSpec.StringBlocks(strings, v))
      <==> v.kind != StrVal
  {
    if v.kind == StrVal {
      assert v.value in ChainSpec.StringBlocks(strings, v);
    }
  }

  // ----- touchdb_chain.c:191-192: insert writes to the next node, whether there is one or not

  // As written, insertion follows a null pointer only after the last node.
  lemma InsertAsWritten(nodes: ChainSpec.Nodes, q: seq<Addr>, j: nat)
    requires ChainSpec.Spelled(nodes, q) && j < |q|
    ensures q[j] in nodes && (nodes[q[j]].next.offset == NIL <==> j == |q| - 1)
  {
    assert ChainSpec.NodeAt(nodes, q, j);
    if j + 1 < |q| { assert ChainSpec.NodeAt(nodes, q, j + 1); }
  }

  // A chain of two nodes, at 17 and 65, loses the links of either end, and one at 113 cannot come first.
  lemma ChainExample()
    ensures var v := Val(IntVal, NULL_ADDR);
      var (a, b, x) := (Addr(0, 17), Addr(0, 65), Addr(0, 113));
      var nodes := map[a := ChainSpec.ChainNode(NULL_ADDR, b, v), b := ChainSpec.ChainNode(a, NULL_ADDR, v)];
      && ChainSpec.Spelled(nodes, [a, b])
      && !ChainSpec.Spelled(nodes - {a}, [b]) && !ChainSpec.Spelled(nodes - {b}, [a])
      && var pushed := nodes[x := ChainSpec.ChainNode(NULL_ADDR, a, v)][a := ChainSpec.ChainNode(NULL_ADDR, x, v)];
      !exists s :: ChainSpec.Spelled(pushed, s) && s != [] && s[0] == x
  {
    var v := Val(IntVal, NULL_ADDR);
    var (a, b, x) := (Addr(0, 17), Addr(0, 65), Addr(0, 113));
    var nodes := map[a := ChainSpec.ChainNode(NULL_ADDR, b, v), b := ChainSpec.ChainNode(a, NULL_ADDR, v)];
    assert ChainSpec.NodeAt(nodes, [a, b], 0) && ChainSpec.NodeAt(nodes, [a, b], 1);
    PullHeadAsWritten(nodes, [a, b]);
    PullTailAsWritten(nodes, [a, b]);
    assert [a, b][1..] == [b] && [a, b][..1] == [a];
    PushHeadAsWritten(nodes, [a, b], x, v);
  }

  // ----- touchdb_map.c:75: get_entry follows the address of a bucket's first entry, null or not

  // As written, a lookup follows a null address exactly when no key of the map is in the bucket of its key.
  lemma LookupAsWritten(v: HashMapSpec.View, pending: set<Addr>, k: CStr)
    requires HashMapSpec.Consistent(v, pending) && HashMapSpec.Bucket(|v.chains|, k) < |v.chains|
    ensures var i := HashMapSpec.Bucket(|v.chains|, k);
      && v.table in v.heap && v.heap[v.table].Table? && i < |v.heap[v.table].bulks|
      && (v.heap[v.table].bulks[i].header.offset == NIL
          <==> forall j :: j in v.index ==> HashMapSpec.Bucket(|v.chains|, j) != i)
  {
    hide HashMapSpec.Bucket, HashMapSpec.HashOf, HashMapSpec.Stored, HashMapSpec.Accounted;
    var i := HashMapSpec.Bucket(|v.chains|, k);
    assert HashMapSpec.BulkSpells(v.heap[v.table].bulks[i], v.chains[i]);
    if v.chains[i] != [] {
      assert HashMapSpec.LinkSpells(v.heap, v.chains[i], 0);
      assert HashMapSpec.ChainedKey(v.index, v.owner, v.chains[i][0], i, |v.chains|);
    }
  }

  // A new map: the first lookup does.
  lemma LookupExample(table: Addr, k: CStr)
    ensures var v := HashMapSpec.View(map[table := HashMapSpec.Table([HashMapSpec.Bulk(NULL_ADDR, NULL_ADDR, 0)])],
                                      table, 0, map[], [[]], map[]);
      && HashMapSpec.Consistent(v, {}) && HashMapSpec.Bucket(|v.chains|, k) == 0
      && v.heap[table].bulks[0].header.offset == NIL
  {
  }

  // ----- touchdb_map.c:213-217: put2 destroys and returns the value it has just stored

  // The heap afterwards, and the value returned.
  function OverwrittenAsWritten(v: HashMapSpec.View, k: CStr, w: Val): (HashMapSpec.Heap, Val)
    requires k in v.index && HashMapSpec.EntryFor(v.heap, k, v.index[k]) && HashMapSpec.StringInPlace(v.heap, w)
  {
    var e := v.index[k];
    (v.heap[e := HashMapSpec.EntryCell(v.heap[e].entry.(val := w))] - HashMapSpec.StringBlocks(v.heap, w), w)
  }

  // As written, the heap comes out right only if neither value has a string, the replaced value is returned only
  // if moreover it is the new one, and the entry keeps a value at all only if the new value has no string.
  lemma OverwriteAsWritten(v: HashMapSpec.View, pending: set<Addr>, k: CStr, w: Val)
    requires HashMapSpec.Consistent(v, pending) && k in v.index
    requires HashMapSpec.StringInPlace(v.heap, w) && HashMapSpec.StringBlocks(v.heap, w) <= pending
    ensures HashMapSpec.EntryFor(v.heap, k, v.index[k])
    ensures
      var (h, r) := OverwrittenAsWritten(v, k, w);
      var replaced, heap := v.heap[v.index[k]].entry.val, HashMapSteps.Overwritten(v, k, w).heap;
      && (h == heap <==> w.kind != StrVal && replaced.kind != StrVal)
      && (h == heap && r == replaced <==> w.kind != StrVal && w == replaced)
      && (HashMapSpec.EntryFor(h, k, v.index[k]) <==> w.kind != StrVal)
  {
    hide HashMapSpec.HashOf, HashMapSpec.Chained, HashMapSpec.Indexed;
    HashMapSteps.KeyFacts(v.heap, v.index, v.owner, k);
    HashMapSteps.AccountedDisjoint(v, pending);
    hide HashMapSpec.Stored, HashMapSpec.Accounted;
    OverwrittenDiffers(v, k, w);
  }

  lemma OverwrittenDiffers(v: HashMapSpec.View, k: CStr, w: Val)
    requires k in v.index && HashMapSpec.EntryFor(v.heap, k, v.index[k]) && HashMapSpec.StringInPlace(v.heap, w)
    requires var e, was := v.index[k], v.heap[v.index[k]].entry.val;
      HashMapSpec.StringBlocks(v.heap, w) !! {e, v.heap[e].entry.key} + HashMapSpec.StringBlocks(v.heap, was)
    requires var e, was := v.index[k], v.heap[v.index[k]].entry.val;
      {e, v.heap[e].entry.key} !! HashMapSpec.StringBlocks(v.heap, was) && e != v.heap[e].entry.key
    ensures
      var (h, r) := OverwrittenAsWritten(v, k, w);
      var replaced, heap := v.heap[v.index[k]].entry.val, HashMapSteps.Overwritten(v, k, w).heap;
      && (h == heap <==> w.kind != StrVal && replaced.kind != StrVal)
      && (h == heap && r == replaced <==> w.kind != StrVal && w == replaced)
      && (HashMapSpec.EntryFor(h, k, v.index[k]) <==> w.kind != StrVal)
  {
    hide HashMapSpec.HashOf;
    var replaced := v.heap[v.index[k]].entry.val;
    var h := OverwrittenAsWritten(v, k, w).0;
    var heap := HashMapSteps.Overwritten(v, k, w).heap;
    if w.kind == StrVal {
      assert w.value in HashMapSpec.StringBlocks(v.heap, w);
      assert w.value in heap && w.value !in h;
    } else if replaced.kind == StrVal {
      assert replaced.value in HashMapSpec.StringBlocks(v.heap, replaced);
      assert replaced.value !in heap && replaced.value in h;
    }
  }

  // A map of one bucket with one key, whose value is the given one.
  function OneKeyView(k: CStr, was: Val): HashMapSpec.View {
    var (table, e, kb, s, d) := (Addr(0, 17), Addr(0, 65), Addr(0, 129), Addr(0, 161), Addr(0, 193));
    var heap := map[table := HashMapSpec.Table([HashMapSpec.Bulk(e, e, 1)]),
                    e := HashMapSpec.EntryCell(HashMapSpec.Entry(NULL_ADDR, NULL_ADDR, HashMapSpec.HashOf(k), kb, was)),
                    kb := HashMapSpec.Key(k), s := HashMapSpec.Str(2, d), d := HashMapSpec.Text([97])];
    HashMapSpec.View(heap, table, 1, map[k := e], [[e]], map[e := k, kb := k, s := k, d := k])
  }

  lemma OneKeyConsistent(k: CStr, was: Val)
    requires was == Val(StrVal, Addr(0, 161))
    ensures HashMapSpec.Consistent(OneKeyView(k, was), {})
  {
    hide HashMapSpec.Chained, HashMapSpec.Indexed, HashMapSpec.Stored, HashMapSpec.Accounted, OneKeyView;
    OneKeyLinks(k, was);
    OneKeyStored(k, was);
  }

  lemma OneKeyLinks(k: CStr, was: Val)
    ensures var v := OneKeyView(k, was);
      HashMapSpec.Chained(v.heap, v.table, v.chains) && HashMapSpec.Indexed(v.index, v.chains, v.owner)
  {
    hide HashMapSpec.HashOf;
    assert HashMapSpec.Bucket(1, k) == 0;
  }

  lemma OneKeyStored(k: CStr, was: Val)
    requires was == Val(StrVal, Addr(0, 161))
    ensures var v := OneKeyView(k, was); HashMapSpec.Stored(v.heap, v.index, v.owner) && HashMapSpec.Accounted(v, {})
  {
    hide HashMapSpec.EntryFor, HashMapSpec.Blocks, HashMapSpec.HashOf, HashMapSpec.Accounted, OneKeyView;
    OneKeyBlocks(k, was);
    OneKeyAccounted(k, was);
    OneKeyOwner(k, was);
  }

  lemma OneKeyOwner(k: CStr, was: Val)
    ensures var v := OneKeyView(k, was);
      && v.index == map[k := Addr(0, 65)]
      && (forall a :: a in v.owner && v.owner[a] == k <==> a in {Addr(0, 65), Addr(0, 129), Addr(0, 161), Addr(0, 193)})
  {
    hide HashMapSpec.HashOf;
  }

  lemma OneKeyBlocks(k: CStr, was: Val)
    requires was == Val(StrVal, Addr(0, 161))
    ensures var v := OneKeyView(k, was);
      && k in v.index && HashMapSpec.EntryFor(v.heap, k, v.index[k])
      && HashMapSpec.Blocks(v.heap, k, v.index[k]) == {Addr(0, 65), Addr(0, 129), Addr(0, 161), Addr(0, 193)}
  {
    hide HashMapSpec.HashOf;
  }

  lemma OneKeyAccounted(k: CStr, was: Val)
    ensures HashMapSpec.Accounted(OneKeyView(k, was), {})
  {
    hide HashMapSpec.HashOf;
  }

  // A key whose string is replaced by an integer.
  lemma OverwriteExample()
    ensures var k, was, w := [107], Val(StrVal, Addr(0, 161)), Val(IntVal, NULL_ADDR);
      var v := OneKeyView(k, was);
      && HashMapSpec.Consistent(v, {}) && HashMapSpec.EntryFor(v.heap, k, v.index[k])
      && var (h, r) := OverwrittenAsWritten(v, k, w);
      h != HashMapSteps.Overwritten(v, k, w).heap && r != was
  {
    hide HashMapSpec.HashOf, HashMapSpec.Consistent, HashMapSteps.Overwritten, OverwrittenAsWritten;
    var k, was, w := [107], Val(StrVal, Addr(0, 161)), Val(IntVal, NULL_ADDR);
    OneKeyConsistent(k, was);
    OverwriteAsWritten(OneKeyView(k, was), {}, k, w);
    Returned(OneKeyView(k, was), k, w);
  }

  lemma Returned(v: HashMapSpec.View, k: CStr, w: Val)
    requires k in v.index && HashMapSpec.EntryFor(v.heap, k, v.index[k]) && HashMapSpec.StringInPlace(v.heap, w)
    ensures OverwrittenAsWritten(v, k, w).1 == w
  {
  }
}
