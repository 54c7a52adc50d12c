/** The red-black tree of src/touchdb_rbtree.c: nodes in an arena, links by offset, all updates in place. */
module RbTree {
  import opened CStrings
  import opened Values
  import opened RbTrees
  import opened RbArena
  import opened RbContents
  import opened RbRecords
  import opened PoolSpec
  import Pool

  import opened Bits

  // The size of a node record (touchdb_rbtree.h:20-27).
  const NODE_SIZE: nat := 32

  class RbTree {
    // Nodes are allocated from this pool; the arena holds the records that live there.
    const pool: Pool.Pool
    var root: nat
    var arena: Arena
    // The tree that the records spell.
    ghost var tree: Tree

    ghost predicate Valid()
      reads this, pool, pool.mem, pool.lists
    {
      && pool.Valid()
      && Structured()
      && forall o :: o in arena ==> pool.Holds(o, 32)
    }

    // Acyclic, linked both ways, ordered and red-black, with no record outside the tree.
    ghost predicate Structured()
      reads this
    {
      && State(arena, root, Top, tree) && arena.Keys == Offs(tree)
      && RedBlack(tree) && !IsRed(tree)
      && Sorted(InOrder(tree))
    }

    // The finite map that the tree stands for.
    ghost function Contents(): map<CStr, Val>
      reads this
    {
      ToMap(InOrder(tree))
    }

    constructor (pool: Pool.Pool)
      requires pool.Valid()
      ensures Valid() && this.pool == pool && Contents() == map[] && arena == map[]
    {
      this.pool := pool;
      root, arena, tree := NIL, map[], Leaf;
    }

    // ----- search

    // get_node (touchdb_rbtree.c:55-75). On a hit `parent` is the node itself, on a miss the last node visited.
    method GetNode(k: CStr) returns (n: nat, parent: nat, ghost c: Path, ghost t: Tree, ghost comparisons: nat)
      requires Structured()
      ensures State(arena, root, c, t) && Plug(c, t) == tree && n == Root(t) && Brackets(c, k)
      ensures n != NIL ==> t.Node? && t.key == k && parent == n
      ensures n == NIL ==> t.Leaf? && parent == UpAt(c)
      ensures n != NIL <==> k in Contents()
      ensures n != NIL ==> n in arena && arena[n].val == Contents()[k]
      ensures comparisons == Depth(c) + if n != NIL then 1 else 0
      ensures comparisons <= Height(tree) && Pow2((comparisons + 1) / 2) <= |Contents()| + 1
    {
      hide Sorted, RedBlack, State, InOrder, ToMap, Brackets, Strcmp;
      n, parent := root, NIL;
      c, t, comparisons := Top, tree, 0;
      StartAtTop(tree, k);
      LinksAround(arena, root, c, t);
      while n != NIL
        invariant State(arena, root, c, t) && Plug(c, t) == tree && n == Root(t)
        invariant n != NIL <==> t.Node?
        invariant parent == UpAt(c)
        invariant Brackets(c, k)
        invariant comparisons == Depth(c) && comparisons + Height(t) <= Height(tree)
        decreases t
      {
        LinksAt(arena, root, c, t);
        InOrderPlug(c, t);
        Descend(c, t, k);
        StrcmpAntisymmetric(k, t.key);
        StrcmpZero(k, t.key);
        var r := Strcmp(k, arena[n].key);
        comparisons := comparisons + 1;
        parent := n;
        if r > 0 {
          n := arena[n].right;
          c, t := InRight(t.at, t.color, t.key, t.val, t.left, c), t.right;
          StateUp(arena, root, c, t);
        } else if r < 0 {
          n := arena[n].left;
          c, t := InLeft(t.at, t.color, t.key, t.val, t.right, c), t.left;
          StateUp(arena, root, c, t);
        } else {
          FoundAt(c, t, k);
          ComparisonBound(comparisons);
          return;
        }
        LinksAround(arena, root, c, t);
      }
      FoundAt(c, t, k);
      ComparisonBound(comparisons);
    }

    lemma StartAtTop(t: Tree, k: CStr)
      ensures Plug(Top, t) == t && Brackets(Top, k)
    {
    }

    // A tree with n keys is at most 2 * log2(n + 1) high.
    lemma ComparisonBound(m: nat)
      requires Structured() && m <= Height(tree)
      ensures Pow2((m + 1) / 2) <= |Contents()| + 1
    {
      hide State, RedBlack, InOrder, Sorted, ToMap, Height, Offs, Pow2;
      HeightBound(tree);
      OffsOfInOrder(tree);
      ToMapSize(InOrder(tree));
      if (m + 1) / 2 < (Height(tree) + 1) / 2 { Pow2Grows((m + 1) / 2, (Height(tree) + 1) / 2); }
    }

    // ----- single writes and rotations

    method SetColor(o: nat, col: Color, ghost c: Path, ghost t: Tree)
      requires t.Node? && t.at == o && State(arena, root, c, t)
      modifies this`arena
      ensures State(arena, root, c, Paint(t, col))
      ensures arena.Keys == old(arena.Keys) && arena == Coloured(old(arena), o, col)
    {
      Painted(arena, root, c, t, col);
      arena := arena[o := arena[o].(color := col)];
    }

    method LeftRotate(n: nat, ghost c: Path, ghost t: Tree)
      requires t.Node? && t.at == n && State(arena, root, c, t)
      modifies this`arena, this`root
      ensures State(arena, root, c, if t.right.Leaf? then t else RotatedLeft(t))
      ensures arena.Keys == old(arena.Keys) && (arena, root) == Rotated(old(arena), old(root), n, false)
      ensures forall o :: o in arena && o !in {n, UpAt(c), Root(t.right), Root(Child(t.right, false))} ==>
                arena[o] == old(arena)[o]
    {
      hide State, RotatedLeft;
      LinksAt(arena, root, c, t);
      var right := arena[n].right;
      if right != NIL {
        LeftRotated(arena, root, c, t);
        LinksBelow(arena, root, c, t, t.right);
        var m := arena[right].left;
        arena := arena[n := arena[n].(right := m)];
        if m != NIL {
          arena := arena[m := arena[m].(parent := n)];
        }
        arena := arena[right := arena[right].(left := n)];
        arena := arena[right := arena[right].(parent := arena[n].parent)];
        var parent := arena[n].parent;
        if parent != NIL {
          if arena[parent].right == n {
            arena := arena[parent := arena[parent].(right := right)];
          } else {
            arena := arena[parent := arena[parent].(left := right)];
          }
        } else {
          root := right;
        }
        arena := arena[n := arena[n].(parent := right)];
      }
    }

    method RightRotate(n: nat, ghost c: Path, ghost t: Tree)
      requires t.Node? && t.at == n && State(arena, root, c, t)
      modifies this`arena, this`root
      ensures State(arena, root, c, if t.left.Leaf? then t else RotatedRight(t))
      ensures arena.Keys == old(arena.Keys) && (arena, root) == Rotated(old(arena), old(root), n, true)
      ensures forall o :: o in arena && o !in {n, UpAt(c), Root(t.left), Root(Child(t.left, true))} ==>
                arena[o] == old(arena)[o]
    {
      hide State, RotatedRight;
      LinksAt(arena, root, c, t);
      var left := arena[n].left;
      if left != NIL {
        RightRotated(arena, root, c, t);
        LinksBelow(arena, root, c, t, t.left);
        // Repair of touchdb_rbtree.c:235, which assigns left's own right link to itself
        // where the mirror image at :210 moves the middle subtree under n.
        var m := arena[left].right;
        arena := arena[n := arena[n].(left := m)];
        if m != NIL {
          arena := arena[m := arena[m].(parent := n)];
        }
        arena := arena[left := arena[left].(right := n)];
        arena := arena[left := arena[left].(parent := arena[n].parent)];
        var parent := arena[n].parent;
        if parent != NIL {
          if arena[parent].right == n {
            arena := arena[parent := arena[parent].(right := left)];
          } else {
            arena := arena[parent := arena[parent].(left := left)];
          }
        } else {
          root := left;
        }
        arena := arena[n := arena[n].(parent := left)];
      }
    }

    // Turning a node down to the left and its new parent back to the right restores every record.
    method RotateThereAndBack(n: nat, ghost c: Path, ghost t: Tree)
      requires t.Node? && t.at == n && t.right.Node? && State(arena, root, c, t)
      modifies this`arena, this`root
      ensures arena == old(arena) && root == old(root)
    {
      LinksAt(arena, root, c, t);
      LinksBelow(arena, root, c, t, t.right);
      RotatedLeftFacts(t);
      assert {n, t.right.at} <= Offs(t) && (t.right.left.Node? ==> t.right.left.at in Offs(t));
      assert !c.Top? ==> UpAt(c) in PathOffs(c);
      var right := arena[n].right;
      LeftRotate(n, c, t);
      RightRotate(right, c, RotatedLeft(t));
      StateUnique(old(arena), old(root), arena, root, c, t);
    }

    // And the other way round.
    method RotateBackAndThere(n: nat, ghost c: Path, ghost t: Tree)
      requires t.Node? && t.at == n && t.left.Node? && State(arena, root, c, t)
      modifies this`arena, this`root
      ensures arena == old(arena) && root == old(root)
    {
      LinksAt(arena, root, c, t);
      LinksBelow(arena, root, c, t, t.left);
      RotatedRightFacts(t);
      assert {n, t.left.at} <= Offs(t) && (t.left.right.Node? ==> t.left.right.at in Offs(t));
      assert !c.Top? ==> UpAt(c) in PathOffs(c);
      var left := arena[n].left;
      RightRotate(n, c, t);
      LeftRotate(left, c, RotatedRight(t));
      StateUnique(old(arena), old(root), arena, root, c, t);
    }

    // ----- insertion

    // The three colour writes of touchdb_rbtree.c:85-87 and :103-105.
    method Recolor(parent: nat, uncle: nat, gparent: nat, ghost c: Path, ghost t: Tree)
      requires !c.Top? && !c.up.Top? && Side(c.up).Node? && State(arena, root, c, t)
      requires parent == c.at && uncle == Side(c.up).at && gparent == c.up.at
      modifies this`arena
      ensures State(arena, root, c.up.up, Recolored(c, t))
      ensures arena.Keys == old(arena.Keys)
    {
      ghost var up, p, u := c.up, Fill(c, t), Side(c.up);
      StateUp(arena, root, c, t);
      SetColor(parent, Black, up, p);
      p := Paint(p, Black);
      StateSide(arena, root, up, p);
      SetColor(uncle, Black, SidePath(up, p), u);
      u := Paint(u, Black);
      StateUp(arena, root, SidePath(up, p), u);
      SetColor(gparent, Red, up.up, Fill(SidePath(up, p), u));
    }

    // A red parent that is a left child, with no red uncle (touchdb_rbtree.c:90-98).
    method StraightenLeft(x: nat, p0: nat, gparent: nat, ghost c: Path, ghost t: Tree) returns (n: nat)
      requires t.Node? && !c.Top? && c.up.InLeft? && State(arena, root, c, t)
      requires x == t.at && p0 == c.at && gparent == c.up.at
      modifies this`arena, this`root
      ensures State(arena, root, c.up.up, Straightened(c, t))
      ensures n == Root(Straightened(c, t).left)
      ensures arena.Keys == old(arena.Keys)
    {
      var parent := p0;
      n := x;
      ghost var up, p := c.up, Fill(c, t);
      StateUp(arena, root, c, t);
      LinksAt(arena, root, up, p);
      if n == arena[parent].right {
        LeftRotate(parent, up, p);
        parent, n := n, parent;
        p := RotatedLeft(p);
      }
      SetColor(parent, Black, up, p);
      p := Paint(p, Black);
      StateUp(arena, root, up, p);
      SetColor(gparent, Red, up.up, Fill(up, p));
      RightRotate(gparent, up.up, Paint(Fill(up, p), Red));
    }

    // A red parent that is a right child, with no red uncle (touchdb_rbtree.c:108-116).
    method StraightenRight(x: nat, p0: nat, gparent: nat, ghost c: Path, ghost t: Tree) returns (n: nat)
      requires t.Node? && !c.Top? && c.up.InRight? && State(arena, root, c, t)
      requires x == t.at && p0 == c.at && gparent == c.up.at
      modifies this`arena, this`root
      ensures State(arena, root, c.up.up, Straightened(c, t))
      ensures n == Root(Straightened(c, t).right)
      ensures arena.Keys == old(arena.Keys)
    {
      var parent := p0;
      n := x;
      ghost var up, p := c.up, Fill(c, t);
      StateUp(arena, root, c, t);
      LinksAt(arena, root, up, p);
      if n == arena[parent].left {
        RightRotate(parent, up, p);
        parent, n := n, parent;
        p := RotatedRight(p);
      }
      SetColor(parent, Black, up, p);
      p := Paint(p, Black);
      StateUp(arena, root, up, p);
      // Repair of touchdb_rbtree.c:115, which paints the grandparent black
      // where the mirror image at :97 paints it red.
      SetColor(gparent, Red, up.up, Fill(up, p));
      LeftRotate(gparent, up.up, Paint(Fill(up, p), Red));
    }

    // One turn of the loop of insert_fixup (touchdb_rbtree.c:82-118).
    method InsertStep(n: nat, ghost c: Path, ghost t: Tree) returns (n': nat, ghost c': Path, ghost t': Tree)
      requires OneRedEdge(c, t) && t.at == n && !c.Top? && c.color == Red && State(arena, root, c, t)
      modifies this`arena, this`root
      ensures OneRedEdge(c', t') && t'.at == n' && State(arena, root, c', t')
      ensures InOrder(Plug(c', t')) == InOrder(Plug(c, t)) && Depth(c') < Depth(c)
      ensures arena.Keys == old(arena.Keys)
    {
      hide State, InOrder;
      ghost var g;
      StateUp(arena, root, c, t);
      LinksAround(arena, root, c, t);
      LinksAround(arena, root, c.up, Fill(c, t));
      var parent := arena[n].parent;
      var gparent := arena[parent].parent;
      if gparent != NIL && parent == arena[gparent].left {
        var uncle := arena[gparent].right;
        if uncle != NIL && arena[uncle].color == Red {
          Recolor(parent, uncle, gparent, c, t);
          RecoloredFacts(c, t);
          g := Recolored(c, t);
          n', c', t' := gparent, c.up.up, g;
        } else {
          n' := StraightenLeft(n, parent, gparent, c, t);
          StraightenedFacts(c, t);
          g := Straightened(c, t);
          c', t' := InLeft(g.at, Black, g.key, g.val, g.right, c.up.up), g.left;
          StateUp(arena, root, c', t');
        }
      } else {
        var uncle := arena[gparent].left;
        if uncle != NIL && arena[uncle].color == Red {
          Recolor(parent, uncle, gparent, c, t);
          RecoloredFacts(c, t);
          g := Recolored(c, t);
          n', c', t' := gparent, c.up.up, g;
        } else {
          n' := StraightenRight(n, parent, gparent, c, t);
          StraightenedFacts(c, t);
          g := Straightened(c, t);
          c', t' := InRight(g.at, Black, g.key, g.val, g.left, c.up.up), g.right;
          StateUp(arena, root, c', t');
        }
      }
      SameOrder(c.up.up, Fill(c.up, Fill(c, t)), g);
    }

    method InsertFixup(x: nat, ghost c0: Path, ghost t0: Tree) returns (ghost s: Tree)
      requires OneRedEdge(c0, t0) && t0.at == x && State(arena, root, c0, t0)
      modifies this`arena, this`root
      ensures State(arena, root, Top, s) && RedBlack(s) && !IsRed(s)
      ensures InOrder(s) == InOrder(Plug(c0, t0))
      ensures arena.Keys == old(arena.Keys)
    {
      var n := x;
      ghost var c, t := c0, t0;
      LinksAround(arena, root, c, t);
      while arena[n].parent != NIL && arena[arena[n].parent].color == Red
        invariant OneRedEdge(c, t) && t.at == n && State(arena, root, c, t)
        invariant n in arena && arena[n].parent == UpAt(c)
        invariant UpAt(c) != NIL ==> !c.Top? && c.at in arena && arena[c.at].color == c.color
        invariant UpAt(c) == NIL ==> c.Top?
        invariant InOrder(Plug(c, t)) == InOrder(Plug(c0, t0))
        invariant arena.Keys == old(arena.Keys)
        decreases Depth(c)
      {
        n, c, t := InsertStep(n, c, t);
        LinksAround(arena, root, c, t);
      }
      StatePlug(arena, root, c, t);
      s := Plug(c, t);
      InsertionDone(c, t);
      LinksAt(arena, root, Top, s);
      SetColor(root, Black, Top, s);
      s := Paint(s, Black);
    }

    // The value of an existing node is replaced (touchdb_rbtree.c:262).
    method Overwrite(n: nat, v: Val, ghost c: Path, ghost t: Tree)
      requires Structured() && t.Node? && n == t.at && State(arena, root, c, t) && Plug(c, t) == tree
      modifies this`arena, this`tree
      ensures Structured() && Contents() == old(Contents())[t.key := v] && arena.Keys == old(arena.Keys)
    {
      Revalued(arena, root, c, t, v);
      ReplacedItem(c, t, v);
      ReplacedShape(c, t, v);
      arena := arena[n := arena[n].(val := v)];
      tree := Plug(c, t.(val := v));
      StatePlug(arena, root, c, t.(val := v));
    }

    // A fresh node is filled in and linked under its parent (touchdb_rbtree.c:267-279).
    method Link(n: nat, parent: nat, k: CStr, v: Val, ghost c: Path)
      requires State(arena, root, c, Leaf) && parent == UpAt(c) && Brackets(c, k) && n != NIL && n !in arena
      modifies this`arena, this`root
      ensures State(arena, root, c, Node(n, Red, k, v, Leaf, Leaf)) && arena.Keys == old(arena.Keys) + {n}
    {
      LinksAround(arena, root, c, Leaf);
      // Repair of touchdb_rbtree.c:277-278, which leaves a new root's links and colour unset,
      // and of :63, which reads a key offset that insertion never stores.
      arena := arena[n := Rec(NIL, NIL, parent, Red, k, v)];
      if parent == NIL {
        root := n;
      } else {
        BracketSide(c, k);
        // Repair of touchdb_rbtree.c:272, which tests for more than 1 where :66 tests for more than 0.
        if Strcmp(k, arena[parent].key) > 0 {
          arena := arena[parent := arena[parent].(right := n)];
        } else {
          arena := arena[parent := arena[parent].(left := n)];
        }
      }
      Attached(old(arena), old(root), arena, root, c, n, Red, k, v);
    }

    // Linking and rebalancing of a fresh node (touchdb_rbtree.c:267-280).
    method InsertNode(n: nat, parent: nat, k: CStr, v: Val, ghost c: Path)
      requires Structured() && State(arena, root, c, Leaf) && Plug(c, Leaf) == tree
      requires parent == UpAt(c) && Brackets(c, k) && n != NIL && n !in arena
      modifies this`arena, this`root, this`tree
      ensures Structured() && Contents() == old(Contents())[k := v] && arena.Keys == old(arena.Keys) + {n}
    {
      hide State, RedBlack, Sorted, InOrder, Offs, OneRedEdge, Brackets, ToMap, Plug;
      ghost var x := Node(n, Red, k, v, Leaf, Leaf);
      AttachedItem(c, x);
      AttachedOffs(c, x);
      Link(n, parent, k, v, c);
      tree := InsertFixup(n, c, x);
      SameOffs(tree, Plug(c, x));
    }

    // touchdb_rbtree_insert (touchdb_rbtree.c:253-282). `ok` is false when the node cannot be allocated;
    // the original does not test for that and would write through a null pointer.
    method Insert(k: CStr, v: Val) returns (ok: bool)
      requires Valid()
      modifies this, pool, pool.mem, pool.lists
      ensures k in old(Contents()) ==> ok && arena.Keys == old(arena.Keys) && pool.live == old(pool.live)
      ensures ok <==> k in old(Contents()) || !old(pool.Exhausted(FreeListIdx(NODE_SIZE)))
      ensures !ok ==> pool.Exhausted(FreeListIdx(NODE_SIZE))
      ensures !ok ==> Contents() == old(Contents()) && arena == old(arena) && pool.live == old(pool.live)
      ensures ok ==> Contents() == old(Contents())[k := v]
      ensures ok && k !in old(Contents()) ==>
        exists h :: h !in old(pool.live) && pool.live == old(pool.live) + {h} && pool.Holds(h + BLK_HDR_SIZE, 32)
                    && arena.Keys == old(arena.Keys) + {h + BLK_HDR_SIZE}
      ensures Valid()
    {
      hide Pool.Consistent, State, RedBlack, Sorted, ToMap, InOrder, Offs, Brackets, Plug, Height;
      var n, parent;
      ghost var c, t, comparisons;
      n, parent, c, t, comparisons := GetNode(k);
      if n != NIL {
        Overwrite(n, v, c, t);
        return true;
      }
      n := pool.Malloc(NODE_SIZE);
      if n == NIL {
        return false;
      }
      assert n - BLK_HDR_SIZE !in old(pool.live);
      InsertNode(n, parent, k, v, c);
      ok := true;
    }

    // ----- deletion

    // A red sibling on the right is turned up over the parent (touchdb_rbtree.c:131-134).
    method LiftRightSibling(parent: nat, other: nat, ghost c: Path, ghost t: Tree)
      requires c.InLeft? && c.right.Node? && parent == c.at && other == c.right.at && State(arena, root, c, t)
      modifies this`arena, this`root
      ensures State(arena, root, SiblingLifted(c), t)
      ensures arena.Keys == old(arena.Keys)
      ensures (arena, root) ==
        Rotated(Coloured(Coloured(old(arena), other, Black), parent, Red), old(root), parent, false)
    {
      StateSide(arena, root, c, t);
      ghost var o := Paint(c.right, Black);
      SetColor(other, Black, SidePath(c, t), c.right);
      StateUp(arena, root, SidePath(c, t), o);
      ghost var p := Fill(SidePath(c, t), o);
      SetColor(parent, Red, c.up, p);
      LeftRotate(parent, c.up, Paint(p, Red));
      ghost var c' := SiblingLifted(c);
      assert RotatedLeft(Paint(p, Red)) == Fill(c'.up, Fill(c', t));
      StateUp(arena, root, c'.up, Fill(c', t));
      StateUp(arena, root, c', t);
    }

    // A red sibling on the left is turned up over the parent (touchdb_rbtree.c:164-167).
    method LiftLeftSibling(parent: nat, other: nat, ghost c: Path, ghost t: Tree)
      requires c.InRight? && c.left.Node? && parent == c.at && other == c.left.at && State(arena, root, c, t)
      modifies this`arena, this`root
      ensures State(arena, root, SiblingLifted(c), t)
      ensures arena.Keys == old(arena.Keys)
      ensures (arena, root) ==
        Rotated(Coloured(Coloured(old(arena), other, Black), parent, Red), old(root), parent, true)
    {
      StateSide(arena, root, c, t);
      ghost var o := Paint(c.left, Black);
      SetColor(other, Black, SidePath(c, t), c.left);
      StateUp(arena, root, SidePath(c, t), o);
      ghost var p := Fill(SidePath(c, t), o);
      SetColor(parent, Red, c.up, p);
      RightRotate(parent, c.up, Paint(p, Red));
      ghost var c' := SiblingLifted(c);
      assert RotatedRight(Paint(p, Red)) == Fill(c'.up, Fill(c', t));
      StateUp(arena, root, c'.up, Fill(c', t));
      StateUp(arena, root, c', t);
    }

    // A black sibling's red near nephew is turned up when the far one is not red (touchdb_rbtree.c:144-148).
    method TurnNearNephewOfRight(other: nat, ghost c: Path, ghost o: Tree)
      requires o.Node? && other == o.at && State(arena, root, c, o) && o.left.Node?
      modifies this`arena, this`root
      ensures State(arena, root, c, LeftNephewUp(o))
      ensures arena.Keys == old(arena.Keys)
      ensures var near := Kid(old(arena), other, false);
        (arena, root) == Rotated(Coloured(Coloured(old(arena), near, Black), other, Black), old(root), other, true)
    {
      LinksAt(arena, root, c, o);
      ghost var near := InLeft(o.at, o.color, o.key, o.val, o.right, c);
      ghost var o' := o;
      var oLeft := arena[other].left;
      if oLeft != NIL {
        StateUp(arena, root, near, o.left);
        SetColor(oLeft, Black, near, o.left);
        StateUp(arena, root, near, Paint(o.left, Black));
        o' := Fill(near, Paint(o.left, Black));
      }
      // As at touchdb_rbtree.c:148: the colour set here is overwritten when the far nephew is painted.
      SetColor(other, Black, c, o');
      RightRotate(other, c, Paint(o', Black));
    }

    // The sibling takes the parent's colour, the parent and the far nephew go black, and the parent
    // turns down (touchdb_rbtree.c:152-157).
    method TurnParentLeft(parent: nat, other: nat, ghost c: Path, ghost t: Tree)
      requires c.InLeft? && c.right.Node? && parent == c.at && other == c.right.at && State(arena, root, c, t)
      modifies this`arena, this`root
      ensures var o := c.right.(color := c.color, right := Paint(c.right.right, Black));
        State(arena, root, c.up, RotatedLeft(Node(c.at, Black, c.key, c.val, left := t, right := o)))
      ensures arena.Keys == old(arena.Keys)
      ensures parent in old(arena) && (arena, root) == Shared(old(arena), old(root), parent, other, false)
    {
      hide State, Rotated;
      ghost var o, side := c.right, SidePath(c, t);
      LinksAround(arena, root, c, t);
      StateSide(arena, root, c, t);
      SetColor(other, arena[parent].color, side, o);
      o := Paint(o, c.color);
      StateUp(arena, root, side, o);
      SetColor(parent, Black, c.up, Fill(side, o));
      side := InRight(c.at, Black, c.key, c.val, left := t, up := c.up);
      StateUp(arena, root, side, o);
      LinksAt(arena, root, side, o);
      if arena[other].right != NIL {
        ghost var far := InRight(o.at, o.color, o.key, o.val, o.left, side);
        StateUp(arena, root, far, o.right);
        SetColor(arena[other].right, Black, far, o.right);
        StateUp(arena, root, far, Paint(o.right, Black));
        o := Fill(far, Paint(o.right, Black));
        StateUp(arena, root, side, o);
      }
      LeftRotate(parent, c.up, Fill(side, o));
    }

    // A black node is borrowed from the right (touchdb_rbtree.c:143-157).
    method BorrowFromRight(parent: nat, o0: nat, ghost c: Path, ghost t: Tree)
      requires c.InLeft? && c.right.Node? && (IsRed(c.right.left) || IsRed(c.right.right))
      requires parent == c.at && o0 == c.right.at && State(arena, root, c, t)
      modifies this`arena, this`root
      ensures State(arena, root, c.up, Borrowed(c, t))
      ensures arena.Keys == old(arena.Keys)
      ensures At(arena, root, NIL, root) == BlackTurn(old(arena), old(root), parent, false)
    {
      hide State, Rotated, Shared;
      var other := o0;
      ghost var c' := c;
      LinksAround(arena, root, c, t);
      if arena[other].right == NIL || arena[arena[other].right].color == Black {
        ghost var o := c.right;
        StateSide(arena, root, c, t);
        TurnNearNephewOfRight(other, SidePath(c, t), o);
        c' := c.(right := LeftNephewUp(o));
        StateSide(arena, root, c', t);
        LinksAround(arena, root, c', t);
        other := arena[parent].right;
      }
      TurnParentLeft(parent, other, c', t);
    }

    // A black sibling's red near nephew is turned up when the far one is not red (touchdb_rbtree.c:177-181).
    method TurnNearNephewOfLeft(other: nat, ghost c: Path, ghost o: Tree)
      requires o.Node? && other == o.at && State(arena, root, c, o) && o.right.Node?
      modifies this`arena, this`root
      ensures State(arena, root, c, RightNephewUp(o))
      ensures arena.Keys == old(arena.Keys)
      ensures var near := Kid(old(arena), other, true);
        (arena, root) == Rotated(Coloured(Coloured(old(arena), near, Black), other, Black), old(root), other, false)
    {
      LinksAt(arena, root, c, o);
      ghost var near := InRight(o.at, o.color, o.key, o.val, o.left, c);
      ghost var o' := o;
      var oRight := arena[other].right;
      if oRight != NIL {
        StateUp(arena, root, near, o.right);
        SetColor(oRight, Black, near, o.right);
        StateUp(arena, root, near, Paint(o.right, Black));
        o' := Fill(near, Paint(o.right, Black));
      }
      // As at touchdb_rbtree.c:180: the colour set here is overwritten when the far nephew is painted.
      SetColor(other, Black, c, o');
      LeftRotate(other, c, Paint(o', Black));
    }

    // The sibling takes the parent's colour, the parent and the far nephew go black, and the parent
    // turns down (touchdb_rbtree.c:185-190).
    method TurnParentRight(parent: nat, other: nat, ghost c: Path, ghost t: Tree)
      requires c.InRight? && c.left.Node? && parent == c.at && other == c.left.at && State(arena, root, c, t)
      modifies this`arena, this`root
      ensures var o := c.left.(color := c.color, left := Paint(c.left.left, Black));
        State(arena, root, c.up, RotatedRight(Node(c.at, Black, c.key, c.val, right := t, left := o)))
      ensures arena.Keys == old(arena.Keys)
      ensures parent in old(arena) && (arena, root) == Shared(old(arena), old(root), parent, other, true)
    {
      hide State, Rotated;
      ghost var o, side := c.left, SidePath(c, t);
      LinksAround(arena, root, c, t);
      StateSide(arena, root, c, t);
      SetColor(other, arena[parent].color, side, o);
      o := Paint(o, c.color);
      StateUp(arena, root, side, o);
      SetColor(parent, Black, c.up, Fill(side, o));
      side := InLeft(c.at, Black, c.key, c.val, right := t, up := c.up);
      StateUp(arena, root, side, o);
      LinksAt(arena, root, side, o);
      if arena[other].left != NIL {
        ghost var far := InLeft(o.at, o.color, o.key, o.val, o.right, side);
        StateUp(arena, root, far, o.left);
        SetColor(arena[other].left, Black, far, o.left);
        StateUp(arena, root, far, Paint(o.left, Black));
        o := Fill(far, Paint(o.left, Black));
        StateUp(arena, root, side, o);
      }
      RightRotate(parent, c.up, Fill(side, o));
    }

    // A black node is borrowed from the left (touchdb_rbtree.c:176-190).
    method BorrowFromLeft(parent: nat, o0: nat, ghost c: Path, ghost t: Tree)
      requires c.InRight? && c.left.Node? && (IsRed(c.left.right) || IsRed(c.left.left))
      requires parent == c.at && o0 == c.left.at && State(arena, root, c, t)
      modifies this`arena, this`root
      ensures State(arena, root, c.up, Borrowed(c, t))
      ensures arena.Keys == old(arena.Keys)
      ensures At(arena, root, NIL, root) == BlackTurn(old(arena), old(root), parent, true)
    {
      hide State, Rotated, Shared;
      var other := o0;
      ghost var c' := c;
      LinksAround(arena, root, c, t);
      if arena[other].left == NIL || arena[arena[other].left].color == Black {
        ghost var o := c.left;
        StateSide(arena, root, c, t);
        TurnNearNephewOfLeft(other, SidePath(c, t), o);
        c' := c.(left := RightNephewUp(o));
        StateSide(arena, root, c', t);
        LinksAround(arena, root, c', t);
        other := arena[parent].left;
      }
      TurnParentRight(parent, other, c', t);
    }

    // A turn of the loop of del_fixup for a left child with a black sibling (touchdb_rbtree.c:137-160).
    method DelTurnLeftBlack(parent0: nat, other: nat, ghost c0: Path, ghost t0: Tree)
      returns (node: nat, parent: nat, ghost c: Path, ghost t: Tree)
      requires c0.InLeft? && State(arena, root, c0, t0) && parent0 == c0.at && other == Root(c0.right)
      requires Deficit(c0, t0) && !IsRed(t0) && c0.right.Node? && !IsRed(c0.right)
      modifies this`arena, this`root
      ensures Deficit(c, t) && State(arena, root, c, t) && node == Root(t) && parent == UpAt(c)
      ensures c.Top? || (c == c0.up && (IsRed(t) <==> c0.color == Red))
      ensures InOrder(Plug(c, t)) == InOrder(Plug(c0, t0))
      ensures arena.Keys == old(arena.Keys)
      ensures At(arena, root, parent, node) == BlackTurn(old(arena), old(root), parent0, false)
    {
      hide State, Rotated, Shared, Turned, Borrowed, InOrder;
      LinksAround(arena, root, c0, t0);
      if (arena[other].left == NIL || arena[arena[other].left].color == Black)
         && (arena[other].right == NIL || arena[arena[other].right].color == Black)
      {
        SiblingReddenedFacts(c0, t0);
        StateSide(arena, root, c0, t0);
        SetColor(other, Red, SidePath(c0, t0), c0.right);
        StateUp(arena, root, SidePath(c0, t0), Paint(c0.right, Red));
        c, t := c0.up, SiblingReddened(c0, t0);
        LinksAround(arena, root, c, t);
        node := parent0;
        parent := arena[node].parent;
      } else {
        BorrowedFacts(c0, t0);
        BorrowFromRight(parent0, other, c0, t0);
        StatePlug(arena, root, c0.up, Borrowed(c0, t0));
        c, t := Top, Plug(c0.up, Borrowed(c0, t0));
        LinksAround(arena, root, c, t);
        node, parent := root, NIL;
      }
    }

    // One turn of the loop of del_fixup when the node is a left child (touchdb_rbtree.c:129-160).
    method DelTurnLeft(node0: nat, parent0: nat, ghost c0: Path, ghost t0: Tree)
      returns (node: nat, parent: nat, ghost c: Path, ghost t: Tree)
      requires Deficit(c0, t0) && !IsRed(t0) && c0.InLeft? && State(arena, root, c0, t0)
      requires node0 == Root(t0) && parent0 == c0.at
      modifies this`arena, this`root
      ensures Deficit(c, t) && State(arena, root, c, t) && node == Root(t) && parent == UpAt(c)
      ensures DeficitMeasure(c, t) < DeficitMeasure(c0, t0)
      ensures InOrder(Plug(c, t)) == InOrder(Plug(c0, t0))
      ensures arena.Keys == old(arena.Keys)
      ensures At(arena, root, parent, node) == Turn(old(arena), old(root), parent0, node0)
    {
      SiblingExists(c0, t0);
      LinksAround(arena, root, c0, t0);
      var other := arena[parent0].right;
      ghost var c1 := c0;
      if arena[other].color == Red {
        LiftRightSibling(parent0, other, c0, t0);
        SiblingLiftedFacts(c0, t0);
        c1 := SiblingLifted(c0);
        LinksAround(arena, root, c1, t0);
        other := arena[parent0].right;
      }
      node, parent, c, t := DelTurnLeftBlack(parent0, other, c1, t0);
    }

    // A turn of the loop of del_fixup for a right child with a black sibling (touchdb_rbtree.c:170-193).
    method DelTurnRightBlack(parent0: nat, other: nat, ghost c0: Path, ghost t0: Tree)
      returns (node: nat, parent: nat, ghost c: Path, ghost t: Tree)
      requires c0.InRight? && State(arena, root, c0, t0) && parent0 == c0.at && other == Root(c0.left)
      requires Deficit(c0, t0) && !IsRed(t0) && c0.left.Node? && !IsRed(c0.left)
      modifies this`arena, this`root
      ensures Deficit(c, t) && State(arena, root, c, t) && node == Root(t) && parent == UpAt(c)
      ensures c.Top? || (c == c0.up && (IsRed(t) <==> c0.color == Red))
      ensures InOrder(Plug(c, t)) == InOrder(Plug(c0, t0))
      ensures arena.Keys == old(arena.Keys)
      ensures At(arena, root, parent, node) == BlackTurn(old(arena), old(root), parent0, true)
    {
      hide State, Rotated, Shared, Turned, Borrowed, InOrder;
      LinksAround(arena, root, c0, t0);
      if (arena[other].left == NIL || arena[arena[other].left].color == Black)
         && (arena[other].right == NIL || arena[arena[other].right].color == Black)
      {
        SiblingReddenedFacts(c0, t0);
        StateSide(arena, root, c0, t0);
        SetColor(other, Red, SidePath(c0, t0), c0.left);
        StateUp(arena, root, SidePath(c0, t0), Paint(c0.left, Red));
        c, t := c0.up, SiblingReddened(c0, t0);
        LinksAround(arena, root, c, t);
        node := parent0;
        parent := arena[node].parent;
      } else {
        BorrowedFacts(c0, t0);
        BorrowFromLeft(parent0, other, c0, t0);
        StatePlug(arena, root, c0.up, Borrowed(c0, t0));
        c, t := Top, Plug(c0.up, Borrowed(c0, t0));
        LinksAround(arena, root, c, t);
        node, parent := root, NIL;
      }
    }

    // One turn of the loop of del_fixup when the node is a right child (touchdb_rbtree.c:162-193).
    method DelTurnRight(node0: nat, parent0: nat, ghost c0: Path, ghost t0: Tree)
      returns (node: nat, parent: nat, ghost c: Path, ghost t: Tree)
      requires Deficit(c0, t0) && !IsRed(t0) && c0.InRight? && State(arena, root, c0, t0)
      requires node0 == Root(t0) && parent0 == c0.at
      modifies this`arena, this`root
      ensures Deficit(c, t) && State(arena, root, c, t) && node == Root(t) && parent == UpAt(c)
      ensures DeficitMeasure(c, t) < DeficitMeasure(c0, t0)
      ensures InOrder(Plug(c, t)) == InOrder(Plug(c0, t0))
      ensures arena.Keys == old(arena.Keys)
      ensures At(arena, root, parent, node) == Turn(old(arena), old(root), parent0, node0)
    {
      SiblingExists(c0, t0);
      LinksAround(arena, root, c0, t0);
      var other := arena[parent0].left;
      ghost var c1 := c0;
      if arena[other].color == Red {
        LiftLeftSibling(parent0, other, c0, t0);
        SiblingLiftedFacts(c0, t0);
        c1 := SiblingLifted(c0);
        LinksAround(arena, root, c1, t0);
        other := arena[parent0].left;
      }
      node, parent, c, t := DelTurnRightBlack(parent0, other, c1, t0);
    }

    method DelFixup(parent0: nat, node0: nat, ghost c0: Path, ghost t0: Tree) returns (ghost s: Tree)
      requires Deficit(c0, t0) && State(arena, root, c0, t0) && node0 == Root(t0) && parent0 == UpAt(c0)
      modifies this`arena, this`root
      ensures State(arena, root, Top, s) && RedBlack(s) && !IsRed(s)
      ensures InOrder(s) == InOrder(Plug(c0, t0))
      ensures arena.Keys == old(arena.Keys)
      ensures exists turns :: Fixup(old(arena), old(root), parent0, node0, turns) == Done(arena, root)
    {
      hide State, RedBlack, InOrder, Plug, Turn, Fixup, Reaches;
      var node, parent := node0, parent0;
      ghost var c, t, turns, from := c0, t0, 0, At(arena, root, parent, node);
      ReachesItself(from);
      LinksAround(arena, root, c, t);
      while (node == NIL || arena[node].color == Black) && node != root
        invariant Deficit(c, t) && State(arena, root, c, t) && node == Root(t) && parent == UpAt(c)
        invariant c.Top? <==> node == root
        invariant t.Leaf? <==> node == NIL
        invariant node != NIL ==> node in arena && arena[node].color == t.color
        invariant InOrder(Plug(c, t)) == InOrder(Plug(c0, t0))
        invariant arena.Keys == old(arena.Keys)
        invariant Reaches(from, At(arena, root, parent, node), turns)
        decreases DeficitMeasure(c, t)
      {
        SiblingExists(c, t);
        LinksAround(arena, root, c, t);
        ghost var before := At(arena, root, parent, node);
        if arena[parent].left == node {
          node, parent, c, t := DelTurnLeft(node, parent, c, t);
        } else {
          node, parent, c, t := DelTurnRight(node, parent, c, t);
        }
        LinksAround(arena, root, c, t);
        ReachesOnce(from, before, turns, At(arena, root, parent, node));
        turns := turns + 1;
      }
      ReachesEnd(from, At(arena, root, parent, node), turns);
      DeletionDone(c, t);
      NilOutside(arena, root, c, t);
      if node != NIL {
        SetColor(node, Black, c, t);
      }
      s := Plug(c, Paint(t, Black));
      StatePlug(arena, root, c, Paint(t, Black));
      assert Fixup(old(arena), old(root), parent0, node0, turns) == Done(arena, root);
    }

    // A node with at most one child is bypassed (touchdb_rbtree.c:297-311 and :329-348).
    method Bypass(n: nat, ghost c: Path, ghost u: Tree) returns (child: nat, parent: nat, color: Color)
      requires u.Node? && n == u.at && State(arena, root, c, u) && (u.left.Leaf? || u.right.Leaf?)
      modifies this`arena, this`root
      ensures State(arena, root, c, OnlyChild(u)) && arena.Keys == old(arena.Keys)
      ensures child == Root(OnlyChild(u)) && parent == UpAt(c) && color == u.color
      ensures n in old(arena) && arena[n] == old(arena)[n]
    {
      LinksAt(arena, root, c, u);
      child := if arena[n].left == NIL then arena[n].right else arena[n].left;
      parent := arena[n].parent;
      color := arena[n].color;
      ghost var s := OnlyChild(u);
      if s.Node? { LinksBelow(arena, root, c, u, s); }
      if child != NIL {
        arena := arena[child := arena[child].(parent := parent)];
      }
      if parent != NIL {
        if arena[parent].left == n {
          arena := arena[parent := arena[parent].(left := child)];
        } else {
          arena := arena[parent := arena[parent].(right := child)];
        }
      } else {
        root := child;
      }
      Spliced(old(arena), old(root), arena, root, c, u, s);
    }

    // The leftmost node of the right subtree (touchdb_rbtree.c:294-296).
    method Successor(oldN: nat, ghost c: Path, ghost t: Tree) returns (n: nat, ghost d: Path, ghost u: Tree)
      requires t.Node? && oldN == t.at && State(arena, root, c, t) && t.right.Node?
      ensures u.Node? && n == u.at && u.left.Leaf? && AllLeft(d) && Plug(d, u) == t.right
      ensures State(arena, root, Compose(d, InRight(t.at, t.color, t.key, t.val, t.left, c)), u)
    {
      LinksAt(arena, root, c, t);
      n := arena[oldN].right;
      ghost var e := InRight(t.at, t.color, t.key, t.val, t.left, c);
      d, u := Top, t.right;
      StateUp(arena, root, e, u);
      LinksAt(arena, root, e, u);
      while arena[n].left != NIL
        invariant u.Node? && n == u.at && AllLeft(d) && Plug(d, u) == t.right
        invariant State(arena, root, Compose(d, e), u)
        invariant n in arena && (arena[n].left == NIL <==> u.left.Leaf?) && arena[n].left == Root(u.left)
        decreases u
      {
        n := arena[n].left;
        d, u := InLeft(u.at, u.color, u.key, u.val, u.right, d), u.left;
        StateUp(arena, root, Compose(d, e), u);
        LinksAt(arena, root, Compose(d, e), u);
      }
    }

    // Node n takes over the place, links and colour of node `oldN` (touchdb_rbtree.c:312-327).
    method TakePlace(n: nat, oldN: nat, ghost c: Path, ghost t: Tree)
      requires t.Node? && oldN == t.at && State(arena, root, c, t) && t.left.Node?
      requires n != NIL && n in arena && n !in Offs(t) && n !in PathOffs(c)
      modifies this`arena, this`root
      ensures State(arena, root, c, t.(at := n, key := old(arena)[n].key, val := old(arena)[n].val))
      ensures arena.Keys == old(arena.Keys) && arena[oldN] == old(arena)[oldN]
    {
      hide State, Offs, PathOffs;
      LinksAt(arena, root, c, t);
      PlaceToTake(arena, root, c, t, n);
      var oldRec := arena[oldN];
      arena := arena[n := arena[n].(parent := oldRec.parent, left := oldRec.left, right := oldRec.right,
                                    color := oldRec.color)];
      var up := arena[oldN].parent;
      if up != NIL {
        if arena[up].left == oldN {
          arena := arena[up := arena[up].(left := n)];
        } else {
          arena := arena[up := arena[up].(right := n)];
        }
      } else {
        root := n;
      }
      var left := arena[oldN].left;
      arena := arena[left := arena[left].(parent := n)];
      if arena[oldN].right != NIL {
        var right := arena[oldN].right;
        arena := arena[right := arena[right].(parent := n)];
      }
      Replaced(old(arena), old(root), arena, root, c, t, n);
    }

    // The records around the place that n takes.
    lemma PlaceToTake(a: Arena, root: nat, c: Path, t: Tree, n: nat)
      requires t.Node? && State(a, root, c, t) && t.left.Node? && n !in Offs(t) && n !in PathOffs(c) && n != NIL
      ensures t.left.at in a && t.left.at != UpAt(c) && t.left.at != Root(t.right) && NIL !in a
      ensures a[t.left.at].parent == t.at
      ensures t.right.Node? ==> t.right.at in a && t.right.at != UpAt(c) && a[t.right.at].parent == t.at
      ensures n !in {t.at, t.left.at, Root(t.right), UpAt(c)}
    {
      LinksBelow(a, root, c, t, t.left);
      if t.right.Node? { LinksBelow(a, root, c, t, t.right); }
      assert t.left.at in Offs(t) && (t.right.Node? ==> t.right.at in Offs(t));
    }

    // Node n is taken out of the links (touchdb_rbtree.c:292-349). The result is the place where a black
    // node may now be missing.
    method Detach(oldN: nat, ghost c: Path, ghost t: Tree)
      returns (parent: nat, child: nat, color: Color, ghost e: Path, ghost x: Tree)
      requires t.Node? && oldN == t.at && State(arena, root, c, t)
      requires RedBlack(Plug(c, t)) && !IsRed(Plug(c, t))
      modifies this`arena, this`root
      ensures State(arena, root, e, x) && child == Root(x) && parent == UpAt(e)
      ensures InOrder(Plug(e, x)) == Without(c, t)
      ensures color == Black ==> Deficit(e, x)
      ensures color == Red ==> RedBlack(Plug(e, x)) && !IsRed(Plug(e, x))
      ensures arena.Keys == old(arena.Keys) && oldN !in Offs(x) && oldN !in PathOffs(e)
    {
      LinksAt(arena, root, c, t);
      if arena[oldN].left != NIL && arena[oldN].right != NIL {
        parent, child, color, e, x := DetachSucceeded(oldN, c, t);
      } else {
        child, parent, color := Bypass(oldN, c, t);
        e, x := c, OnlyChild(t);
        BypassedOrder(c, t);
        SpliceFacts(c, t);
      }
    }

    // The case of two children (touchdb_rbtree.c:294-327).
    method DetachSucceeded(oldN: nat, ghost c: Path, ghost t: Tree)
      returns (parent: nat, child: nat, color: Color, ghost e: Path, ghost x: Tree)
      requires t.Node? && oldN == t.at && State(arena, root, c, t) && t.left.Node? && t.right.Node?
      requires RedBlack(Plug(c, t)) && !IsRed(Plug(c, t))
      modifies this`arena, this`root
      ensures State(arena, root, e, x) && child == Root(x) && parent == UpAt(e)
      ensures InOrder(Plug(e, x)) == Without(c, t)
      ensures color == Black ==> Deficit(e, x)
      ensures color == Red ==> RedBlack(Plug(e, x)) && !IsRed(Plug(e, x))
      ensures arena.Keys == old(arena.Keys) && oldN !in Offs(x) && oldN !in PathOffs(e)
      ensures exists d, u ::
        SplicedOut(arena, root, c, t, d, u) && color == u.color && e == Vacated(c, t, d, u) && x == u.right
    {
      hide State, Deficit, RedBlack, InOrder, Offs, PathOffs, Without, AllLeft;
      var n;
      ghost var d, u;
      n, d, u := Successor(oldN, c, t);
      ghost var f := InRight(t.at, t.color, t.key, t.val, t.left, c);
      x := u.right;
      StateSeparate(arena, root, c, t);
      SuccessorPlace(c, t, d, u);
      SuccessorBalance(c, t, d, u);
      SucceededOrder(c, t, d, u);
      LinksAt(arena, root, Compose(d, f), u);
      child, parent, color := Bypass(n, Compose(d, f), u);
      StateCompose(arena, root, d, f, x);
      StateUp(arena, root, f, Plug(d, x));
      ghost var t' := Fill(f, Plug(d, x));
      LinksAt(arena, root, c, t');
      TakePlace(n, oldN, c, t');
      ghost var g := InRight(u.at, t.color, u.key, u.val, t.left, c);
      StateUp(arena, root, g, Plug(d, x));
      StateCompose(arena, root, d, g, x);
      e := Compose(d, g);
      // Repair of touchdb_rbtree.c:298 and :353: when the successor is the right child itself, its parent
      // is the node being removed, and the rebalancing has to start at the successor instead.
      if parent == oldN {
        parent := n;
      }
      assert SplicedOut(arena, root, c, t, d, u);
    }

    // touchdb_rbtree_del (touchdb_rbtree.c:284-355).
    method Del(k: CStr)
      requires Valid()
      modifies this, pool, pool.mem, pool.lists
      ensures Contents() == old(Contents()) - {k}
      ensures k !in old(Contents()) ==> arena == old(arena) && pool.live == old(pool.live)
      ensures k in old(Contents()) ==>
        exists h :: h in old(pool.live) && pool.live == old(pool.live) - {h}
                    && h + BLK_HDR_SIZE in old(arena) && arena.Keys == old(arena.Keys) - {h + BLK_HDR_SIZE}
                    && old(arena)[h + BLK_HDR_SIZE].key == k
      ensures Valid()
    {
      hide Pool.Consistent, State, RedBlack, Sorted, InOrder, ToMap, Brackets, Plug, Height;
      var oldN, parent;
      ghost var c, t, comparisons;
      oldN, parent, c, t, comparisons := GetNode(k);
      if oldN == NIL {
        return;
      }
      LinksAt(arena, root, c, t);
      assert pool.Live(oldN) && oldN - BLK_HDR_SIZE in old(pool.live);
      Remove(oldN, c, t);
    }

    // The node found is taken out and given back (touchdb_rbtree.c:291-354).
    method Remove(oldN: nat, ghost c: Path, ghost t: Tree)
      requires Valid() && t.Node? && oldN == t.at && State(arena, root, c, t) && Plug(c, t) == tree && pool.Live(oldN)
      modifies this, pool, pool.mem, pool.lists
      ensures Contents() == old(Contents()) - {t.key}
      ensures pool.live == old(pool.live) - {oldN - BLK_HDR_SIZE} && arena.Keys == old(arena.Keys) - {oldN}
      ensures Valid()
    {
      hide Pool.Consistent, State, RedBlack, Sorted, Deficit, Offs, PathOffs, Distinct, InOrder, ToMap, Plug, Without,
           SplicedOut;
      RemovedItem(c, t);
      StatePlug(arena, root, c, t);
      DistinctTree(arena, root, tree);
      var parent, child, color;
      ghost var e, x;
      parent, child, color, e, x := Detach(oldN, c, t);
      pool.Free(oldN);
      Rebalance(parent, child, color, e, x);
      WithoutOffs(c, t, tree);
      DroppedTree(arena, root, tree, oldN);
      arena := arena - {oldN};
    }

    // What follows the splice (touchdb_rbtree.c:351-354): a black node that went missing is made up for.
    method Rebalance(parent: nat, child: nat, color: Color, ghost e: Path, ghost x: Tree)
      requires State(arena, root, e, x) && child == Root(x) && parent == UpAt(e)
      requires color == Black ==> Deficit(e, x)
      requires color == Red ==> RedBlack(Plug(e, x)) && !IsRed(Plug(e, x))
      modifies this`arena, this`root, this`tree
      ensures State(arena, root, Top, tree) && RedBlack(tree) && !IsRed(tree)
      ensures InOrder(tree) == InOrder(Plug(e, x))
      ensures arena.Keys == old(arena.Keys)
    {
      hide State, RedBlack, Deficit, Plug, InOrder;
      tree := Plug(e, x);
      if color == Black {
        tree := DelFixup(parent, child, e, x);
      } else {
        StatePlug(arena, root, e, x);
      }
    }
  }

  // ----- runs

  datatype Step = Put(key: CStr, val: Val) | Remove(key: CStr)

  // The reference map after a run of steps.
  function Replayed(steps: seq<Step>): map<CStr, Val> {
    if steps == [] then map[]
    else
      var m, s := Replayed(steps[..|steps| - 1]), steps[|steps| - 1];
      if s.Put? then m[s.key := s.val] else m - {s.key}
  }

  // Step i is the last one for key k.
  predicate LastFor(steps: seq<Step>, k: CStr, i: nat) {
    i < |steps| && steps[i].key == k && forall j :: i < j < |steps| ==> steps[j].key != k
  }

  // The map has a key if and only if the last step for it was an insertion, and then that insertion's value.
  lemma {:induction false} ReplayedIs(steps: seq<Step>, k: CStr, i: nat)
    ensures LastFor(steps, k, i) ==>
      && (k in Replayed(steps) <==> steps[i].Put?)
      && (steps[i].Put? ==> Replayed(steps)[k] == steps[i].val)
    ensures (forall j :: 0 <= j < |steps| ==> steps[j].key != k) ==> k !in Replayed(steps)
  {
    if steps != [] {
      var n := |steps| - 1;
      ReplayedIs(steps[..n], k, i);
      if i < n && LastFor(steps, k, i) { assert steps[n].key != k && LastFor(steps[..n], k, i); }
    }
  }

  // Any run from the empty tree, of which `done` steps succeed: a step fails only for want of a node.
  method Replay(pool: Pool.Pool, steps: seq<Step>) returns (tree: RbTree, done: nat)
    requires pool.Valid()
    modifies pool, pool.mem, pool.lists
    ensures tree.pool == pool && done <= |steps| && tree.Valid() && tree.Contents() == Replayed(steps[..done])
    ensures done < |steps| ==> steps[done].Put? && pool.Exhausted(FreeListIdx(NODE_SIZE))
  {
    hide Pool.Consistent, State, RedBlack, Sorted, ToMap, InOrder;
    tree := new RbTree(pool);
    done := 0;
    while done < |steps|
      invariant done <= |steps| && tree.Valid() && tree.pool == pool && fresh(tree)
      invariant tree.Contents() == Replayed(steps[..done])
    {
      assert steps[..done + 1][..done] == steps[..done];
      if steps[done].Put? {
        var ok := tree.Insert(steps[done].key, steps[done].val);
        if !ok { return; }
      } else {
        tree.Del(steps[done].key);
      }
      done := done + 1;
    }
  }
}
