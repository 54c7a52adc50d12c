/** How an arena of linked node records represents a tree, and what single writes do to that tree. */
module RbArena {
  import opened CStrings
  import opened Values
  import opened RbTrees

  // A node record; left, right and parent are arena offsets, NIL for none.
  datatype Rec = Rec(left: nat, right: nat, parent: nat, color: Color, key: CStr, val: Val)

  type Arena = map<nat, Rec>

  // Tree t is stored in the arena with links both ways, under parent p.
  predicate Holds(a: Arena, t: Tree, p: nat)
    decreases t
  {
    t.Node? ==>
      && t.at != NIL && t.at in a
      && a[t.at] == Rec(Root(t.left), Root(t.right), p, t.color, t.key, t.val)
      && Holds(a, t.left, t.at) && Holds(a, t.right, t.at)
  }

  // The ancestors and side trees of path c are stored in the arena, and the hole is linked to `hole`.
  predicate HoldsPath(a: Arena, c: Path, hole: nat, root: nat) {
    match c
    case Top => root == hole
    case InLeft(at, col, k, v, r, up) =>
      && at != NIL && at in a && a[at] == Rec(hole, Root(r), UpAt(up), col, k, v)
      && Holds(a, r, at) && HoldsPath(a, up, at, root)
    case InRight(at, col, k, v, l, up) =>
      && at != NIL && at in a && a[at] == Rec(Root(l), hole, UpAt(up), col, k, v)
      && Holds(a, l, at) && HoldsPath(a, up, at, root)
  }

  // The arena stores Plug(c, t) under `root`.
  predicate State(a: Arena, root: nat, c: Path, t: Tree) {
    NIL !in a && Holds(a, t, UpAt(c)) && HoldsPath(a, c, Root(t), root) && Separate(c, t)
  }

  lemma StateUp(a: Arena, root: nat, c: Path, t: Tree)
    requires !c.Top?
    ensures State(a, root, c, t) <==> State(a, root, c.up, Fill(c, t))
  {
  }

  lemma StateSide(a: Arena, root: nat, c: Path, t: Tree)
    requires !c.Top?
    ensures State(a, root, c, t) <==> State(a, root, SidePath(c, t), Side(c))
  {
    StateUp(a, root, c, t);
    StateUp(a, root, SidePath(c, t), Side(c));
  }

  lemma {:induction false} StatePlug(a: Arena, root: nat, c: Path, t: Tree)
    ensures State(a, root, c, t) <==> State(a, root, Top, Plug(c, t))
    decreases c
  {
    if !c.Top? {
      StateUp(a, root, c, t);
      StatePlug(a, root, c.up, Fill(c, t));
    }
  }

  lemma {:induction false} StateCompose(a: Arena, root: nat, d: Path, e: Path, t: Tree)
    ensures State(a, root, Compose(d, e), t) <==> State(a, root, e, Plug(d, t))
    decreases d
  {
    if !d.Top? {
      StateUp(a, root, Compose(d, e), t);
      StateCompose(a, root, d.up, e, Fill(d, t));
    }
  }

  lemma {:induction false} HeldOffsets(a: Arena, t: Tree, p: nat)
    requires Holds(a, t, p)
    ensures Offs(t) <= a.Keys && NIL !in Offs(t)
  {
    if t.Node? {
      HeldOffsets(a, t.left, t.at);
      HeldOffsets(a, t.right, t.at);
    }
  }

  lemma {:induction false} HeldPathOffsets(a: Arena, c: Path, hole: nat, root: nat)
    requires HoldsPath(a, c, hole, root)
    ensures PathOffs(c) <= a.Keys && NIL !in PathOffs(c)
  {
    if !c.Top? {
      HeldOffsets(a, if c.InLeft? then c.right else c.left, c.at);
      HeldPathOffsets(a, c.up, c.at, root);
    }
  }

  // Linked records determine the tree they spell.
  lemma {:induction false} HeldTreeUnique(a: Arena, t: Tree, t': Tree, p: nat)
    requires Holds(a, t, p) && Holds(a, t', p) && Root(t) == Root(t')
    ensures t == t'
  {
    if t.Node? {
      HeldTreeUnique(a, t.left, t'.left, t.at);
      HeldTreeUnique(a, t.right, t'.right, t.at);
    }
  }

  // And the tree determines the records.
  lemma {:induction false} HeldRecordsUnique(a: Arena, a': Arena, t: Tree, p: nat)
    requires Holds(a, t, p) && Holds(a', t, p)
    ensures forall o :: o in Offs(t) ==> o in a && o in a' && a[o] == a'[o]
  {
    if t.Node? {
      HeldRecordsUnique(a, a', t.left, t.at);
      HeldRecordsUnique(a, a', t.right, t.at);
    }
  }

  // The links around the end of path c, and around a child of the node there.
  lemma LinksAt(a: Arena, root: nat, c: Path, t: Tree)
    requires t.Node? && State(a, root, c, t)
    ensures t.at != NIL && t.at in a
    ensures a[t.at] == Rec(Root(t.left), Root(t.right), UpAt(c), t.color, t.key, t.val)
    ensures Root(t.left) == NIL <==> t.left.Leaf?
    ensures Root(t.right) == NIL <==> t.right.Leaf?
    ensures Root(t.left) != t.at && Root(t.right) != t.at && t.at != UpAt(c)
    ensures c.Top? <==> UpAt(c) == NIL
    ensures c.Top? ==> root == t.at
    ensures !c.Top? ==> UpAt(c) in a && UpAt(c) !in Offs(t)
    ensures c.InLeft? ==> a[UpAt(c)].left == t.at && a[UpAt(c)].right != t.at
    ensures c.InRight? ==> a[UpAt(c)].right == t.at && a[UpAt(c)].left != t.at
  {
    HeldOffsets(a, t, UpAt(c));
    HeldPathOffsets(a, c, t.at, root);
  }

  // The parent and the sibling at the end of path c.
  lemma LinksAround(a: Arena, root: nat, c: Path, t: Tree)
    requires State(a, root, c, t)
    ensures c.Top? <==> UpAt(c) == NIL
    ensures c.Top? <==> root == Root(t)
    ensures t.Node? ==> t.at != NIL && t.at in a && a[t.at].parent == UpAt(c) && a[t.at].color == t.color
    ensures !c.Top? ==>
              && c.at in a
              && a[c.at] == (if c.InLeft? then Rec(Root(t), Root(c.right), UpAt(c.up), c.color, c.key, c.val)
                             else Rec(Root(c.left), Root(t), UpAt(c.up), c.color, c.key, c.val))
    ensures !c.Top? && Side(c).Node? ==>
              && Side(c).at != NIL && Side(c).at in a && Root(t) != Side(c).at
              && (var s := Side(c); a[s.at] == Rec(Root(s.left), Root(s.right), c.at, s.color, s.key, s.val))
              && forall v :: v in [Side(c).left, Side(c).right] && v.Node? ==>
                   v.at in a && v.at != NIL && a[v.at].color == v.color
  {
    if t.Node? { LinksAt(a, root, c, t); }
    if !c.Top? {
      RootOnPath(a, c, Root(t), root);
      HeldPathOffsets(a, c, Root(t), root);
      HeldOffsets(a, t, c.at);
      StateSide(a, root, c, t);
      var u := Side(c);
      if u.Node? {
        LinksAt(a, root, SidePath(c, t), u);
        if u.left.Node? { LinksBelow(a, root, SidePath(c, t), u, u.left); }
        if u.right.Node? { LinksBelow(a, root, SidePath(c, t), u, u.right); }
      }
    }
  }

  lemma {:induction false} RootOnPath(a: Arena, c: Path, hole: nat, root: nat)
    requires HoldsPath(a, c, hole, root) && !c.Top?
    ensures root in PathOffs(c)
  {
    if !c.up.Top? {
      RootOnPath(a, c.up, c.at, root);
    }
  }

  lemma LinksBelow(a: Arena, root: nat, c: Path, t: Tree, u: Tree)
    requires t.Node? && State(a, root, c, t) && (u == t.left || u == t.right) && u.Node?
    ensures u.at in a && u.at != UpAt(c)
    ensures a[u.at] == Rec(Root(u.left), Root(u.right), t.at, u.color, u.key, u.val)
    ensures forall v :: v in [u.left, u.right] && v.Node? ==>
              v.at in a && v.at in Offs(u) && v.at != t.at && v.at != u.at && v.at != UpAt(c)
  {
    assert Holds(a, u, t.at);
    assert Distinct(u);
    assert t.left.Node? && t.right.Node? ==> Offs(t.left) !! Offs(t.right);
    HeldOffsets(a, t, UpAt(c));
    HeldPathOffsets(a, c, t.at, root);
  }

  lemma {:induction false} HeldPathUnique(a: Arena, a': Arena, c: Path, hole: nat, root: nat, root': nat)
    requires HoldsPath(a, c, hole, root) && HoldsPath(a', c, hole, root')
    ensures root == root' && forall o :: o in PathOffs(c) ==> o in a && o in a' && a[o] == a'[o]
  {
    if !c.Top? {
      HeldRecordsUnique(a, a', Side(c), c.at);
      HeldPathUnique(a, a', c.up, c.at, root, root');
    }
  }

  // Two arenas that represent the same tree in the same place, and agree elsewhere, are the same.
  lemma StateUnique(a: Arena, root: nat, a': Arena, root': nat, c: Path, t: Tree)
    requires State(a, root, c, t) && State(a', root', c, t) && a.Keys == a'.Keys
    requires forall o :: o in a && o !in Offs(t) && o !in PathOffs(c) ==> a[o] == a'[o]
    ensures a == a' && root == root'
  {
    HeldRecordsUnique(a, a', t, UpAt(c));
    HeldPathUnique(a, a', c, Root(t), root, root');
  }

  // ----- writes outside a tree, or to its root's parent link only

  lemma {:induction false} HoldsMoved(a: Arena, a': Arena, t: Tree, p: nat, q: nat)
    requires Holds(a, t, p) && Distinct(t)
    requires forall o :: o in Offs(t) && o in a ==>
               o in a' && a'[o] == if o == Root(t) then a[o].(parent := q) else a[o]
    ensures Holds(a', t, q)
  {
    if t.Node? {
      HoldsMoved(a, a', t.left, t.at, t.at);
      HoldsMoved(a, a', t.right, t.at, t.at);
    }
  }

  // The record of a parent whose child at the end of path c becomes h.
  function Relinked(c: Path, r: Rec, h: nat): Rec {
    if c.InLeft? then r.(left := h) else r.(right := h)
  }

  lemma {:induction false} HoldsPathMoved(a: Arena, a': Arena, c: Path, h: nat, h': nat, root: nat, root': nat)
    requires HoldsPath(a, c, h, root) && PathDistinct(c)
    requires forall o :: o in PathOffs(c) && o in a ==>
               o in a' && a'[o] == if o == UpAt(c) then Relinked(c, a[o], h') else a[o]
    requires root' == if c.Top? then h' else root
    ensures HoldsPath(a', c, h', root')
  {
    if !c.Top? {
      HoldsMoved(a, a', if c.InLeft? then c.right else c.left, c.at, c.at);
      if !c.up.Top? {
        assert a[c.up.at] == Relinked(c.up, a[c.up.at], c.at);
      }
      HoldsPathMoved(a, a', c.up, c.at, c.at, root, root);
    }
  }

  // ----- what each structural step does to the represented tree

  lemma Painted(a: Arena, root: nat, c: Path, t: Tree, col: Color)
    requires t.Node? && State(a, root, c, t)
    ensures t.at in a
    ensures State(a[t.at := a[t.at].(color := col)], root, c, Paint(t, col))
  {
    var a' := a[t.at := a[t.at].(color := col)];
    HoldsMoved(a, a', t.left, t.at, t.at);
    HoldsMoved(a, a', t.right, t.at, t.at);
    HoldsPathMoved(a, a', c, t.at, t.at, root, root);
  }

  // t at the end of path c gives way to a subtree s of t: `a'` relinks s and the parent to each other.
  lemma Spliced(a: Arena, root: nat, a': Arena, root': nat, c: Path, t: Tree, s: Tree)
    requires t.Node? && State(a, root, c, t) && (s == t.left || s == t.right)
    requires a'.Keys == a.Keys
    requires root' == if c.Top? then Root(s) else root
    requires forall o :: o in a ==>
               a'[o] == (if s.Node? && o == Root(s) then a[o].(parent := UpAt(c))
               else if !c.Top? && o == UpAt(c) then Relinked(c, a[o], Root(s))
               else a[o])
    ensures State(a', root', c, s)
  {
    HeldOffsets(a, t, UpAt(c));
    HeldPathOffsets(a, c, t.at, root);
    HoldsMoved(a, a', s, t.at, UpAt(c));
    HoldsPathMoved(a, a', c, t.at, Root(s), root, root');
  }

  lemma RotatedLeftState(a: Arena, root: nat, a': Arena, root': nat, c: Path, t: Tree)
    requires t.Node? && t.right.Node? && State(a, root, c, t)
    requires a'.Keys == a.Keys
    requires root' == if c.Top? then t.right.at else root
    requires var n, r, m := t.at, t.right.at, Root(t.right.left);
             forall o :: o in a ==>
               a'[o] == (if o == n then a[o].(right := m, parent := r)
               else if o == r then a[o].(left := n, parent := UpAt(c))
               else if o == m then a[o].(parent := n)
               else if o == UpAt(c) then Relinked(c, a[o], r)
               else a[o])
    ensures State(a', root', c, RotatedLeft(t))
  {
    hide State, Holds, HoldsPath, Distinct, PathDistinct, Separate, Offs, PathOffs, RotatedLeft;
    PartsLeft(a, root, c, t);
    HoldsMoved(a, a', t.left, t.at, t.at);
    HoldsMoved(a, a', t.right.left, t.right.at, t.at);
    HoldsMoved(a, a', t.right.right, t.right.at, t.right.at);
    HoldsPathMoved(a, a', c, t.at, t.right.at, root, root');
    PartsLeftRotated(a, a', root, root', c, t);
  }

  // What the records spell, part by part, around a left rotation, and that the parts do not overlap.
  lemma PartsLeft(a: Arena, root: nat, c: Path, t: Tree)
    requires t.Node? && t.right.Node? && State(a, root, c, t)
    ensures NIL !in a && t.at in a && t.right.at in a && t.at != t.right.at && UpAt(c) !in {t.at, t.right.at}
    ensures a[t.at] == Rec(Root(t.left), t.right.at, UpAt(c), t.color, t.key, t.val)
    ensures a[t.right.at]
      == Rec(Root(t.right.left), Root(t.right.right), t.at, t.right.color, t.right.key, t.right.val)
    ensures Holds(a, t.left, t.at) && Holds(a, t.right.left, t.right.at) && Holds(a, t.right.right, t.right.at)
    ensures HoldsPath(a, c, t.at, root)
    ensures Distinct(t.left) && Distinct(t.right.left) && Distinct(t.right.right) && PathDistinct(c)
    ensures forall s :: s in [t.left, t.right.left, t.right.right] ==>
      t.at !in Offs(s) && t.right.at !in Offs(s) && UpAt(c) !in Offs(s) && NIL !in Offs(s)
    ensures Root(t.right.left) !in Offs(t.left) && Root(t.right.left) !in Offs(t.right.right)
    ensures t.at !in PathOffs(c) && t.right.at !in PathOffs(c) && Root(t.right.left) !in PathOffs(c)
    ensures Root(t.right.left) !in {t.at, t.right.at} && (Root(t.right.left) == UpAt(c) ==> UpAt(c) == NIL)
    ensures Root(t.right.left) != NIL ==> Root(t.right.left) in Offs(t.right.left)
  {
    HeldOffsets(a, t, UpAt(c));
    HeldPathOffsets(a, c, t.at, root);
    assert Holds(a, t.right, t.at) && Distinct(t.right);
    assert Offs(t.right) == {t.right.at} + Offs(t.right.left) + Offs(t.right.right);
    assert Offs(t) == {t.at} + Offs(t.left) + Offs(t.right);
    assert !c.Top? ==> UpAt(c) in PathOffs(c);
  }

  lemma PartsLeftRotated(a: Arena, a': Arena, root: nat, root': nat, c: Path, t: Tree)
    requires t.Node? && t.right.Node? && State(a, root, c, t) && a'.Keys == a.Keys
    requires t.at in a && t.right.at in a
    requires a'[t.at] == Rec(Root(t.left), Root(t.right.left), t.right.at, t.color, t.key, t.val)
    requires a'[t.right.at] == Rec(t.at, Root(t.right.right), UpAt(c), t.right.color, t.right.key, t.right.val)
    requires Holds(a', t.left, t.at) && Holds(a', t.right.left, t.at) && Holds(a', t.right.right, t.right.at)
    requires HoldsPath(a', c, t.right.at, root')
    ensures State(a', root', c, RotatedLeft(t))
  {
    RotatedLeftFacts(t);
    HeldOffsets(a, t, UpAt(c));
  }

  lemma RotatedRightState(a: Arena, root: nat, a': Arena, root': nat, c: Path, t: Tree)
    requires t.Node? && t.left.Node? && State(a, root, c, t)
    requires a'.Keys == a.Keys
    requires root' == if c.Top? then t.left.at else root
    requires var n, l, m := t.at, t.left.at, Root(t.left.right);
             forall o :: o in a ==>
               a'[o] == (if o == n then a[o].(left := m, parent := l)
               else if o == l then a[o].(right := n, parent := UpAt(c))
               else if o == m then a[o].(parent := n)
               else if o == UpAt(c) then Relinked(c, a[o], l)
               else a[o])
    ensures State(a', root', c, RotatedRight(t))
  {
    hide State, Holds, HoldsPath, Distinct, PathDistinct, Separate, Offs, PathOffs, RotatedRight;
    PartsRight(a, root, c, t);
    HoldsMoved(a, a', t.right, t.at, t.at);
    HoldsMoved(a, a', t.left.right, t.left.at, t.at);
    HoldsMoved(a, a', t.left.left, t.left.at, t.left.at);
    HoldsPathMoved(a, a', c, t.at, t.left.at, root, root');
    PartsRightRotated(a, a', root, root', c, t);
  }

  // What the records spell, part by part, around a right rotation, and that the parts do not overlap.
  lemma PartsRight(a: Arena, root: nat, c: Path, t: Tree)
    requires t.Node? && t.left.Node? && State(a, root, c, t)
    ensures NIL !in a && t.at in a && t.left.at in a && t.at != t.left.at && UpAt(c) !in {t.at, t.left.at}
    ensures a[t.at] == Rec(t.left.at, Root(t.right), UpAt(c), t.color, t.key, t.val)
    ensures a[t.left.at]
      == Rec(Root(t.left.left), Root(t.left.right), t.at, t.left.color, t.left.key, t.left.val)
    ensures Holds(a, t.right, t.at) && Holds(a, t.left.right, t.left.at) && Holds(a, t.left.left, t.left.at)
    ensures HoldsPath(a, c, t.at, root)
    ensures Distinct(t.right) && Distinct(t.left.right) && Distinct(t.left.left) && PathDistinct(c)
    ensures forall s :: s in [t.right, t.left.right, t.left.left] ==>
      t.at !in Offs(s) && t.left.at !in Offs(s) && UpAt(c) !in Offs(s) && NIL !in Offs(s)
    ensures Root(t.left.right) !in Offs(t.right) && Root(t.left.right) !in Offs(t.left.left)
    ensures t.at !in PathOffs(c) && t.left.at !in PathOffs(c) && Root(t.left.right) !in PathOffs(c)
    ensures Root(t.left.right) !in {t.at, t.left.at} && (Root(t.left.right) == UpAt(c) ==> UpAt(c) == NIL)
    ensures Root(t.left.right) != NIL ==> Root(t.left.right) in Offs(t.left.right)
  {
    HeldOffsets(a, t, UpAt(c));
    HeldPathOffsets(a, c, t.at, root);
    assert Holds(a, t.left, t.at) && Distinct(t.left);
    assert Offs(t.left) == {t.left.at} + Offs(t.left.right) + Offs(t.left.left);
    assert Offs(t) == {t.at} + Offs(t.right) + Offs(t.left);
    assert !c.Top? ==> UpAt(c) in PathOffs(c);
  }

  lemma PartsRightRotated(a: Arena, a': Arena, root: nat, root': nat, c: Path, t: Tree)
    requires t.Node? && t.left.Node? && State(a, root, c, t) && a'.Keys == a.Keys
    requires t.at in a && t.left.at in a
    requires a'[t.at] == Rec(Root(t.left.right), Root(t.right), t.left.at, t.color, t.key, t.val)
    requires a'[t.left.at] == Rec(Root(t.left.left), t.at, UpAt(c), t.left.color, t.left.key, t.left.val)
    requires Holds(a', t.right, t.at) && Holds(a', t.left.right, t.at) && Holds(a', t.left.left, t.left.at)
    requires HoldsPath(a', c, t.left.at, root')
    ensures State(a', root', c, RotatedRight(t))
  {
    RotatedRightFacts(t);
    HeldOffsets(a, t, UpAt(c));
  }

  // The root of t is replaced by record n, which takes over its place, links and colour.
  lemma Replaced(a: Arena, root: nat, a': Arena, root': nat, c: Path, t: Tree, n: nat)
    requires t.Node? && State(a, root, c, t)
    requires n != NIL && n in a && n !in Offs(t) && n !in PathOffs(c)
    requires a'.Keys == a.Keys
    requires root' == if c.Top? then n else root
    requires forall o :: o in a ==>
               a'[o] == (if o == n then a[t.at].(key := a[n].key, val := a[n].val)
               else if o == Root(t.left) || o == Root(t.right) then a[o].(parent := n)
               else if o == UpAt(c) then Relinked(c, a[o], n)
               else a[o])
    ensures State(a', root', c, t.(at := n, key := a[n].key, val := a[n].val))
  {
    hide State, Holds, HoldsPath, Distinct, PathDistinct, Separate, Offs, PathOffs;
    PartsAround(a, root, c, t, n);
    HoldsMoved(a, a', t.left, t.at, n);
    HoldsMoved(a, a', t.right, t.at, n);
    HoldsPathMoved(a, a', c, t.at, n, root, root');
    PartsReplaced(a, a', root, root', c, t, n);
  }

  // What the records spell around a node, and that the parts do not overlap, nor have the offset n.
  lemma PartsAround(a: Arena, root: nat, c: Path, t: Tree, n: nat)
    requires t.Node? && State(a, root, c, t) && n != NIL && n !in Offs(t) && n !in PathOffs(c)
    ensures NIL !in a && t.at in a && n !in {t.at, UpAt(c), Root(t.left), Root(t.right)}
    ensures a[t.at] == Rec(Root(t.left), Root(t.right), UpAt(c), t.color, t.key, t.val)
    ensures Holds(a, t.left, t.at) && Holds(a, t.right, t.at) && HoldsPath(a, c, t.at, root)
    ensures Distinct(t.left) && Distinct(t.right) && PathDistinct(c)
    ensures forall s :: s in [t.left, t.right] ==>
      && n !in Offs(s) && UpAt(c) !in Offs(s) && NIL !in Offs(s)
      && (Root(s) != NIL ==> Root(s) in Offs(s) && Root(s) !in PathOffs(c) && Root(s) != UpAt(c))
    ensures Root(t.left) !in Offs(t.right) && Root(t.right) !in Offs(t.left)
    ensures NIL !in PathOffs(c)
  {
    HeldOffsets(a, t, UpAt(c));
    HeldPathOffsets(a, c, t.at, root);
    assert !c.Top? ==> UpAt(c) in PathOffs(c);
  }

  lemma PartsReplaced(a: Arena, a': Arena, root: nat, root': nat, c: Path, t: Tree, n: nat)
    requires t.Node? && State(a, root, c, t) && n != NIL && n in a && n !in Offs(t) && n !in PathOffs(c)
    requires a'.Keys == a.Keys && t.at in a && a'[n] == a[t.at].(key := a[n].key, val := a[n].val)
    requires Holds(a', t.left, n) && Holds(a', t.right, n) && HoldsPath(a', c, n, root')
    ensures State(a', root', c, t.(at := n, key := a[n].key, val := a[n].val))
  {
  }

  // A record that the represented tree does not use may change or go.
  lemma Unaffected(a: Arena, a': Arena, root: nat, c: Path, t: Tree)
    requires State(a, root, c, t)
    requires forall o :: o in a && (o in Offs(t) || o in PathOffs(c)) ==> o in a' && a'[o] == a[o]
    requires NIL !in a'
    ensures State(a', root, c, t)
  {
    if t.Node? {
      assert a[t.at] == a[t.at].(parent := UpAt(c));
    }
    HoldsMoved(a, a', t, UpAt(c), UpAt(c));
    if !c.Top? {
      assert a[c.at] == Relinked(c, a[c.at], Root(t));
    }
    HoldsPathMoved(a, a', c, Root(t), Root(t), root, root);
  }

  lemma Revalued(a: Arena, root: nat, c: Path, t: Tree, v: Val)
    requires t.Node? && State(a, root, c, t)
    ensures t.at in a
    ensures State(a[t.at := a[t.at].(val := v)], root, c, t.(val := v))
  {
    var a' := a[t.at := a[t.at].(val := v)];
    HoldsMoved(a, a', t.left, t.at, t.at);
    HoldsMoved(a, a', t.right, t.at, t.at);
    HoldsPathMoved(a, a', c, t.at, t.at, root, root);
  }

  // A new record n without children is linked in at an empty place.
  lemma Attached(a: Arena, root: nat, a': Arena, root': nat, c: Path, n: nat, col: Color, k: CStr, v: Val)
    requires State(a, root, c, Leaf) && n != NIL && n !in a
    requires a'.Keys == a.Keys + {n} && a'[n] == Rec(NIL, NIL, UpAt(c), col, k, v)
    requires root' == if c.Top? then n else root
    requires forall o :: o in a ==> a'[o] == if !c.Top? && o == UpAt(c) then Relinked(c, a[o], n) else a[o]
    ensures State(a', root', c, Node(n, col, k, v, Leaf, Leaf))
  {
    HeldPathOffsets(a, c, NIL, root);
    HoldsPathMoved(a, a', c, NIL, n, root, root');
  }

  lemma DroppedState(a: Arena, root: nat, c: Path, t: Tree, n: nat)
    requires State(a, root, c, t) && n !in Offs(t) && n !in PathOffs(c)
    ensures State(a - {n}, root, c, t)
  {
    HeldOffsets(a, t, UpAt(c));
    HeldPathOffsets(a, c, Root(t), root);
    Unaffected(a, a - {n}, root, c, t);
  }

  lemma DroppedTree(a: Arena, root: nat, t: Tree, n: nat)
    requires State(a, root, Top, t) && n !in Offs(t)
    ensures State(a - {n}, root, Top, t)
  {
    DroppedState(a, root, Top, t, n);
  }

  lemma StateSeparate(a: Arena, root: nat, c: Path, t: Tree)
    requires State(a, root, c, t)
    ensures Separate(c, t)
  {
  }

  lemma NilOutside(a: Arena, root: nat, c: Path, t: Tree)
    requires State(a, root, c, t)
    ensures NIL !in a
  {
  }

  lemma DistinctTree(a: Arena, root: nat, t: Tree)
    requires State(a, root, Top, t)
    ensures Distinct(t)
  {
  }
}
