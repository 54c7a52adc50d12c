/** touchdb_rbtree_del with the parent that src/touchdb_rbtree.c:298 and :353 hand to del_fixup, all else repaired:
    exactly when it comes out right. The removed node's record is read after its block has been given back, which
    leaves its bytes alone. */
module DelAsWritten {
  import opened Values
  import opened RbTrees
  import opened RbArena
  import opened RbRecords
  import opened RbContents

  // The records, without that of the removed node, are those of a red-black tree.
  ghost predicate TreeWithout(a: Arena, root: nat, o: nat) {
    exists s :: State(a - {o}, root, Top, s) && (a - {o}).Keys == Offs(s) && RedBlack(s)
  }

  ghost predicate Spoilt(r: Outcome, o: nat) {
    r.Crash? || (r.Done? && !TreeWithout(r.arena, r.root, o))
  }

  // ----- what the deletion hands over

  // The parent as it was before the splice.
  function ParentAsWritten(c: Path, t: Tree, d: Path): nat
    requires t.Node?
  {
    UpAt(Compose(d, InRight(t.at, t.color, t.key, t.val, t.left, c)))
  }

  // The successor is the right child, black and without children of its own.
  predicate BareRight(t: Tree, u: Tree)
    requires t.Node? && u.Node?
  {
    t.right == u && u.color == Black && u.right.Leaf?
  }

  // The one way in which the wrong parent does no harm: the sibling, black and without children, goes red, and
  // the black removed node passes for its successor as a right child from then on.
  predicate Harmless(c: Path, t: Tree)
    requires t.Node? && t.left.Node?
  {
    t.color == Black && c.InRight? && t.left.left.Leaf? && t.left.right.Leaf?
  }

  // The place handed over is where a black node is missing, or it is not looked at, unless the successor is bare.
  lemma DelParentAsWritten(c: Path, t: Tree, d: Path, u: Tree)
    requires t.Node? && u.Node? && u.left.Leaf? && Plug(d, u) == t.right && Separate(c, t)
    requires RedBlack(Plug(c, t)) && !IsRed(Plug(c, t))
    ensures u.color == Black ==> Deficit(Vacated(c, t, d, u), u.right)
    ensures u.color == Red || IsRed(u.right) || ParentAsWritten(c, t, d) == UpAt(Vacated(c, t, d, u))
      <==> !BareRight(t, u)
  {
    SuccessorBalance(c, t, d, u);
    SuccessorPlace(c, t, d, u);
    SizePlug(d, u);
    RedBlackPlug(c, t);
    RedBlackPlug(d, u);
  }

  // ----- what spoils the records

  lemma {:induction false} HeldRecord(a: Arena, t: Tree, p: nat, k: nat)
    requires Holds(a, t, p) && RedBlack(t) && k in Offs(t)
    ensures k in a
    ensures a[k].left != NIL ==> a[k].left in a
    ensures a[k].right != NIL ==> a[k].right in a
    ensures a[k].left != NIL && a[k].color == Red ==> a[a[k].left].color == Black
    ensures a[k].left == NIL && a[k].right != NIL ==> a[a[k].right].color == Red && a[a[k].right].left == NIL
  {
    if k in Offs(t.left) {
      HeldRecord(a, t.left, t.at, k);
    } else if k in Offs(t.right) {
      HeldRecord(a, t.right, t.at, k);
    } else {
      HeldChild(a, t.left, t.at);
      HeldChild(a, t.right, t.at);
    }
  }

  lemma HeldChild(a: Arena, t: Tree, p: nat)
    requires Holds(a, t, p) && RedBlack(t)
    ensures Root(t) != NIL ==> t.Node? && t.at in a && a[t.at].color == t.color && a[t.at].left == Root(t.left)
    ensures BlackHeight(t) == 0 && t.Node? ==> t.color == Red && t.left.Leaf?
    ensures BlackHeight(t) > 0 ==> Root(t) != NIL
  {
  }

  // A record that links to the removed one, a red one with a red left child, and one with only a right child
  // that is black or has children.
  lemma SpoiltBy(a: Arena, root: nat, o: nat, k: nat)
    requires k in a && k != o && o != NIL
    requires
      || a[k].left == o || a[k].right == o
      || (a[k].color == Red && RedAt(a, a[k].left) && a[k].left != o && a[k].left != NIL)
      || (a[k].left == NIL && a[k].right in a && a[k].right != o && a[k].right != NIL
          && (a[a[k].right].color == Black || a[a[k].right].left != NIL))
    ensures !TreeWithout(a, root, o)
  {
    var b := a - {o};
    forall s ensures !(State(b, root, Top, s) && b.Keys == Offs(s) && RedBlack(s)) {
      if State(b, root, Top, s) && b.Keys == Offs(s) && RedBlack(s) {
        HeldRecord(b, s, NIL, k);
      }
    }
  }

  // After right_rotate of n its former left child k links to it.
  lemma RotatedLinks(a: Arena, root: nat, n: nat, k: nat)
    requires n in a && k in a && NIL !in a && k == a[n].left && k != n && a[n].parent !in {k, n} && a[k].right != n
    ensures var b := Rotated(a, root, n, true).0;
      && b.Keys == a.Keys && b[k].right == n && b[n].left == a[k].right && b[n].parent == k
      && b[k].color == a[k].color && b[n].color == a[n].color && b[n].right == a[n].right
  {
  }

  // Sharing with the removed node as the parent leaves it linked.
  lemma SharedSpoils(a: Arena, root: nat, o: nat, k: nat)
    requires o in a && k in a && NIL !in a && k == a[o].left && k != o && a[o].parent !in {k, o} && a[k].right != o
    ensures var b := Shared(a, root, o, k, true).0;
      k in b && b[k].right == o
  {
    hide Rotated;
    var a1 := Coloured(Coloured(a, k, a[o].color), o, Black);
    var a2 := Coloured(a1, Kid(a1, k, false), Black);
    RotatedLinks(a2, root, o, k);
  }

  // ----- a bare successor: the records around the removed node and its left child

  // o is the removed node, v its successor, l the left child of both, p the parent of both.
  predicate Around(a: Arena, root: nat, o: nat, v: nat, l: nat, p: nat, col: Color) {
    && NIL !in a && o in a && v in a && l in a && o != v && o != l && v != l && p !in {o, v, l}
    && root != o && root != NIL
    && (p == NIL <==> root == v) && (p != NIL ==> p in a && a[p].left != o && a[p].right != o)
    && a[o].left == l && a[o].right == NIL && a[o].parent == p && a[o].color == col
    && a[v].left == l && a[v].right == NIL && a[v].parent == p && a[v].color == col
    && a[l].parent == v
  }

  // A child k of node n that is none of the nodes in `apart`.
  predicate ChildApart(a: Arena, k: nat, apart: set<nat>) {
    k != NIL ==> k in a && k !in apart
  }

  lemma SplicedAround(a: Arena, root: nat, c: Path, t: Tree, u: Tree)
    requires SplicedOut(a, root, c, t, Top, u) && BareRight(t, u)
    ensures var l := t.left;
      && Around(a, root, t.at, u.at, l.at, UpAt(c), t.color)
      && a[l.at].color == l.color && a[l.at].left == Root(l.left) && a[l.at].right == Root(l.right)
      && RedBlack(l) && BlackHeight(l) == 1
      && (forall x :: x in [l.left, l.right] && x.Node? ==>
            x.at in a && x.at !in {NIL, t.at, u.at, l.at, UpAt(c)} && a[x.at].color == x.color
            && a[x.at].left == Root(x.left) && a[x.at].right == Root(x.right) && a[x.at].parent == l.at)
      && State(a, root, c, Node(u.at, t.color, u.key, u.val, t.left, Leaf))
      && t.at !in PathOffs(c) && t.at !in Offs(l)
  {
    var v := Node(u.at, t.color, u.key, u.val, t.left, Leaf);
    StateUp(a, root, Vacated(c, t, Top, u), Leaf);
    RedBlackPlug(c, t);
    var s := InLeft(u.at, t.color, u.key, u.val, Leaf, c);
    assert Fill(s, t.left) == v;
    StateUp(a, root, s, t.left);
    LinksAt(a, root, c, v);
    LinksBelow(a, root, c, v, t.left);
    if t.left.left.Node? { NephewAround(a, root, c, t, u, t.left.left); }
    if t.left.right.Node? { NephewAround(a, root, c, t, u, t.left.right); }
    LinksAround(a, root, c, v);
    if !c.Top? { RootOnPath(a, c, v.at, root); HeldPathOffsets(a, c, v.at, root); }
  }

  lemma NephewAround(a: Arena, root: nat, c: Path, t: Tree, u: Tree, x: Tree)
    requires t.Node? && u.Node? && t.left.Node? && t.at !in Offs(t.left)
    requires x.Node? && (x == t.left.left || x == t.left.right)
    requires State(a, root, InLeft(u.at, t.color, u.key, u.val, Leaf, c), t.left)
    ensures x.at in a && x.at !in {NIL, t.at, u.at, t.left.at, UpAt(c)} && a[x.at].color == x.color
    ensures a[x.at].left == Root(x.left) && a[x.at].right == Root(x.right) && a[x.at].parent == t.left.at
  {
    var s := InLeft(u.at, t.color, u.key, u.val, Leaf, c);
    LinksBelow(a, root, s, t.left, x);
    HeldOffsets(a, t.left, u.at);
    assert x.at in Offs(t.left) && (!c.Top? ==> UpAt(c) in PathOffs(s));
  }

  // The near nephew r of a black node n under q comes up, and q has it as left child.
  lemma TurnedUp(a: Arena, root: nat, n: nat, q: nat, r: nat)
    requires NIL !in a && n in a && q in a && r in a && n != q && n != r && q != r
    requires a[n].right == r && a[n].parent == q && a[q].right != n && !RedAt(a, a[n].left)
    requires ChildApart(a, a[r].left, {n, q, r})
    ensures var b := Turned(a, root, n, true).0;
      && b.Keys == a.Keys && b[q] == a[q].(left := r) && b[n].right == a[r].left
      && b[r].left == n && b[r].right == a[r].right
      && (forall o :: o in a && o !in {n, q, r, a[r].left} ==> b[o] == a[o])
  {
  }

  // Two levels of children below node n, all apart from the given nodes: none but red ones without children
  // below the first.
  predicate Below(a: Arena, n: nat, apart: set<nat>) {
    n in a && n in apart && NIL !in a && ChildApart(a, a[n].left, apart) && ChildApart(a, a[n].right, apart)
    && (a[n].right in a && RedAt(a, a[n].right) ==> a[a[n].right].left == NIL == a[a[n].right].right)
  }

  // Turning up the near nephew keeps the removed node linked to a left child; q is the sibling's parent.
  lemma TurnedKeeps(a: Arena, root: nat, o: nat, n: nat, q: nat, apart: set<nat>)
    requires o in a && q in a && n != o && n != q && Below(a, n, apart) && {o, n, q, a[o].parent} <= apart
    requires a[o].left == n && a[o].right == NIL && a[o].parent !in {o, n}
    requires a[n].parent == q && a[q].right != n
    requires RedAt(a, a[n].left) || RedAt(a, a[n].right)
    ensures var (b, _) := Turned(a, root, n, true);
      && o in b && b[o].left in b && b[o].left != o && b[o].parent !in {o, b[o].left}
      && b[b[o].left].right != o && NIL !in b && b.Keys == a.Keys
  {
    if !RedAt(a, a[n].left) {
      TurnedUp(a, root, n, q, a[n].right);
    }
  }

  // Whatever is borrowed with the removed node as the parent, the records are spoilt.
  lemma BorrowSpoils(a: Arena, root: nat, o: nat, turns: nat)
    requires NIL !in a && o in a && a[o].left in a && a[o].left != o && a[o].parent !in {o, a[o].left}
    requires a[a[o].left].right != o
    ensures var (b, r) := Shared(a, root, o, a[o].left, true); Spoilt(Fixup(b, r, NIL, r, turns), o)
  {
    hide Rotated, Shared, TreeWithout;
    var k := a[o].left;
    SharedSpoils(a, root, o, k);
    var (b, r) := Shared(a, root, o, k, true);
    SpoiltBy(Coloured(b, r, Black), r, o, k);
  }

  lemma BlackSiblingSpoils(a: Arena, root: nat, o: nat, v: nat, l: nat, p: nat, col: Color, turns: nat)
    requires Around(a, root, o, v, l, p, col) && a[l].color == Black && Below(a, l, {o, v, l, p})
    requires RedAt(a, a[l].left) || RedAt(a, a[l].right)
    ensures turns >= 1 ==> Spoilt(Fixup(a, root, o, NIL, turns), o)
  {
    hide Rotated, Shared, Turned, TreeWithout;
    TurnedKeeps(a, root, o, l, v, {o, v, l, p});
    var (b, r) := Turned(a, root, l, true);
    if turns >= 1 { BorrowSpoils(b, r, o, turns - 1); }
  }

  // A red sibling l is turned up; its right child m becomes the sibling.
  lemma LiftedAround(a: Arena, root: nat, o: nat, v: nat, l: nat, p: nat, col: Color)
    requires Around(a, root, o, v, l, p, col) && a[l].color == Red
    requires a[l].right in a && a[l].right !in {o, v, l, p}
    ensures var m, b := a[l].right, Lifted(a, root, o, true).0;
      && b.Keys == a.Keys && b[l].right == o && b[m] == a[m].(parent := o)
      && b[o].left == m && b[o].right == NIL && b[o].parent == l && b[o].color == Red
      && (forall q :: q in a && q !in {o, l, m, p} ==> b[q] == a[q])
  {
    RotatedLinks(Coloured(Coloured(a, l, Black), o, Red), root, o, l);
  }

  lemma RedSiblingSpoils(a: Arena, root: nat, o: nat, v: nat, l: nat, p: nat, col: Color, turns: nat)
    requires Around(a, root, o, v, l, p, col) && a[l].color == Red
    requires var m := a[l].right; m in a && m !in {o, v, l, p} && Below(a, m, {o, v, l, p, m}) && a[m].color == Black
    ensures turns >= 1 ==> Spoilt(Fixup(a, root, o, NIL, turns), o)
  {
    hide Rotated, Shared, Turned, TreeWithout, Lifted;
    var m := a[l].right;
    var (b, r) := Lifted(a, root, o, true);
    LiftedAround(a, root, o, v, l, p, col);
    if turns >= 1 {
      if RedAt(b, b[m].left) || RedAt(b, b[m].right) {
        assert Below(b, m, {o, l, m});
        TurnedKeeps(b, r, o, m, o, {o, l, m});
        var (b', r') := Turned(b, r, m, true);
        BorrowSpoils(b', r', o, turns - 1);
      } else {
        SpoiltBy(Coloured(Coloured(b, m, Red), o, Black), r, o, l);
      }
    }
  }

  // A black sibling without children goes red, and the removed node is taken for the one to look at next.
  lemma BareSiblingTurn(a: Arena, root: nat, o: nat, v: nat, l: nat, p: nat, col: Color, turns: nat)
    requires Around(a, root, o, v, l, p, col) && a[l].color == Black && a[l].left == NIL == a[l].right
    ensures var b := Coloured(a, l, Red);
      && Turn(a, root, o, NIL) == At(b, root, p, o) && Turn(a, root, v, NIL) == At(b, root, p, v)
      && (turns >= 1 ==>
            && Fixup(a, root, o, NIL, turns) == Fixup(b, root, p, o, turns - 1)
            && Fixup(a, root, v, NIL, turns) == Fixup(b, root, p, v, turns - 1))
  {
  }

  // If it is red, its successor stays red above the sibling.
  lemma RedParentSpoils(a: Arena, root: nat, o: nat, v: nat, l: nat, p: nat, turns: nat)
    requires Around(a, root, o, v, l, p, Red) && a[l].color == Black && a[l].left == NIL == a[l].right
    ensures turns >= 1 ==> Spoilt(Fixup(a, root, o, NIL, turns), o)
  {
    hide Turn, TreeWithout;
    BareSiblingTurn(a, root, o, v, l, p, Red, turns);
    SpoiltBy(Coloured(Coloured(a, l, Red), o, Black), root, o, v);
  }

  // If it is black and was the root, the next turn follows a null pointer.
  lemma RootSpoils(a: Arena, root: nat, o: nat, v: nat, l: nat, turns: nat)
    requires Around(a, root, o, v, l, NIL, Black) && a[l].color == Black && a[l].left == NIL == a[l].right
    ensures turns >= 2 ==> Fixup(a, root, o, NIL, turns) == Crash
  {
    BareSiblingTurn(a, root, o, v, l, NIL, Black, turns);
    assert Turn(Coloured(a, l, Red), root, NIL, o) == Null;
  }

  // If it is black and was a left child, its successor is taken for its sibling.
  lemma LeftSpoils(a: Arena, root: nat, o: nat, v: nat, l: nat, p: nat, turns: nat)
    requires Around(a, root, o, v, l, p, Black) && a[l].color == Black && a[l].left == NIL == a[l].right
    requires p != NIL && a[p].left == v
    requires var s := a[p].right;
      && s in a && s !in {o, v, l, p, a[p].parent} && (a[s].color == Black || a[s].left != NIL)
      && a[p].parent !in {o, v, l, p}
    ensures turns >= 2 ==> Spoilt(Fixup(a, root, o, NIL, turns), o)
  {
    hide Rotated, Shared, TreeWithout;
    BareSiblingTurn(a, root, o, v, l, p, Black, turns);
    var b := Coloured(a, l, Red);
    SharedLeft(b, root, v, l, p);
    var (b', r) := Shared(b, root, p, v, true);
    assert Turn(b, root, p, o) == At(b', r, NIL, r);
    SpoiltBy(Coloured(b', r, Black), r, o, p);
  }

  lemma SharedLeft(a: Arena, root: nat, v: nat, l: nat, p: nat)
    requires NIL !in a && p in a && v in a && l in a && a[p].left == v && a[v].left == l && a[v].right == NIL
    requires var s := a[p].right; s in a && s !in {v, l, p, a[p].parent} && a[p].parent !in {v, p}
    ensures var b := Shared(a, root, p, v, true).0;
      b.Keys == a.Keys && b[p].left == NIL && b[p].right == a[p].right && b[a[p].right] == a[a[p].right]
  {
    hide Rotated;
    var a1 := Coloured(Coloured(a, v, a[p].color), p, Black);
    RotatedBare(Coloured(a1, Kid(a1, v, false), Black), root, p, v, a[p].right);
  }

  // A left child without a right child of its own comes up over p.
  lemma RotatedBare(a: Arena, root: nat, p: nat, v: nat, s: nat)
    requires NIL !in a && p in a && v in a && p != v && a[p].left == v && a[v].right == NIL && a[p].parent !in {v, p}
    requires s in a && s !in {p, v, a[p].parent}
    ensures var b := Rotated(a, root, p, true).0;
      b.Keys == a.Keys && b[p].left == NIL && b[p].right == a[p].right && b[s] == a[s]
  {
  }

  // If it is black and was a right child, it makes no difference.
  lemma RightHarmless(a: Arena, root: nat, o: nat, v: nat, l: nat, p: nat, turns: nat)
    requires Around(a, root, o, v, l, p, Black) && a[l].color == Black && a[l].left == NIL == a[l].right
    requires p != NIL && a[p].left != v
    ensures Fixup(a, root, o, NIL, turns) == Fixup(a, root, v, NIL, turns)
  {
    hide Lifted, Turned, Shared;
    BareSiblingTurn(a, root, o, v, l, p, Black, turns);
    var b := Coloured(a, l, Red);
    assert Turn(b, root, p, o) == Turn(b, root, p, v);
  }

  // ----- all cases

  lemma BlackSiblingBelow(a: Arena, root: nat, c: Path, t: Tree, u: Tree)
    requires SplicedOut(a, root, c, t, Top, u) && BareRight(t, u) && !IsRed(t.left)
    ensures var l, apart := t.left, {t.at, u.at, t.left.at, UpAt(c)};
      && Below(a, l.at, apart)
      && (RedAt(a, a[l.at].left) || RedAt(a, a[l.at].right) <==> !(l.left.Leaf? && l.right.Leaf?))
      && (a[l.at].left == NIL == a[l.at].right <==> l.left.Leaf? && l.right.Leaf?)
  {
    SplicedAround(a, root, c, t, u);
  }

  lemma RedSiblingBelow(a: Arena, root: nat, c: Path, t: Tree, u: Tree)
    requires SplicedOut(a, root, c, t, Top, u) && BareRight(t, u) && IsRed(t.left)
    ensures t.left.right.Node?
    ensures var m, apart := t.left.right.at, {t.at, u.at, t.left.at, UpAt(c), t.left.right.at};
      && a[t.left.at].right == m && m !in {t.at, u.at, t.left.at, UpAt(c)} && Below(a, m, apart) && a[m].color == Black
  {
    hide State, Offs, PathOffs, RedBlack, BlackHeight;
    SplicedAround(a, root, c, t, u);
    RedSiblingPlace(a, root, c, t, u);
    var l, m := t.left, t.left.right;
    var f := InRight(l.at, l.color, l.key, l.val, l.left, InLeft(u.at, t.color, u.key, u.val, Leaf, c));
    if m.left.Node? { ChildPlace(a, root, f, m, m.left); }
    if m.right.Node? { ChildPlace(a, root, f, m, m.right); }
    LinksAt(a, root, f, m);
  }

  // The place of the red sibling's right child.
  lemma RedSiblingPlace(a: Arena, root: nat, c: Path, t: Tree, u: Tree)
    requires SplicedOut(a, root, c, t, Top, u) && BareRight(t, u) && IsRed(t.left)
    ensures var l, m := t.left, t.left.right;
      var f := InRight(l.at, l.color, l.key, l.val, l.left, InLeft(u.at, t.color, u.key, u.val, Leaf, c));
      && m.Node? && State(a, root, f, m) && m.color == Black
      && (m.right.Node? ==> m.right.left.Leaf? && m.right.right.Leaf?)
      && {l.at, u.at} <= PathOffs(f) && (!c.Top? ==> UpAt(c) in PathOffs(f))
      && t.at !in Offs(m) && m.at in Offs(m) && NIL !in a
  {
    SplicedAround(a, root, c, t, u);
    var l, m := t.left, t.left.right;
    var e := InLeft(u.at, t.color, u.key, u.val, Leaf, c);
    assert Fill(e, l) == Node(u.at, t.color, u.key, u.val, t.left, Leaf);
    StateUp(a, root, e, l);
    StateUp(a, root, InRight(l.at, l.color, l.key, l.val, l.left, e), m);
    assert !IsRed(m) && RedBlack(m) && BlackHeight(m.left) == 0 == BlackHeight(m.right);
    NoBlack(m.right);
  }

  lemma NoBlack(t: Tree)
    requires RedBlack(t) && BlackHeight(t) == 0
    ensures t.Node? ==> t.color == Red && t.left.Leaf? && t.right.Leaf?
  {
    assert t.Node? ==> RedBlack(t.left) && RedBlack(t.right);
  }

  // A child is none of the nodes above it.
  lemma ChildPlace(a: Arena, root: nat, c: Path, t: Tree, x: Tree)
    requires t.Node? && State(a, root, c, t) && (x == t.left || x == t.right) && x.Node?
    ensures x.at in a && x.at != NIL && x.at != t.at && x.at !in PathOffs(c) && x.at in Offs(t)
    ensures a[x.at].color == x.color && a[x.at].left == Root(x.left) && a[x.at].right == Root(x.right)
  {
    LinksBelow(a, root, c, t, x);
    HeldOffsets(a, t, UpAt(c));
  }

  // The sibling of the removed node has black nodes below it where the node has none.
  lemma SideAround(a: Arena, root: nat, c: Path, t: Tree, u: Tree)
    requires SplicedOut(a, root, c, t, Top, u) && BareRight(t, u) && t.color == Black && c.InLeft?
    ensures UpAt(c) in a
    ensures var p, s := UpAt(c), a[UpAt(c)].right;
      && a[p].left == u.at && s in a && s !in {t.at, u.at, t.left.at, p, a[p].parent}
      && (a[s].color == Black || a[s].left != NIL) && a[p].parent !in {t.at, u.at, t.left.at, p}
  {
    SplicedAround(a, root, c, t, u);
    var v := Node(u.at, t.color, u.key, u.val, t.left, Leaf);
    RedBlackPlug(c, t);
    assert BlackHeight(c.right) == 2;
    StateSide(a, root, c, v);
    StateUp(a, root, c, v);
    LinksAround(a, root, c, v);
    assert {u.at, t.left.at} <= Offs(v) && c.right.at in Offs(c.right);
    LinksAt(a, root, c.up, Fill(c, v));
  }

  // As written, the rebalancing runs exactly as with the right parent, or is spoilt: it follows a null pointer,
  // or it ends with records that are no red-black tree without the removed node.
  lemma DelRunAsWritten(a: Arena, root: nat, c: Path, t: Tree, d: Path, u: Tree, turns: nat)
    requires SplicedOut(a, root, c, t, d, u) && u.color == Black
    ensures !BareRight(t, u) || Harmless(c, t) ==>
      Fixup(a, root, ParentAsWritten(c, t, d), Root(u.right), turns)
      == Fixup(a, root, UpAt(Vacated(c, t, d, u)), Root(u.right), turns)
    ensures BareRight(t, u) && !Harmless(c, t) && turns >= 2 ==>
      Spoilt(Fixup(a, root, ParentAsWritten(c, t, d), Root(u.right), turns), t.at)
  {
    SizePlug(d, u);
    if BareRight(t, u) {
      BareRun(a, root, c, t, u, turns);
    } else {
      OtherRun(a, root, c, t, d, u, turns);
    }
  }

  lemma OtherRun(a: Arena, root: nat, c: Path, t: Tree, d: Path, u: Tree, turns: nat)
    requires SplicedOut(a, root, c, t, d, u) && u.color == Black && !BareRight(t, u)
    ensures Fixup(a, root, ParentAsWritten(c, t, d), Root(u.right), turns)
      == Fixup(a, root, UpAt(Vacated(c, t, d, u)), Root(u.right), turns)
  {
    RedBlackPlug(c, t);
    RedBlackPlug(d, u);
    if !d.Top? {
      assert ParentAsWritten(c, t, d) == UpAt(d) == UpAt(Vacated(c, t, d, u));
    } else {
      assert IsRed(u.right);
      LinksAt(a, root, Vacated(c, t, d, u), u.right);
    }
  }

  lemma BareRun(a: Arena, root: nat, c: Path, t: Tree, u: Tree, turns: nat)
    requires SplicedOut(a, root, c, t, Top, u) && BareRight(t, u)
    ensures Harmless(c, t) ==> Fixup(a, root, t.at, NIL, turns) == Fixup(a, root, u.at, NIL, turns)
    ensures !Harmless(c, t) && turns >= 2 ==> Spoilt(Fixup(a, root, t.at, NIL, turns), t.at)
  {
    var o, v, l, p := t.at, u.at, t.left.at, UpAt(c);
    SplicedAround(a, root, c, t, u);
    if IsRed(t.left) {
      RedSiblingBelow(a, root, c, t, u);
      RedSiblingSpoils(a, root, o, v, l, p, t.color, turns);
    } else {
      BlackSiblingBelow(a, root, c, t, u);
      if !(t.left.left.Leaf? && t.left.right.Leaf?) {
        BlackSiblingSpoils(a, root, o, v, l, p, t.color, turns);
      } else if t.color == Red {
        RedParentSpoils(a, root, o, v, l, p, turns);
      } else if c.Top? {
        RootSpoils(a, root, o, v, l, turns);
      } else if c.InLeft? {
        SideAround(a, root, c, t, u);
        LeftSpoils(a, root, o, v, l, p, turns);
      } else {
        LinksAt(a, root, c, Node(v, t.color, u.key, u.val, t.left, Leaf));
        RightHarmless(a, root, o, v, l, p, turns);
      }
    }
  }

  // Removing the root of a tree of three black nodes.
  lemma DelExample()
    ensures var v := Val(IntVal, NULL_ADDR);
      var u := Node(113, Black, [67], v, Leaf, Leaf);
      var t := Node(17, Black, [66], v, Node(65, Black, [65], v, Leaf, Leaf), u);
      var a := map[17 := Rec(65, NIL, NIL, Black, [66], v), 65 := Rec(NIL, NIL, 113, Black, [65], v),
                   113 := Rec(65, NIL, NIL, Black, [67], v)];
      SplicedOut(a, 113, Top, t, Top, u) && Fixup(a, 113, ParentAsWritten(Top, t, Top), NIL, 2) == Crash
  {
    var v := Val(IntVal, NULL_ADDR);
    var u := Node(113, Black, [67], v, Leaf, Leaf);
    var t := Node(17, Black, [66], v, Node(65, Black, [65], v, Leaf, Leaf), u);
    var a := map[17 := Rec(65, NIL, NIL, Black, [66], v), 65 := Rec(NIL, NIL, 113, Black, [65], v),
                 113 := Rec(65, NIL, NIL, Black, [67], v)];
    var e := InRight(113, Black, [67], v, t.left, Top);
    assert Vacated(Top, t, Top, u) == e && ParentAsWritten(Top, t, Top) == 17;
    assert a[17] == Rec(65, NIL, NIL, Black, [66], v) && a[65] == Rec(NIL, NIL, 113, Black, [65], v);
    assert Holds(a, t.left, 113) && HoldsPath(a, e, NIL, 113);
    assert Offs(t.left) == {65} && PathOffs(e) == {65, 113} && Separate(e, Leaf);
    SplicedAround(a, 113, Top, t, u);
    RootSpoils(a, 113, 17, 113, 65, 2);
  }
}
