/** What rotations and del_fixup of src/touchdb_rbtree.c do to the records, whatever the records spell. */
module RbRecords {
  import opened Values
  import opened RbTrees
  import opened RbArena

  // ----- the splice of touchdb_rbtree_del

  // Where the successor u, at the end of path d in t's right subtree, has left its right child.
  function Vacated(c: Path, t: Tree, d: Path, u: Tree): Path
    requires t.Node? && u.Node?
  {
    Compose(d, InRight(u.at, t.color, u.key, u.val, t.left, c))
  }

  // The records after the splice of a node with two children (:293-327).
  ghost predicate SplicedOut(a: Arena, root: nat, c: Path, t: Tree, d: Path, u: Tree) {
    && t.Node? && t.left.Node? && u.Node? && u.left.Leaf? && Plug(d, u) == t.right
    && RedBlack(Plug(c, t)) && !IsRed(Plug(c, t))
    && State(a, root, Vacated(c, t, d, u), u.right)
    && t.at in a && t.at !in Offs(u.right) && t.at !in PathOffs(Vacated(c, t, d, u))
    && a[t.at] == Rec(Root(t.left), Root(Plug(d, u.right)), UpAt(c), t.color, t.key, t.val)
  }

  // ----- links; those of a null pointer are null

  function Kid(a: Arena, o: nat, right: bool): nat {
    if o !in a then NIL else if right then a[o].right else a[o].left
  }

  function Up(a: Arena, o: nat): nat {
    if o !in a then NIL else a[o].parent
  }

  predicate RedAt(a: Arena, o: nat) {
    o in a && a[o].color == Red
  }

  function WithKid(a: Arena, o: nat, right: bool, k: nat): Arena {
    if o !in a then a else a[o := if right then a[o].(right := k) else a[o].(left := k)]
  }

  function WithUp(a: Arena, o: nat, p: nat): Arena {
    if o !in a then a else a[o := a[o].(parent := p)]
  }

  function Coloured(a: Arena, o: nat, col: Color): Arena {
    if o !in a then a else a[o := a[o].(color := col)]
  }

  // left_rotate and right_rotate (touchdb_rbtree.c:202-251).
  function Rotated(a: Arena, root: nat, n: nat, right: bool): (Arena, nat) {
    var k := Kid(a, n, !right);
    if k == NIL then (a, root)
    else
      var m := Kid(a, k, right);
      var a1 := WithKid(a, n, !right, m);
      var a2 := if m != NIL then WithUp(a1, m, n) else a1;
      var a3 := WithUp(WithKid(a2, k, right, n), k, Up(a2, n));
      var p := Up(a3, n);
      var a4 := if p != NIL then WithKid(a3, p, Kid(a3, p, true) == n, k) else a3;
      (WithUp(a4, n, k), if p != NIL then root else k)
  }

  // The records around node n: its child on the given side, that child's child on the other, and its parent.
  predicate Turnable(a: Arena, n: nat, right: bool) {
    && NIL !in a && n in a
    && var k := Kid(a, n, right);
    var m, p := Kid(a, k, !right), a[n].parent;
    && k in a && k != n && (m != NIL ==> m in a && m != n && m != k) && (p != NIL ==> p in a && p !in {n, k, m})
  }

  // What each record is after left_rotate, or right_rotate.
  function RotatedRec(a: Arena, n: nat, right: bool, o: nat): Rec
    requires Turnable(a, n, !right) && o in a
  {
    var k := Kid(a, n, !right);
    var m, p := Kid(a, k, right), a[n].parent;
    if o == n then (if right then a[o].(left := m, parent := k) else a[o].(right := m, parent := k))
    else if o == k then (if right then a[o].(right := n, parent := p) else a[o].(left := n, parent := p))
    else if o == m then a[o].(parent := n)
    else if o == p then (if a[o].right == n then a[o].(right := k) else a[o].(left := k))
    else a[o]
  }

  lemma RotatedWrites(a: Arena, root: nat, n: nat, right: bool)
    requires Turnable(a, n, !right)
    ensures var (b, r) := Rotated(a, root, n, right);
      && b.Keys == a.Keys && (forall o :: o in a ==> b[o] == RotatedRec(a, n, right, o))
      && r == if a[n].parent == NIL then Kid(a, n, !right) else root
  {
    forall o | o in a ensures Rotated(a, root, n, right).0[o] == RotatedRec(a, n, right, o) {
      RotatedWrite(a, root, n, right, o);
    }
  }

  lemma RotatedWrite(a: Arena, root: nat, n: nat, right: bool, o: nat)
    requires Turnable(a, n, !right) && o in a
    ensures var b := Rotated(a, root, n, right).0;
      b.Keys == a.Keys && b[o] == RotatedRec(a, n, right, o)
  {
  }

  // Rotations of records that spell a tree.
  lemma LeftRotated(a: Arena, root: nat, c: Path, t: Tree)
    requires t.Node? && t.right.Node? && State(a, root, c, t)
    ensures Turnable(a, t.at, true)
    ensures var (b, r) := Rotated(a, root, t.at, false);
      && b.Keys == a.Keys && State(b, r, c, RotatedLeft(t))
      && forall o :: o in a && o !in {t.at, UpAt(c), Root(t.right), Root(t.right.left)} ==> b[o] == a[o]
  {
    hide State, Rotated, RotatedLeft;
    LinksAt(a, root, c, t);
    LinksBelow(a, root, c, t, t.right);
    NilOutside(a, root, c, t);
    RotatedWrites(a, root, t.at, false);
    var (b, r) := Rotated(a, root, t.at, false);
    RotatedLeftState(a, root, b, r, c, t);
  }

  lemma RightRotated(a: Arena, root: nat, c: Path, t: Tree)
    requires t.Node? && t.left.Node? && State(a, root, c, t)
    ensures Turnable(a, t.at, false)
    ensures var (b, r) := Rotated(a, root, t.at, true);
      && b.Keys == a.Keys && State(b, r, c, RotatedRight(t))
      && forall o :: o in a && o !in {t.at, UpAt(c), Root(t.left), Root(t.left.right)} ==> b[o] == a[o]
  {
    hide State, Rotated, RotatedRight;
    LinksAt(a, root, c, t);
    LinksBelow(a, root, c, t, t.left);
    NilOutside(a, root, c, t);
    RotatedWrites(a, root, t.at, true);
    var (b, r) := Rotated(a, root, t.at, true);
    RotatedRightState(a, root, b, r, c, t);
  }

  // ----- del_fixup on records, for a node that is its parent's right child or not

  // A red sibling is turned up (:131-136, :164-169).
  function Lifted(a: Arena, root: nat, parent: nat, right: bool): (Arena, nat) {
    var other := Kid(a, parent, !right);
    if RedAt(a, other) then Rotated(Coloured(Coloured(a, other, Black), parent, Red), root, parent, right)
    else (a, root)
  }

  // The near nephew is turned up if the far one is not red (:144-150, :177-183).
  function Turned(a: Arena, root: nat, other: nat, right: bool): (Arena, nat) {
    if RedAt(a, Kid(a, other, !right)) then (a, root)
    else Rotated(Coloured(Coloured(a, Kid(a, other, right), Black), other, Black), root, other, !right)
  }

  // The black node is borrowed (:152-157, :185-190).
  function Shared(a: Arena, root: nat, parent: nat, other: nat, right: bool): (Arena, nat)
    requires parent in a
  {
    var a1 := Coloured(Coloured(a, other, a[parent].color), parent, Black);
    Rotated(Coloured(a1, Kid(a1, other, !right), Black), root, parent, right)
  }

  datatype Place = Null | At(arena: Arena, root: nat, parent: nat, node: nat)

  // The rest of a turn of the loop, with a black sibling (:138-160, :171-193), Null where a null pointer is followed.
  function BlackTurn(a: Arena, root: nat, parent: nat, right: bool): Place {
    var other := Kid(a, parent, !right);
    if other == NIL then Null
    else if !RedAt(a, Kid(a, other, false)) && !RedAt(a, Kid(a, other, true)) then
      At(Coloured(a, other, Red), root, Up(a, parent), parent)
    else
      var (a1, root1) := Turned(a, root, other, right);
      if Kid(a1, parent, !right) == NIL || parent !in a1 then Null
      else
        var (a2, root2) := Shared(a1, root1, parent, Kid(a1, parent, !right), right);
        At(a2, root2, NIL, root2)
  }

  // A turn of the loop (:128-194).
  function Turn(a: Arena, root: nat, parent: nat, node: nat): Place {
    var right := Kid(a, parent, false) != node;
    if Kid(a, parent, !right) == NIL then Null
    else
      var (a1, root1) := Lifted(a, root, parent, right);
      BlackTurn(a1, root1, parent, right)
  }

  datatype Outcome = Crash | Unfinished | Done(arena: Arena, root: nat)

  function Fixup(a: Arena, root: nat, parent: nat, node: nat, turns: nat): Outcome
    decreases turns
  {
    if RedAt(a, node) || node == root then Done(Coloured(a, node, Black), root)
    else if turns == 0 then Unfinished
    else
      match Turn(a, root, parent, node)
      case Null => Crash
      case At(a', root', parent', node') => Fixup(a', root', parent', node', turns - 1)
  }

  // The loop gets from one place to another in this many turns.
  ghost predicate Reaches(from: Place, to: Place, turns: nat)
    requires from.At? && to.At?
  {
    forall more: nat {:trigger Fixup(to.arena, to.root, to.parent, to.node, more)} ::
      Fixup(from.arena, from.root, from.parent, from.node, turns + more)
      == Fixup(to.arena, to.root, to.parent, to.node, more)
  }

  lemma ReachesItself(p: Place)
    requires p.At?
    ensures Reaches(p, p, 0)
  {
  }

  lemma ReachesOnce(from: Place, to: Place, turns: nat, next: Place)
    requires from.At? && to.At? && next.At? && Reaches(from, to, turns)
    requires !RedAt(to.arena, to.node) && to.node != to.root && Turn(to.arena, to.root, to.parent, to.node) == next
    ensures Reaches(from, next, turns + 1)
  {
    hide Turn;
    forall more: nat
      ensures Fixup(from.arena, from.root, from.parent, from.node, turns + 1 + more)
        == Fixup(next.arena, next.root, next.parent, next.node, more)
    {
      assert Fixup(to.arena, to.root, to.parent, to.node, more + 1)
        == Fixup(next.arena, next.root, next.parent, next.node, more);
      assert turns + 1 + more == turns + (more + 1);
    }
  }

  lemma ReachesEnd(from: Place, to: Place, turns: nat)
    requires from.At? && to.At? && Reaches(from, to, turns)
    requires RedAt(to.arena, to.node) || to.node == to.root
    ensures Fixup(from.arena, from.root, from.parent, from.node, turns)
      == Done(Coloured(to.arena, to.node, Black), to.root)
  {
    assert Fixup(to.arena, to.root, to.parent, to.node, 0) == Done(Coloured(to.arena, to.node, Black), to.root);
    assert turns + 0 == turns;
  }
}
