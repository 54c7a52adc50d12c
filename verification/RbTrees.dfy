/** Red-black trees as values: the shape that the arena of linked nodes represents, a path that
    remembers what surrounds a subtree, and the red-black conditions on both. */
module RbTrees {
  import opened Bits
  import opened CStrings
  import opened Values

  datatype Color = Red | Black

  // `at` is the arena offset of the node.
  datatype Tree =
    | Leaf
    | Node(at: nat, color: Color, key: CStr, val: Val, left: Tree, right: Tree)

  // The way from a subtree up to the root. A frame holds one ancestor and that ancestor's other subtree.
  datatype Path =
    | Top
    | InLeft(at: nat, color: Color, key: CStr, val: Val, right: Tree, up: Path)
    | InRight(at: nat, color: Color, key: CStr, val: Val, left: Tree, up: Path)

  datatype Item = Item(at: nat, key: CStr, val: Val)

  // ----- trees seen through a path

  // The parent of whatever stands at the end of path c, with t standing there.
  function Fill(c: Path, t: Tree): Tree
    requires !c.Top?
  {
    if c.InLeft? then Node(c.at, c.color, c.key, c.val, t, c.right)
    else Node(c.at, c.color, c.key, c.val, c.left, t)
  }

  // The other subtree of the nearest ancestor, and the way to it when t stands at the end of path c.
  function Side(c: Path): Tree
    requires !c.Top?
  {
    if c.InLeft? then c.right else c.left
  }

  function SidePath(c: Path, t: Tree): Path
    requires !c.Top?
  {
    if c.InLeft? then InRight(c.at, c.color, c.key, c.val, t, c.up)
    else InLeft(c.at, c.color, c.key, c.val, t, c.up)
  }

  // The whole tree that has t at the end of path c.
  function Plug(c: Path, t: Tree): Tree
    decreases c
  {
    if c.Top? then t else Plug(c.up, Fill(c, t))
  }

  // Path d continued by path e.
  function Compose(d: Path, e: Path): Path {
    match d
    case Top => e
    case InLeft(at, col, k, v, r, up) => InLeft(at, col, k, v, r, Compose(up, e))
    case InRight(at, col, k, v, l, up) => InRight(at, col, k, v, l, Compose(up, e))
  }

  lemma {:induction false} PlugCompose(d: Path, e: Path, t: Tree)
    ensures Plug(Compose(d, e), t) == Plug(e, Plug(d, t))
    decreases d
  {
    if !d.Top? {
      PlugCompose(d.up, e, Fill(d, t));
    }
  }

  function Root(t: Tree): nat {
    if t.Leaf? then NIL else t.at
  }

  function Child(t: Tree, right: bool): Tree {
    if t.Leaf? then Leaf else if right then t.right else t.left
  }

  function UpAt(c: Path): nat {
    if c.Top? then NIL else c.at
  }

  function Depth(c: Path): nat {
    if c.Top? then 0 else 1 + Depth(c.up)
  }

  function Height(t: Tree): nat {
    if t.Leaf? then 0
    else 1 + if Height(t.left) >= Height(t.right) then Height(t.left) else Height(t.right)
  }

  // ----- in-order contents

  function InOrder(t: Tree): seq<Item> {
    if t.Leaf? then [] else InOrder(t.left) + [Item(t.at, t.key, t.val)] + InOrder(t.right)
  }

  // The items that come before, and after, whatever stands at the end of the path.
  function Before(c: Path): seq<Item> {
    match c
    case Top => []
    case InLeft(at, _, k, v, r, up) => Before(up)
    case InRight(at, _, k, v, l, up) => Before(up) + (InOrder(l) + [Item(at, k, v)])
  }

  function After(c: Path): seq<Item> {
    match c
    case Top => []
    case InLeft(at, _, k, v, r, up) => [Item(at, k, v)] + InOrder(r) + After(up)
    case InRight(at, _, k, v, l, up) => After(up)
  }

  lemma {:induction false} InOrderPlug(c: Path, t: Tree)
    ensures InOrder(Plug(c, t)) == Before(c) + InOrder(t) + After(c)
    decreases c
  {
    if !c.Top? {
      InOrderPlug(c.up, Fill(c, t));
      var b, x, s, a := Before(c.up), [Item(c.at, c.key, c.val)], InOrder(Side(c)), After(c.up);
      if c.InLeft? {
        Regrouped(b, InOrder(t), x + s, a);
      } else {
        Regrouped(b, s + x, InOrder(t), a);
      }
    }
  }

  lemma Regrouped<T>(a: seq<T>, b: seq<T>, c: seq<T>, d: seq<T>)
    ensures a + (b + c) + d == a + b + (c + d) == (a + b) + c + d
  {
  }

  lemma {:induction false} BeforeAfterCompose(d: Path, e: Path)
    ensures Before(Compose(d, e)) == Before(e) + Before(d)
    ensures After(Compose(d, e)) == After(d) + After(e)
  {
    if !d.Top? {
      BeforeAfterCompose(d.up, e);
    }
  }

  lemma SameOrder(c: Path, t: Tree, s: Tree)
    requires InOrder(t) == InOrder(s)
    ensures InOrder(Plug(c, t)) == InOrder(Plug(c, s))
  {
    InOrderPlug(c, t);
    InOrderPlug(c, s);
  }

  // ----- offsets in use, each by one node only

  function Offs(t: Tree): set<nat> {
    if t.Leaf? then {} else {t.at} + Offs(t.left) + Offs(t.right)
  }

  function PathOffs(c: Path): set<nat> {
    match c
    case Top => {}
    case InLeft(at, _, _, _, r, up) => {at} + Offs(r) + PathOffs(up)
    case InRight(at, _, _, _, l, up) => {at} + Offs(l) + PathOffs(up)
  }

  predicate Distinct(t: Tree) {
    t.Node? ==>
      && t.at !in Offs(t.left) && t.at !in Offs(t.right)
      && Offs(t.left) !! Offs(t.right)
      && Distinct(t.left) && Distinct(t.right)
  }

  predicate PathDistinct(c: Path) {
    match c
    case Top => true
    case InLeft(at, _, _, _, r, up) =>
      at !in Offs(r) && at !in PathOffs(up) && Offs(r) !! PathOffs(up) && Distinct(r) && PathDistinct(up)
    case InRight(at, _, _, _, l, up) =>
      at !in Offs(l) && at !in PathOffs(up) && Offs(l) !! PathOffs(up) && Distinct(l) && PathDistinct(up)
  }

  predicate Separate(c: Path, t: Tree) {
    Distinct(t) && PathDistinct(c) && Offs(t) !! PathOffs(c)
  }

  lemma {:induction false} SeparatePlug(c: Path, t: Tree)
    ensures Separate(c, t) <==> Distinct(Plug(c, t))
    ensures Offs(Plug(c, t)) == Offs(t) + PathOffs(c)
    decreases c
  {
    if !c.Top? {
      SeparatePlug(c.up, Fill(c, t));
    }
  }

  lemma AttachedOffs(c: Path, x: Tree)
    requires x.Node? && x.left.Leaf? && x.right.Leaf?
    ensures Offs(Plug(c, x)) == Offs(Plug(c, Leaf)) + {x.at}
  {
    SeparatePlug(c, Leaf);
    SeparatePlug(c, x);
  }

  lemma {:induction false} PathOffsCompose(d: Path, e: Path)
    ensures PathOffs(Compose(d, e)) == PathOffs(d) + PathOffs(e)
  {
    if !d.Top? {
      PathOffsCompose(d.up, e);
    }
  }

  lemma {:induction false} OffsOfInOrder(t: Tree)
    ensures Offs(t) == Ats(InOrder(t)) && |InOrder(t)| == Size(t)
  {
    if t.Node? {
      OffsOfInOrder(t.left);
      OffsOfInOrder(t.right);
      AtsConcat(InOrder(t.left), [Item(t.at, t.key, t.val)]);
      AtsConcat(InOrder(t.left) + [Item(t.at, t.key, t.val)], InOrder(t.right));
      assert Ats([Item(t.at, t.key, t.val)]) == {t.at};
    }
  }

  function Ats(s: seq<Item>): set<nat> {
    set x | x in s :: x.at
  }

  lemma AtsConcat(a: seq<Item>, b: seq<Item>)
    ensures Ats(a + b) == Ats(a) + Ats(b)
  {
    assert forall x :: x in a + b <==> x in a || x in b;
  }

  lemma SameOffs(s: Tree, t: Tree)
    requires InOrder(s) == InOrder(t)
    ensures Offs(s) == Offs(t) && Size(s) == Size(t)
  {
    OffsOfInOrder(s);
    OffsOfInOrder(t);
  }

  function Size(t: Tree): nat {
    if t.Leaf? then 0 else 1 + Size(t.left) + Size(t.right)
  }

  // ----- the red-black conditions

  predicate IsRed(t: Tree) {
    t.Node? && t.color == Red
  }

  function Unit(col: Color): nat {
    if col == Black then 1 else 0
  }

  // The number of black nodes on the leftmost way down.
  function BlackHeight(t: Tree): nat {
    if t.Leaf? then 0 else BlackHeight(t.left) + Unit(t.color)
  }

  // No red node has a red child, and every way down to a leaf crosses the same number of black nodes.
  predicate RedBlack(t: Tree) {
    t.Node? ==>
      && RedBlack(t.left) && RedBlack(t.right)
      && BlackHeight(t.left) == BlackHeight(t.right)
      && (t.color == Red ==> !IsRed(t.left) && !IsRed(t.right))
  }

  // A red-black subtree of black height h may stand at the end of path c; a red one only if `red`.
  predicate Fits(c: Path, h: nat, red: bool) {
    match c
    case Top => true
    case InLeft(_, col, _, _, r, up) =>
      && RedBlack(r) && BlackHeight(r) == h
      && (col == Red ==> !red && !IsRed(r))
      && Fits(up, h + Unit(col), col == Red)
    case InRight(_, col, _, _, l, up) =>
      && RedBlack(l) && BlackHeight(l) == h
      && (col == Red ==> !red && !IsRed(l))
      && Fits(up, h + Unit(col), col == Red)
  }

  // The root of any tree seen through this path is black, unless the path is empty.
  predicate BlackTop(c: Path) {
    c.Top? || (if c.up.Top? then c.color == Black else BlackTop(c.up))
  }

  lemma {:induction false} RedBlackPlug(c: Path, t: Tree)
    ensures RedBlack(Plug(c, t)) <==> RedBlack(t) && Fits(c, BlackHeight(t), IsRed(t))
    decreases c
  {
    if !c.Top? {
      RedBlackPlug(c.up, Fill(c, t));
    }
  }

  lemma {:induction false} BlackTopPlug(c: Path, t: Tree)
    requires !c.Top?
    ensures Plug(c, t).Node? && (BlackTop(c) <==> !IsRed(Plug(c, t)))
    decreases c
  {
    if !c.up.Top? {
      BlackTopPlug(c.up, Fill(c, t));
    }
  }

  // The state of an insertion on its way up: all red-black conditions hold, except that the red node t
  // may stand under a red parent. A red parent is never the root, so t then has a grandparent.
  predicate OneRedEdge(c: Path, t: Tree) {
    && IsRed(t) && RedBlack(t)
    && Fits(c, BlackHeight(t), false) && BlackTop(c)
    && (!c.Top? && c.color == Red ==> !c.up.Top?)
  }

  // Red parent, red uncle: both go black and the grandparent red.
  function Recolored(c: Path, t: Tree): Tree
    requires !c.Top? && !c.up.Top? && Side(c.up).Node?
  {
    Paint(Fill(SidePath(c.up, Paint(Fill(c, t), Black)), Paint(Side(c.up), Black)), Red)
  }

  // Red parent, no red uncle: t is turned to the outside if need be, then parent and grandparent turn over.
  function Straightened(c: Path, t: Tree): Tree
    requires t.Node? && !c.Top? && !c.up.Top?
  {
    var p := Fill(c, t);
    if c.up.InLeft? then
      var p' := if c.InRight? then RotatedLeft(p) else p;
      RotatedRight(Paint(Fill(c.up, Paint(p', Black)), Red))
    else
      var p' := if c.InLeft? then RotatedRight(p) else p;
      RotatedLeft(Paint(Fill(c.up, Paint(p', Black)), Red))
  }

  lemma RecoloredFacts(c: Path, t: Tree)
    requires OneRedEdge(c, t) && !c.Top? && c.color == Red && IsRed(Side(c.up))
    ensures OneRedEdge(c.up.up, Recolored(c, t))
    ensures InOrder(Recolored(c, t)) == InOrder(Fill(c.up, Fill(c, t)))
  {
    assert Fits(c.up, BlackHeight(t), true) && BlackTop(c.up);
    var p, u := Paint(Fill(c, t), Black), Paint(Side(c.up), Black);
    assert RedBlack(p) && RedBlack(u);
    assert BlackHeight(p) == BlackHeight(u) == BlackHeight(t) + 1;
  }

  lemma StraightenedFacts(c: Path, t: Tree)
    requires OneRedEdge(c, t) && !c.Top? && c.color == Red && !IsRed(Side(c.up))
    ensures var g := Straightened(c, t);
      && g.color == Black && InOrder(g) == InOrder(Fill(c.up, Fill(c, t)))
      && if c.up.InLeft? then
           OneRedEdge(InLeft(g.at, Black, g.key, g.val, g.right, c.up.up), g.left)
         else
           OneRedEdge(InRight(g.at, Black, g.key, g.val, g.left, c.up.up), g.right)
  {
    if c.up.InLeft? { StraightenedOnLeft(c, t); } else { StraightenedOnRight(c, t); }
    StraightenedOrder(c, t);
  }

  lemma StraightenedOnLeft(c: Path, t: Tree)
    requires OneRedEdge(c, t) && !c.Top? && c.color == Red && !IsRed(Side(c.up)) && c.up.InLeft?
    ensures var g := Straightened(c, t);
      g.color == Black && OneRedEdge(InLeft(g.at, Black, g.key, g.val, g.right, c.up.up), g.left)
  {
    hide InOrder, Offs;
    assert Fits(c.up, BlackHeight(t), true) && BlackTop(c.up);
  }

  lemma StraightenedOnRight(c: Path, t: Tree)
    requires OneRedEdge(c, t) && !c.Top? && c.color == Red && !IsRed(Side(c.up)) && c.up.InRight?
    ensures var g := Straightened(c, t);
      g.color == Black && OneRedEdge(InRight(g.at, Black, g.key, g.val, g.left, c.up.up), g.right)
  {
    hide InOrder, Offs;
    assert Fits(c.up, BlackHeight(t), true) && BlackTop(c.up);
  }

  lemma StraightenedOrder(c: Path, t: Tree)
    requires t.Node? && !c.Top? && !c.up.Top?
    ensures InOrder(Straightened(c, t)) == InOrder(Fill(c.up, Fill(c, t)))
  {
    var p := Fill(c, t);
    if c.up.InLeft? {
      if c.InRight? { RotatedLeftFacts(p); }
      var p' := if c.InRight? then RotatedLeft(p) else p;
      RotatedRightFacts(Paint(Fill(c.up, Paint(p', Black)), Red));
    } else {
      if c.InLeft? { RotatedRightFacts(p); }
      var p' := if c.InLeft? then RotatedRight(p) else p;
      RotatedLeftFacts(Paint(Fill(c.up, Paint(p', Black)), Red));
    }
  }

  lemma InsertionDone(c: Path, t: Tree)
    requires OneRedEdge(c, t) && (c.Top? || c.color == Black)
    ensures var s := Plug(c, t);
      s.Node? && RedBlack(s) && RedBlack(Paint(s, Black)) && InOrder(Paint(s, Black)) == InOrder(s)
  {
    RedBlackPlug(c, t);
    if !c.Top? { BlackTopPlug(c, t); }
  }

  // ----- the steps of a deletion on its way up

  // All red-black conditions hold around t and, once t is painted black, inside it, except that the
  // ways down through t are one black node short.
  predicate Deficit(c: Path, t: Tree) {
    RedBlack(Paint(t, Black)) && Fits(c, BlackHeight(t) + 1, false) && BlackTop(c)
  }

  // The depth of t, and whether t is black; a red t ends the loop.
  function DeficitMeasure(c: Path, t: Tree): nat {
    Depth(c) + if IsRed(t) then 0 else if c.Top? then 0 else 1
  }

  // The way to t after its red sibling has been turned up over the parent.
  function SiblingLifted(c: Path): Path
    requires !c.Top? && Side(c).Node?
  {
    var o := Side(c);
    if c.InLeft? then
      InLeft(c.at, Red, c.key, c.val, o.left, InLeft(o.at, Black, o.key, o.val, o.right, c.up))
    else
      InRight(c.at, Red, c.key, c.val, o.right, InRight(o.at, Black, o.key, o.val, o.left, c.up))
  }

  // The parent after its other child has been painted red.
  function SiblingReddened(c: Path, t: Tree): Tree
    requires !c.Top?
  {
    if c.InLeft? then Fill(c.(right := Paint(c.right, Red)), t) else Fill(c.(left := Paint(c.left, Red)), t)
  }

  // The sibling with its left, or right, child painted black and turned up over it.
  function LeftNephewUp(o: Tree): Tree
    requires o.Node? && o.left.Node?
  {
    RotatedRight(Node(o.at, Black, o.key, o.val, Paint(o.left, Black), o.right))
  }

  function RightNephewUp(o: Tree): Tree
    requires o.Node? && o.right.Node?
  {
    RotatedLeft(Node(o.at, Black, o.key, o.val, o.left, Paint(o.right, Black)))
  }

  // The subtree of the parent after a black node has been borrowed from the sibling's side. A near red
  // nephew is turned up first if the far one is not red.
  function Borrowed(c: Path, t: Tree): Tree
    requires !c.Top? && Side(c).Node?
    requires IsRed(Side(c).left) || IsRed(Side(c).right)
  {
    var o := Side(c);
    if c.InLeft? then
      var o' := if IsRed(o.right) then o else LeftNephewUp(o);
      RotatedLeft(Node(c.at, Black, c.key, c.val, t, o'.(color := c.color, right := Paint(o'.right, Black))))
    else
      var o' := if IsRed(o.left) then o else RightNephewUp(o);
      RotatedRight(Node(c.at, Black, c.key, c.val, o'.(color := c.color, left := Paint(o'.left, Black)), t))
  }

  lemma SiblingExists(c: Path, t: Tree)
    requires Deficit(c, t) && !c.Top?
    ensures Side(c).Node?
    ensures IsRed(Side(c)) ==> Side(c).left.Node? && Side(c).right.Node?
  {
  }

  lemma SiblingLiftedFacts(c: Path, t: Tree)
    requires Deficit(c, t) && !c.Top? && !IsRed(t) && IsRed(Side(c))
    ensures var c' := SiblingLifted(c);
      && Deficit(c', t) && Side(c').Node? && !IsRed(Side(c'))
      && InOrder(Plug(c', t)) == InOrder(Plug(c, t))
  {
    var o, c', p := Side(c), SiblingLifted(c), Fill(c, t);
    assert Fits(c.up, BlackHeight(t) + 2, false);
    assert RedBlack(o.left) && RedBlack(o.right);
    assert BlackTop(c'.up);
    if c.InLeft? {
      RotatedLeftFacts(p);
    } else {
      RotatedRightFacts(p);
    }
    SameOrder(c.up, p, Fill(c'.up, Fill(c', t)));
  }

  lemma FitsBlack(c: Path, h: nat)
    requires Fits(c, h, true)
    ensures Fits(c, h, false)
  {
  }

  lemma SiblingReddenedFacts(c: Path, t: Tree)
    requires Deficit(c, t) && !c.Top? && !IsRed(t) && Side(c).Node? && !IsRed(Side(c))
    requires !IsRed(Side(c).left) && !IsRed(Side(c).right)
    ensures Deficit(c.up, SiblingReddened(c, t))
    ensures InOrder(Plug(c.up, SiblingReddened(c, t))) == InOrder(Plug(c, t))
  {
    SameOrder(c.up, Fill(c, t), SiblingReddened(c, t));
    if c.color == Red { FitsBlack(c.up, BlackHeight(t) + 1); }
  }

  lemma BorrowedFacts(c: Path, t: Tree)
    requires Deficit(c, t) && !c.Top? && !IsRed(t) && Side(c).Node? && !IsRed(Side(c))
    requires IsRed(Side(c).left) || IsRed(Side(c).right)
    ensures var s := Plug(c.up, Borrowed(c, t));
      RedBlack(s) && !IsRed(s) && InOrder(s) == InOrder(Plug(c, t))
  {
    var g := Borrowed(c, t);
    BorrowedOrder(c, t);
    SameOrder(c.up, Fill(c, t), g);
    BorrowedBalance(c, t);
    RedBlackPlug(c.up, g);
    if !c.up.Top? { BlackTopPlug(c.up, g); }
  }

  lemma BorrowedBalance(c: Path, t: Tree)
    requires Deficit(c, t) && !c.Top? && !IsRed(t) && Side(c).Node? && !IsRed(Side(c))
    requires IsRed(Side(c).left) || IsRed(Side(c).right)
    ensures var g := Borrowed(c, t);
      && RedBlack(g) && BlackHeight(g) == BlackHeight(t) + 1 + Unit(c.color)
      && (IsRed(g) <==> c.color == Red)
  {
    var g, o, h := Borrowed(c, t), Side(c), BlackHeight(t);
    assert RedBlack(o.left) && RedBlack(o.right) && BlackHeight(o.left) == BlackHeight(o.right) == h;
    if c.InLeft? {
      if IsRed(o.right) {
        assert g.left == Node(c.at, Black, c.key, c.val, t, o.left) && g.right == Paint(o.right, Black);
      } else {
        assert g.left == Node(c.at, Black, c.key, c.val, t, o.left.left);
        assert g.right == Node(o.at, Black, o.key, o.val, o.left.right, o.right);
      }
    } else {
      if IsRed(o.left) {
        assert g.right == Node(c.at, Black, c.key, c.val, o.right, t) && g.left == Paint(o.left, Black);
      } else {
        assert g.right == Node(c.at, Black, c.key, c.val, o.right.right, t);
        assert g.left == Node(o.at, Black, o.key, o.val, o.left, o.right.left);
      }
    }
    assert RedBlack(g.left) && RedBlack(g.right) && BlackHeight(g.left) == BlackHeight(g.right) == h + 1;
    assert !IsRed(g.left) && !IsRed(g.right);
  }

  lemma BorrowedOrder(c: Path, t: Tree)
    requires !c.Top? && Side(c).Node?
    requires IsRed(Side(c).left) || IsRed(Side(c).right)
    ensures InOrder(Borrowed(c, t)) == InOrder(Fill(c, t))
  {
    var o := Side(c);
    if c.InLeft? {
      var o1 := Node(o.at, Black, o.key, o.val, Paint(o.left, Black), o.right);
      if !IsRed(o.right) { RotatedRightFacts(o1); }
      var o' := if IsRed(o.right) then o else RotatedRight(o1);
      assert InOrder(o') == InOrder(o);
      RotatedLeftFacts(Node(c.at, Black, c.key, c.val, t, o'.(color := c.color, right := Paint(o'.right, Black))));
    } else {
      var o1 := Node(o.at, Black, o.key, o.val, o.left, Paint(o.right, Black));
      if !IsRed(o.left) { RotatedLeftFacts(o1); }
      var o' := if IsRed(o.left) then o else RotatedLeft(o1);
      assert InOrder(o') == InOrder(o);
      RotatedRightFacts(Node(c.at, Black, c.key, c.val, o'.(color := c.color, left := Paint(o'.left, Black)), t));
    }
  }

  lemma DeletionDone(c: Path, t: Tree)
    requires Deficit(c, t) && (c.Top? || IsRed(t))
    ensures var s := Plug(c, Paint(t, Black));
      RedBlack(s) && !IsRed(s) && InOrder(s) == InOrder(Plug(c, t))
  {
    SameOrder(c, t, Paint(t, Black));
    RedBlackPlug(c, Paint(t, Black));
    if !c.Top? { BlackTopPlug(c, Paint(t, Black)); }
  }

  // ----- taking a node out

  // The only child of a node that has at most one.
  function OnlyChild(t: Tree): Tree
    requires t.Node?
  {
    if t.left.Leaf? then t.right else t.left
  }

  // A node with at most one child gives way to it. If the node was black, that leaves a deficit.
  lemma SpliceFacts(c: Path, u: Tree)
    requires u.Node? && (u.left.Leaf? || u.right.Leaf?)
    requires RedBlack(Plug(c, u)) && !IsRed(Plug(c, u))
    ensures u.color == Black ==> Deficit(c, OnlyChild(u))
    ensures u.color == Red ==> RedBlack(Plug(c, OnlyChild(u))) && !IsRed(Plug(c, OnlyChild(u)))
  {
    RedBlackPlug(c, u);
    if !c.Top? { BlackTopPlug(c, u); }
    if u.color == Red {
      RedBlackPlug(c, OnlyChild(u));
      BlackTopPlug(c, OnlyChild(u));
    }
  }

  // Renaming one node on the way up does not touch the red-black conditions.
  lemma {:induction false} FitsRenamed(d: Path, e: Path, e': Path, h: nat, red: bool)
    requires e.InRight? && e'.InRight? && e'.color == e.color && e'.left == e.left && e'.up == e.up
    ensures Fits(Compose(d, e), h, red) <==> Fits(Compose(d, e'), h, red)
    ensures BlackTop(Compose(d, e)) <==> BlackTop(Compose(d, e'))
  {
    hide RedBlack, BlackHeight, IsRed;
    if !d.Top? {
      FitsRenamed(d.up, e, e', h + Unit(d.color), d.color == Red);
    }
  }

  predicate AllLeft(d: Path) {
    d.Top? || (d.InLeft? && AllLeft(d.up))
  }

  lemma {:induction false} NothingBefore(d: Path)
    requires AllLeft(d)
    ensures Before(d) == []
  {
    if !d.Top? {
      NothingBefore(d.up);
    }
  }

  // ----- height

  lemma {:induction false} BlackHeightBounds(t: Tree)
    requires RedBlack(t)
    ensures Pow2(BlackHeight(t)) <= Size(t) + 1
    ensures Height(t) <= 2 * BlackHeight(t) + if IsRed(t) then 1 else 0
  {
    if t.Node? {
      BlackHeightBounds(t.left);
      BlackHeightBounds(t.right);
    }
  }

  // A red-black tree with a black root and n nodes is at most 2 * log2(n + 1) high.
  lemma HeightBound(t: Tree)
    requires RedBlack(t) && !IsRed(t)
    ensures Pow2((Height(t) + 1) / 2) <= Size(t) + 1
  {
    BlackHeightBounds(t);
    if (Height(t) + 1) / 2 < BlackHeight(t) { Pow2Grows((Height(t) + 1) / 2, BlackHeight(t)); }
  }

  // ----- colours and rotations

  function Paint(t: Tree, col: Color): Tree {
    if t.Leaf? then Leaf else t.(color := col)
  }

  function RotatedLeft(t: Tree): Tree
    requires t.Node? && t.right.Node?
  {
    t.right.(left := t.(right := t.right.left))
  }

  function RotatedRight(t: Tree): Tree
    requires t.Node? && t.left.Node?
  {
    t.left.(right := t.(left := t.left.right))
  }

  lemma RotatedLeftFacts(t: Tree)
    requires t.Node? && t.right.Node?
    ensures InOrder(RotatedLeft(t)) == InOrder(t)
    ensures Offs(RotatedLeft(t)) == Offs(t)
    ensures Distinct(RotatedLeft(t)) <==> Distinct(t)
  {
    Associate(InOrder(t.left), [Item(t.at, t.key, t.val)], InOrder(t.right.left),
              [Item(t.right.at, t.right.key, t.right.val)], InOrder(t.right.right));
  }

  lemma RotatedRightFacts(t: Tree)
    requires t.Node? && t.left.Node?
    ensures InOrder(RotatedRight(t)) == InOrder(t)
    ensures Offs(RotatedRight(t)) == Offs(t)
    ensures Distinct(RotatedRight(t)) <==> Distinct(t)
  {
    RotatedLeftFacts(RotatedRight(t));
  }

  lemma Associate<T>(a: seq<T>, b: seq<T>, c: seq<T>, d: seq<T>, e: seq<T>)
    ensures a + b + (c + d + e) == (a + b + c) + d + e
  {
  }
}
