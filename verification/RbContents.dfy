/** The finite map that a tree stands for, and what search, insertion and removal of one item mean to it. */
module RbContents {
  import opened CStrings
  import opened Values
  import opened RbTrees

  predicate Sorted(s: seq<Item>) {
    forall i, j :: 0 <= i < j < |s| ==> Less(s[i].key, s[j].key)
  }

  predicate AllBelow(s: seq<Item>, k: CStr) {
    forall i :: 0 <= i < |s| ==> Less(s[i].key, k)
  }

  predicate AllAbove(s: seq<Item>, k: CStr) {
    forall i :: 0 <= i < |s| ==> Less(k, s[i].key)
  }

  // Key k, absent from the tree, may be attached in order at the end of path c.
  predicate Brackets(c: Path, k: CStr) {
    AllBelow(Before(c), k) && AllAbove(After(c), k)
  }

  function ToMap(s: seq<Item>): map<CStr, Val> {
    if s == [] then map[] else ToMap(s[..|s| - 1])[s[|s| - 1].key := s[|s| - 1].val]
  }

  lemma {:induction false} ToMapConcat(a: seq<Item>, b: seq<Item>)
    ensures ToMap(a + b) == ToMap(a) + ToMap(b)
  {
    if b == [] {
      assert a + b == a;
    } else {
      ToMapConcat(a, b[..|b| - 1]);
      assert (a + b)[..|a + b| - 1] == a + b[..|b| - 1];
    }
  }

  lemma {:induction false} ToMapKeys(s: seq<Item>, k: CStr)
    ensures k in ToMap(s) <==> exists i :: 0 <= i < |s| && s[i].key == k
  {
    if s != [] {
      var r := s[..|s| - 1];
      ToMapKeys(r, k);
      if k in ToMap(r) {
        var i :| 0 <= i < |r| && r[i].key == k;
        assert s[i].key == k;
      }
      if i :| 0 <= i < |s| && s[i].key == k {
        assert i < |r| ==> r[i].key == k;
      }
    }
  }

  lemma {:induction false} ToMapSize(s: seq<Item>)
    requires Sorted(s)
    ensures |ToMap(s)| == |s|
  {
    if s != [] {
      var r, x := s[..|s| - 1], s[|s| - 1];
      ToMapSize(r);
      ToMapKeys(r, x.key);
      StrcmpZero(x.key, x.key);
      assert x.key !in ToMap(r);
      assert ToMap(s).Keys == ToMap(r).Keys + {x.key};
      assert |ToMap(s)| == |ToMap(s).Keys| && |ToMap(r)| == |ToMap(r).Keys|;
    }
  }

  lemma NotBetween(a: seq<Item>, b: seq<Item>, k: CStr)
    requires AllBelow(a, k) && AllAbove(b, k)
    ensures k !in ToMap(a) && k !in ToMap(b)
  {
    ToMapKeys(a, k);
    ToMapKeys(b, k);
    StrcmpZero(k, k);
  }

  // One item among the others of a sorted sequence.
  lemma ToMapAround(a: seq<Item>, x: Item, b: seq<Item>)
    requires AllBelow(a, x.key) && AllAbove(b, x.key)
    ensures ToMap(a + [x] + b) == ToMap(a + b)[x.key := x.val]
    ensures x.key !in ToMap(a + b)
    ensures ToMap(a + b) == ToMap(a + [x] + b) - {x.key}
  {
    hide *;
    NotBetween(a, b, x.key);
    ToMapConcat(a, b);
    ToMapConcat(a + [x], b);
    ToMapLast(a, x);
    KeyBetween(ToMap(a), ToMap(b), x.key, x.val);
  }

  lemma ToMapLast(a: seq<Item>, x: Item)
    ensures ToMap(a + [x]) == ToMap(a)[x.key := x.val]
  {
    assert (a + [x])[..|a|] == a;
  }

  lemma KeyBetween(m: map<CStr, Val>, n: map<CStr, Val>, k: CStr, v: Val)
    requires k !in m && k !in n
    ensures m[k := v] + n == (m + n)[k := v] && k !in m + n && (m + n)[k := v] - {k} == m + n
  {
  }

  lemma SortedAround(a: seq<Item>, x: Item, b: seq<Item>)
    ensures Sorted(a + [x] + b) <==> Sorted(a + b) && AllBelow(a, x.key) && AllAbove(b, x.key)
  {
    var s := a + [x] + b;
    if Sorted(s) {
      forall i | 0 <= i < |a| ensures Less(a[i].key, x.key) { assert s[i] == a[i] && s[|a|] == x; }
      forall i | 0 <= i < |b| ensures Less(x.key, b[i].key) { assert s[|a| + 1 + i] == b[i] && s[|a|] == x; }
      forall i, j | 0 <= i < j < |a + b| ensures Less((a + b)[i].key, (a + b)[j].key) {
        assert (a + b)[i] == s[if i < |a| then i else i + 1];
        assert (a + b)[j] == s[if j < |a| then j else j + 1];
      }
    }
    if Sorted(a + b) && AllBelow(a, x.key) && AllAbove(b, x.key) {
      forall i, j | 0 <= i < j < |s| ensures Less(s[i].key, s[j].key) {
        if i != |a| && j != |a| {
          assert s[i] == (a + b)[if i < |a| then i else i - 1];
          assert s[j] == (a + b)[if j < |a| then j else j - 1];
        }
      }
    }
  }

  lemma BelowGreater(s: seq<Item>, x: Item, k: CStr)
    requires AllBelow(s, x.key) && Less(x.key, k)
    ensures AllBelow(s + [x], k)
  {
    forall i | 0 <= i < |s| ensures Less(s[i].key, k) { LessTransitive(s[i].key, x.key, k); }
  }

  lemma AboveSmaller(s: seq<Item>, x: Item, k: CStr)
    requires AllAbove(s, x.key) && Less(k, x.key)
    ensures AllAbove([x] + s, k)
  {
    forall i | 0 <= i < |s| ensures Less(k, s[i].key) { LessTransitive(k, x.key, s[i].key); }
  }

  lemma Regroup<T>(a: seq<T>, b: seq<T>, c: seq<T>, d: seq<T>, e: seq<T>)
    ensures a + (b + c + d) + e == (a + b) + c + (d + e)
    ensures a + b + c == a + (b + c) && c + d + e == c + (d + e)
  {
  }

  // Going right of a smaller key, or left of a greater one, keeps k between what is before and after.
  lemma Descend(c: Path, t: Tree, k: CStr)
    requires t.Node? && Brackets(c, k) && Sorted(Before(c) + InOrder(t) + After(c))
    ensures Less(t.key, k) ==> Brackets(InRight(t.at, t.color, t.key, t.val, t.left, c), k)
    ensures Less(k, t.key) ==> Brackets(InLeft(t.at, t.color, t.key, t.val, t.right, c), k)
  {
    var l, x, r := InOrder(t.left), Item(t.at, t.key, t.val), InOrder(t.right);
    var b, a := Before(c), After(c);
    Regroup(b, l, [x], r, a);
    assert InOrder(t) == l + [x] + r;
    hide InOrder, Sorted, AllBelow, AllAbove, Less;
    SortedAround(b + l, x, r + a);
    if Less(t.key, k) {
      BelowGreater(b + l, x, k);
    }
    if Less(k, t.key) {
      AboveSmaller(r + a, x, k);
    }
  }

  // The side of the parent on which a bracketed key belongs.
  lemma BracketSide(c: Path, k: CStr)
    requires !c.Top? && Brackets(c, k)
    ensures c.InRight? <==> Strcmp(k, c.key) > 0
  {
    StrcmpAntisymmetric(k, c.key);
    if c.InRight? {
      assert Before(c)[|Before(c)| - 1].key == c.key;
    } else {
      assert After(c)[0].key == c.key;
    }
  }

  // A tree has only one place where an absent key may be attached in order.
  lemma {:induction false} AttachmentUnique(c: Path, d: Path, k: CStr)
    requires Plug(c, Leaf) == Plug(d, Leaf) && Brackets(c, k) && Brackets(d, k)
    ensures c == d
    decreases Plug(c, Leaf)
  {
    if c.Top? || d.Top? {
      SizePlug(c, Leaf);
      SizePlug(d, Leaf);
    } else {
      var (c1, c2) := Uppermost(c);
      var (d1, d2) := Uppermost(d);
      UppermostFacts(c, Leaf);
      UppermostFacts(d, Leaf);
      BracketParts(c1, c2, k);
      BracketParts(d1, d2, k);
      BracketSide(c2, k);
      BracketSide(d2, k);
      AttachmentUnique(c1, d1, k);
    }
  }

  // A nonempty path split into the frame of the root and the rest.
  function Uppermost(c: Path): (Path, Path) {
    if c.Top? then (Top, Top)
    else if c.up.Top? then (Top, c)
    else
      var (d, e) := Uppermost(c.up);
      (if c.InLeft? then InLeft(c.at, c.color, c.key, c.val, c.right, d)
       else InRight(c.at, c.color, c.key, c.val, c.left, d), e)
  }

  lemma {:induction false} UppermostFacts(c: Path, t: Tree)
    requires !c.Top?
    ensures var (d, e) := Uppermost(c);
      && c == Compose(d, e) && !e.Top? && e.up == Top
      && Plug(c, t) == Fill(e, Plug(d, t))
    decreases c
  {
    if !c.up.Top? {
      UppermostFacts(c.up, Fill(c, t));
    }
  }

  lemma {:induction false} SizePlug(c: Path, t: Tree)
    ensures Size(Plug(c, t)) >= Size(t) + Depth(c)
    decreases c
  {
    if !c.Top? {
      SizePlug(c.up, Fill(c, t));
    }
  }

  lemma BracketParts(d: Path, e: Path, k: CStr)
    requires Brackets(Compose(d, e), k)
    ensures Brackets(d, k) && Brackets(e, k)
  {
    BeforeAfterCompose(d, e);
    var b, a := Before(Compose(d, e)), After(Compose(d, e));
    forall i | 0 <= i < |Before(e)| ensures Less(Before(e)[i].key, k) { assert b[i] == Before(e)[i]; }
    forall i | 0 <= i < |Before(d)| ensures Less(Before(d)[i].key, k) { assert b[|Before(e)| + i] == Before(d)[i]; }
    forall i | 0 <= i < |After(d)| ensures Less(k, After(d)[i].key) { assert a[i] == After(d)[i]; }
    forall i | 0 <= i < |After(e)| ensures Less(k, After(e)[i].key) { assert a[|After(d)| + i] == After(e)[i]; }
  }

  // ----- search, replacement and insertion at the end of a path

  lemma FoundAt(c: Path, t: Tree, k: CStr)
    requires Brackets(c, k) && (t.Node? ==> t.key == k) && Sorted(InOrder(Plug(c, t)))
    ensures t.Node? <==> k in ToMap(InOrder(Plug(c, t)))
    ensures t.Node? ==> ToMap(InOrder(Plug(c, t)))[k] == t.val
  {
    InOrderPlug(c, t);
    if t.Leaf? {
      NotBetween(Before(c), After(c), k);
      ToMapConcat(Before(c), After(c));
      assert Before(c) + [] + After(c) == Before(c) + After(c);
    } else {
      SortedNode(c, t);
      ToMapAround(Before(c) + InOrder(t.left), Item(t.at, k, t.val), InOrder(t.right) + After(c));
    }
  }

  // The item of a node, and what is before and after it in the whole tree.
  lemma SortedNode(c: Path, t: Tree)
    requires t.Node? && Sorted(InOrder(Plug(c, t)))
    ensures var a, b := Before(c) + InOrder(t.left), InOrder(t.right) + After(c);
      && InOrder(Plug(c, t)) == a + [Item(t.at, t.key, t.val)] + b
      && Sorted(a + b) && AllBelow(a, t.key) && AllAbove(b, t.key)
  {
    InOrderPlug(c, t);
    var a, b := Before(c) + InOrder(t.left), InOrder(t.right) + After(c);
    Regroup(Before(c), InOrder(t.left), [Item(t.at, t.key, t.val)], InOrder(t.right), After(c));
    SortedAround(a, Item(t.at, t.key, t.val), b);
  }

  lemma ReplacedItem(c: Path, t: Tree, v: Val)
    requires t.Node? && Sorted(InOrder(Plug(c, t)))
    ensures var s := Plug(c, t.(val := v));
      Sorted(InOrder(s)) && ToMap(InOrder(s)) == ToMap(InOrder(Plug(c, t)))[t.key := v]
  {
    var t' := t.(val := v);
    var a, b := Before(c) + InOrder(t.left), InOrder(t.right) + After(c);
    SortedNode(c, t);
    InOrderPlug(c, t');
    Regroup(Before(c), InOrder(t.left), [Item(t.at, t.key, v)], InOrder(t.right), After(c));
    assert InOrder(t') == InOrder(t.left) + [Item(t.at, t.key, v)] + InOrder(t.right);
    hide InOrder, ToMap, Sorted, AllBelow, AllAbove;
    SortedAround(a, Item(t.at, t.key, v), b);
    ToMapAround(a, Item(t.at, t.key, t.val), b);
    ToMapAround(a, Item(t.at, t.key, v), b);
  }

  lemma ReplacedShape(c: Path, t: Tree, v: Val)
    requires t.Node? && RedBlack(Plug(c, t)) && !IsRed(Plug(c, t))
    ensures var s := Plug(c, t.(val := v));
      RedBlack(s) && !IsRed(s) && Offs(s) == Offs(Plug(c, t))
  {
    var t' := t.(val := v);
    RedBlackPlug(c, t);
    RedBlackPlug(c, t');
    SeparatePlug(c, t);
    SeparatePlug(c, t');
    if !c.Top? {
      BlackTopPlug(c, t);
      BlackTopPlug(c, t');
    }
  }

  // A new red leaf node meets the condition on which insertion goes on, and adds one item.
  lemma AttachedItem(c: Path, x: Tree)
    requires IsRed(x) && x.left.Leaf? && x.right.Leaf? && Brackets(c, x.key)
    requires var s := Plug(c, Leaf); RedBlack(s) && !IsRed(s) && Sorted(InOrder(s))
    ensures OneRedEdge(c, x)
    ensures InOrder(Plug(c, x)) == Before(c) + [Item(x.at, x.key, x.val)] + After(c)
    ensures Sorted(InOrder(Plug(c, x)))
    ensures ToMap(InOrder(Plug(c, x))) == ToMap(InOrder(Plug(c, Leaf)))[x.key := x.val]
  {
    RedBlackPlug(c, Leaf);
    if !c.Top? { BlackTopPlug(c, Leaf); }
    InOrderPlug(c, Leaf);
    InOrderPlug(c, x);
    assert InOrder(x) == [Item(x.at, x.key, x.val)];
    assert Before(c) + [] + After(c) == Before(c) + After(c);
    SortedAround(Before(c), Item(x.at, x.key, x.val), After(c));
    ToMapAround(Before(c), Item(x.at, x.key, x.val), After(c));
  }

  // ----- removal

  // What is left of the in-order sequence without the node at the end of path c.
  function Without(c: Path, t: Tree): seq<Item>
    requires t.Node?
  {
    (Before(c) + InOrder(t.left)) + (InOrder(t.right) + After(c))
  }

  lemma RemovedItem(c: Path, t: Tree)
    requires t.Node? && Sorted(InOrder(Plug(c, t)))
    ensures Sorted(Without(c, t))
    ensures ToMap(Without(c, t)) == ToMap(InOrder(Plug(c, t))) - {t.key}
  {
    SortedNode(c, t);
    ToMapAround(Before(c) + InOrder(t.left), Item(t.at, t.key, t.val), InOrder(t.right) + After(c));
  }

  // A node with at most one child: the child stands for the rest.
  lemma BypassedOrder(c: Path, t: Tree)
    requires t.Node? && (t.left.Leaf? || t.right.Leaf?)
    ensures InOrder(Plug(c, OnlyChild(t))) == Without(c, t)
  {
    InOrderPlug(c, OnlyChild(t));
    assert InOrder(Leaf) == [];
    assert Before(c) + [] + (InOrder(t.right) + After(c)) == Before(c) + InOrder(t.right) + After(c);
    assert (Before(c) + InOrder(t.left)) + ([] + After(c)) == Before(c) + InOrder(t.left) + After(c);
  }

  // A node with two children: its successor u, at the end of path d in the right subtree, is taken out of
  // there and put in the node's place.
  lemma SucceededOrder(c: Path, t: Tree, d: Path, u: Tree)
    requires t.Node? && u.Node? && u.left.Leaf? && AllLeft(d) && Plug(d, u) == t.right
    ensures var e := InRight(u.at, t.color, u.key, u.val, t.left, c);
      InOrder(Plug(Compose(d, e), u.right)) == Without(c, t)
  {
    var e := InRight(u.at, t.color, u.key, u.val, t.left, c);
    var x := [Item(u.at, u.key, u.val)];
    InOrderPlug(Compose(d, e), u.right);
    BeforeAfterCompose(d, e);
    NothingBefore(d);
    InOrderPlug(d, u);
    assert InOrder(u) == x + InOrder(u.right);
    Reassociate(Before(c), InOrder(t.left), x, InOrder(u.right), After(d), After(c));
  }

  lemma Reassociate<T>(a: seq<T>, b: seq<T>, x: seq<T>, r: seq<T>, d: seq<T>, e: seq<T>)
    ensures (a + (b + x) + []) + r + (d + e) == (a + b) + (([] + (x + r) + d) + e)
  {
  }

  // The successor is another node than t, and its place is outside the rest of t.
  lemma SuccessorPlace(c: Path, t: Tree, d: Path, u: Tree)
    requires t.Node? && u.Node? && u.left.Leaf? && Plug(d, u) == t.right && Separate(c, t)
    ensures var t' := Node(t.at, t.color, t.key, t.val, t.left, Plug(d, u.right));
      u.at !in Offs(t') && u.at !in PathOffs(c)
    ensures var g := InRight(u.at, t.color, u.key, u.val, t.left, c);
      t.at !in Offs(u.right) && t.at !in PathOffs(Compose(d, g))
    ensures UpAt(Compose(d, InRight(t.at, t.color, t.key, t.val, t.left, c))) == t.at <==> d.Top?
    ensures var g := InRight(u.at, t.color, u.key, u.val, t.left, c);
      UpAt(Compose(d, g)) == if d.Top? then u.at else UpAt(d)
    ensures !d.Top? ==> UpAt(Compose(d, InRight(t.at, t.color, t.key, t.val, t.left, c))) == UpAt(d)
  {
    SeparatePlug(d, u);
    SeparatePlug(d, u.right);
    assert Distinct(u);
    PathOffsCompose(d, InRight(u.at, t.color, u.key, u.val, t.left, c));
  }

  lemma SuccessorBalance(c: Path, t: Tree, d: Path, u: Tree)
    requires t.Node? && u.Node? && u.left.Leaf? && Plug(d, u) == t.right
    requires RedBlack(Plug(c, t)) && !IsRed(Plug(c, t))
    ensures var e := Compose(d, InRight(u.at, t.color, u.key, u.val, t.left, c));
      && (u.color == Black ==> Deficit(e, u.right))
      && (u.color == Red ==> RedBlack(Plug(e, u.right)) && !IsRed(Plug(e, u.right)))
  {
    var f := InRight(t.at, t.color, t.key, t.val, t.left, c);
    var g := InRight(u.at, t.color, u.key, u.val, t.left, c);
    PlugCompose(d, f, u);
    SpliceFacts(Compose(d, f), u);
    assert OnlyChild(u) == u.right;
    if u.color == Black {
      FitsRenamed(d, f, g, BlackHeight(u.right) + 1, false);
    } else {
      RedBlackPlug(Compose(d, f), u.right);
      RedBlackPlug(Compose(d, g), u.right);
      FitsRenamed(d, f, g, BlackHeight(u.right), IsRed(u.right));
      BlackTopPlug(Compose(d, f), u.right);
      BlackTopPlug(Compose(d, g), u.right);
    }
  }

  lemma WithoutOffs(c: Path, t: Tree, s: Tree)
    requires t.Node? && Distinct(Plug(c, t)) && InOrder(s) == Without(c, t)
    ensures Offs(s) == Offs(Plug(c, t)) - {t.at}
  {
    hide *;
    OffsApart(c, t);
    WithoutAts(c, t);
    OffsOfInOrder(s);
  }

  lemma OffsApart(c: Path, t: Tree)
    requires t.Node? && Distinct(Plug(c, t))
    ensures t.at !in Offs(t.left) + Offs(t.right) + PathOffs(c)
    ensures Offs(Plug(c, t)) == {t.at} + (Offs(t.left) + Offs(t.right) + PathOffs(c))
  {
    SeparatePlug(c, t);
    assert Offs(t) == {t.at} + Offs(t.left) + Offs(t.right);
  }

  lemma WithoutAts(c: Path, t: Tree)
    requires t.Node?
    ensures Ats(Without(c, t)) == Offs(t.left) + Offs(t.right) + PathOffs(c)
  {
    hide Offs, PathOffs, InOrder, Before, After, Ats;
    OffsOfInOrder(t.left);
    OffsOfInOrder(t.right);
    PathOffsOfOrder(c);
    AtsConcat(Before(c) + InOrder(t.left), InOrder(t.right) + After(c));
    AtsConcat(Before(c), InOrder(t.left));
    AtsConcat(InOrder(t.right), After(c));
  }

  lemma {:induction false} PathOffsOfOrder(c: Path)
    ensures PathOffs(c) == Ats(Before(c)) + Ats(After(c))
  {
    if !c.Top? {
      OffsOfInOrder(Side(c));
      PathOffsOfOrder(c.up);
      var x := [Item(c.at, c.key, c.val)];
      assert Ats(x) == {c.at};
      if c.InLeft? {
        AtsConcat(x + InOrder(c.right), After(c.up));
        AtsConcat(x, InOrder(c.right));
      } else {
        AtsConcat(Before(c.up), InOrder(c.left) + x);
        AtsConcat(InOrder(c.left), x);
      }
    }
  }
}
