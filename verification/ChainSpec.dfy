/** Linked chain nodes as a sequence: what the links spell, and what linking in and out does to it. */
module ChainSpec {
  import opened Values
  import opened Sequences

  datatype ChainNode = ChainNode(prev: Addr, next: Addr, val: Val)

  type Nodes = map<Addr, ChainNode>

  // Link l leads to place j of sequence q, or is null when there is no such place. Only the offset of a
  // null link counts.
  predicate LeadsTo(l: Addr, q: seq<Addr>, j: int) {
    if 0 <= j < |q| then l == q[j] else l.offset == NIL
  }

  predicate NodeAt(nodes: Nodes, q: seq<Addr>, j: nat)
    requires j < |q|
  {
    && q[j] in nodes && q[j].offset != NIL
    && LeadsTo(nodes[q[j]].next, q, j + 1) && LeadsTo(nodes[q[j]].prev, q, j - 1)
  }

  // The nodes are those of sequence q, linked both ways in its order.
  ghost predicate Spelled(nodes: Nodes, q: seq<Addr>) {
    && NoDuplicates(q)
    && (forall a :: a in nodes <==> a in q)
    && (forall j :: 0 <= j < |q| ==> NodeAt(nodes, q, j))
  }

  function ValsOf(nodes: Nodes, q: seq<Addr>): seq<Val> {
    seq(|q|, i requires 0 <= i < |q| => if q[i] in nodes then nodes[q[i]].val else Val(IntVal, NULL_ADDR))
  }

  // ----- a node is linked in before place p

  function SetNext(nodes: Nodes, q: seq<Addr>, j: int, l: Addr): Nodes {
    if 0 <= j < |q| && q[j] in nodes then nodes[q[j] := nodes[q[j]].(next := l)] else nodes
  }

  function SetPrev(nodes: Nodes, q: seq<Addr>, j: int, l: Addr): Nodes {
    if 0 <= j < |q| && q[j] in nodes then nodes[q[j] := nodes[q[j]].(prev := l)] else nodes
  }

  function Inserted(q: seq<Addr>, p: nat, a: Addr): seq<Addr>
    requires p <= |q|
  {
    q[..p] + [a] + q[p..]
  }

  // The node's neighbours are linked to it from both sides.
  function Spliced(nodes: Nodes, q: seq<Addr>, i: int, l: Addr, k: int, m: Addr): Nodes {
    SetPrev(SetNext(nodes, q, i, l), q, k, m)
  }

  lemma SplicedNode(nodes: Nodes, q: seq<Addr>, i: int, l: Addr, k: int, m: Addr, x: Addr)
    requires x in nodes
    ensures Spliced(nodes, q, i, l, k, m).Keys == nodes.Keys
    ensures Spliced(nodes, q, i, l, k, m)[x] ==
      ChainNode(if 0 <= k < |q| && x == q[k] then m else nodes[x].prev,
                if 0 <= i < |q| && x == q[i] then l else nodes[x].next, nodes[x].val)
  {
  }

  // When one of the two neighbours is missing.
  lemma SplicedOne(nodes: Nodes, q: seq<Addr>, i: int, l: Addr, k: int, m: Addr)
    ensures !(0 <= i < |q|) && 0 <= k < |q| && q[k] in nodes ==>
      Spliced(nodes, q, i, l, k, m) == nodes[q[k] := nodes[q[k]].(prev := m)]
    ensures !(0 <= k < |q|) && 0 <= i < |q| && q[i] in nodes ==>
      Spliced(nodes, q, i, l, k, m) == nodes[q[i] := nodes[q[i]].(next := l)]
    ensures !(0 <= i < |q|) && !(0 <= k < |q|) ==> Spliced(nodes, q, i, l, k, m) == nodes
  {
  }

  // When there are two, the order of the two writes does not matter.
  lemma SplicedBoth(nodes: Nodes, q: seq<Addr>, i: int, l: Addr, k: int, m: Addr)
    requires 0 <= i < |q| && 0 <= k < |q| ==> q[i] in nodes && q[k] in nodes && q[i] != q[k]
    ensures 0 <= i < |q| && 0 <= k < |q| ==>
      && Spliced(nodes, q, i, l, k, m) == nodes[q[i] := nodes[q[i]].(next := l)][q[k] := nodes[q[k]].(prev := m)]
      && Spliced(nodes, q, i, l, k, m) == nodes[q[k] := nodes[q[k]].(prev := m)][q[i] := nodes[q[i]].(next := l)]
  {
  }

  lemma InsertedEnds(q: seq<Addr>, p: nat, a: Addr)
    requires p <= |q|
    ensures |Inserted(q, p, a)| == |q| + 1
    ensures Inserted(q, p, a)[0] == if p == 0 then a else q[0]
    ensures Inserted(q, p, a)[|q|] == if p == |q| then a else q[|q| - 1]
  {
  }

  lemma InsertedPlace(nodes: Nodes, q: seq<Addr>, p: nat, a: Addr, n: ChainNode, j: nat)
    requires NoDuplicates(q) && p <= |q| && a !in q && a.offset != NIL && j <= |q|
    requires forall i :: 0 <= i < |q| ==> NodeAt(nodes, q, i)
    requires LeadsTo(n.prev, q, p - 1) && LeadsTo(n.next, q, p)
    ensures var nodes', q' := Spliced(nodes[a := n], q, p - 1, a, p, a), Inserted(q, p, a);
      NodeAt(nodes', q', j) && nodes'[q'[j]].val == if j == p then n.val else nodes[q'[j]].val
  {
    var q' := Inserted(q, p, a);
    if j < p {
      assert NodeAt(nodes, q, j) && q'[j] == q[j];
    } else if j > p {
      assert NodeAt(nodes, q, j - 1) && q'[j] == q[j - 1];
    }
    hide Spliced, Inserted;
    SplicedNode(nodes[a := n], q, p - 1, a, p, a, q'[j]);
    InsertedIndex(q, p, a, j);
    if j > 0 { InsertedIndex(q, p, a, j - 1); }
    if j < |q| { InsertedIndex(q, p, a, j + 1); }
  }

  lemma InsertedIndex(q: seq<Addr>, p: nat, a: Addr, j: nat)
    requires p <= |q| && j <= |q|
    ensures |Inserted(q, p, a)| == |q| + 1
    ensures Inserted(q, p, a)[j] == if j < p then q[j] else if j == p then a else q[j - 1]
  {
  }

  lemma InsertedSpelled(nodes: Nodes, q: seq<Addr>, p: nat, a: Addr, n: ChainNode)
    requires Spelled(nodes, q) && p <= |q| && a !in nodes && a.offset != NIL
    requires LeadsTo(n.prev, q, p - 1) && LeadsTo(n.next, q, p)
    ensures var nodes', q' := Spliced(nodes[a := n], q, p - 1, a, p, a), Inserted(q, p, a);
      Spelled(nodes', q') && ValsOf(nodes', q') == ValsOf(nodes, q)[..p] + [n.val] + ValsOf(nodes, q)[p..]
  {
    hide Spliced, NodeAt, LeadsTo;
    var nodes', q' := Spliced(nodes[a := n], q, p - 1, a, p, a), Inserted(q, p, a);
    SplicedNode(nodes[a := n], q, p - 1, a, p, a, a);
    forall j | 0 <= j < |q'|
      ensures NodeAt(nodes', q', j) && nodes'[q'[j]].val == if j == p then n.val else nodes[q'[j]].val
    {
      InsertedPlace(nodes, q, p, a, n, j);
    }
    InsertedDistinct(q, p, a);
    InsertedVals(nodes, nodes', q, p, a, n.val);
  }

  lemma InsertedDistinct(q: seq<Addr>, p: nat, a: Addr)
    requires NoDuplicates(q) && p <= |q| && a !in q
    ensures NoDuplicates(Inserted(q, p, a))
    ensures forall x :: x in Inserted(q, p, a) <==> x == a || x in q
  {
    assert q == q[..p] + q[p..];
  }

  lemma InsertedVals(nodes: Nodes, nodes': Nodes, q: seq<Addr>, p: nat, a: Addr, v: Val)
    requires p <= |q| && forall x :: x in q ==> x in nodes
    requires var q' := Inserted(q, p, a);
      forall j :: 0 <= j < |q'| ==>
        && q'[j] in nodes' && (j != p ==> q'[j] in nodes)
        && nodes'[q'[j]].val == if j == p then v else nodes[q'[j]].val
    ensures ValsOf(nodes', Inserted(q, p, a)) == ValsOf(nodes, q)[..p] + [v] + ValsOf(nodes, q)[p..]
  {
  }

  // ----- the node at place p is linked out

  function Removed(q: seq<Addr>, p: nat): seq<Addr>
    requires p < |q|
  {
    q[..p] + q[p + 1..]
  }

  lemma RemovedIndex(q: seq<Addr>, p: nat, j: nat)
    requires p < |q| && j < |q| - 1
    ensures |Removed(q, p)| == |q| - 1
    ensures Removed(q, p)[j] == if j < p then q[j] else q[j + 1]
  {
  }

  lemma RemovedEnds(q: seq<Addr>, p: nat, l: Addr, m: Addr)
    requires p < |q| && LeadsTo(l, q, p + 1) && LeadsTo(m, q, p - 1)
    ensures |Removed(q, p)| == |q| - 1
    ensures p == 0 ==> LeadsTo(l, Removed(q, p), 0)
    ensures p == |q| - 1 ==> LeadsTo(m, Removed(q, p), |q| - 2)
    ensures p > 0 ==> LeadsTo(q[0], Removed(q, p), 0)
    ensures p < |q| - 1 ==> LeadsTo(q[|q| - 1], Removed(q, p), |q| - 2)
  {
  }

  lemma RemovedPlace(nodes: Nodes, q: seq<Addr>, p: nat, l: Addr, m: Addr, j: nat)
    requires NoDuplicates(q) && p < |q| && j < |q| - 1
    requires forall i :: 0 <= i < |q| ==> NodeAt(nodes, q, i)
    requires LeadsTo(l, q, p + 1) && LeadsTo(m, q, p - 1)
    ensures var nodes', q' := Spliced(nodes, q, p - 1, l, p + 1, m) - {q[p]}, Removed(q, p);
      |q'| == |q| - 1 && q'[j] in nodes' && NodeAt(nodes', q', j) && nodes'[q'[j]].val == nodes[q'[j]].val
  {
    var q' := Removed(q, p);
    RemovedIndex(q, p, j);
    if j > 0 { RemovedIndex(q, p, j - 1); }
    if j + 1 < |q| - 1 { RemovedIndex(q, p, j + 1); }
    assert NodeAt(nodes, q, if j < p then j else j + 1);
    hide Spliced, Removed;
    SplicedNode(nodes, q, p - 1, l, p + 1, m, q'[j]);
  }

  lemma RemovedSpelled(nodes: Nodes, q: seq<Addr>, p: nat, l: Addr, m: Addr)
    requires Spelled(nodes, q) && p < |q| && LeadsTo(l, q, p + 1) && LeadsTo(m, q, p - 1)
    ensures var nodes', q' := Spliced(nodes, q, p - 1, l, p + 1, m) - {q[p]}, Removed(q, p);
      Spelled(nodes', q') && ValsOf(nodes', q') == ValsOf(nodes, q)[..p] + ValsOf(nodes, q)[p + 1..]
    ensures q[p] in nodes && nodes[q[p]].val == ValsOf(nodes, q)[p]
  {
    hide Spliced, LeadsTo, NodeAt, Removed, ValsOf;
    var nodes', q' := Spliced(nodes, q, p - 1, l, p + 1, m) - {q[p]}, Removed(q, p);
    SplicedNode(nodes, q, p - 1, l, p + 1, m, q[p]);
    assert |q'| == |q| - 1 by { if |q| > 1 { RemovedIndex(q, p, 0); } else { RemovedEnds(q, p, l, m); } }
    forall j | 0 <= j < |q'| ensures q'[j] in nodes' && NodeAt(nodes', q', j) && nodes'[q'[j]].val == nodes[q'[j]].val {
      RemovedPlace(nodes, q, p, l, m, j);
    }
    RemovedDistinct(q, p);
    RemovedVals(nodes, nodes', q, p);
  }

  lemma RemovedDistinct(q: seq<Addr>, p: nat)
    requires NoDuplicates(q) && p < |q|
    ensures NoDuplicates(Removed(q, p))
    ensures forall x :: x in Removed(q, p) <==> x != q[p] && x in q
  {
    assert q == q[..p] + [q[p]] + q[p + 1..];
  }

  lemma RemovedVals(nodes: Nodes, nodes': Nodes, q: seq<Addr>, p: nat)
    requires p < |q| && forall x :: x in q ==> x in nodes
    requires var q' := Removed(q, p);
      forall j :: 0 <= j < |q'| ==> q'[j] in nodes' && q'[j] in nodes && nodes'[q'[j]].val == nodes[q'[j]].val
    ensures ValsOf(nodes', Removed(q, p)) == ValsOf(nodes, q)[..p] + ValsOf(nodes, q)[p + 1..]
    ensures ValsOf(nodes, q)[p] == nodes[q[p]].val
  {
  }

  // ----- walks

  function Forward(nodes: Nodes, a: Addr, n: nat): seq<Addr>
    decreases n
  {
    if n == 0 || a !in nodes then [] else [a] + Forward(nodes, nodes[a].next, n - 1)
  }

  function Backward(nodes: Nodes, a: Addr, n: nat): seq<Addr>
    decreases n
  {
    if n == 0 || a !in nodes then [] else [a] + Backward(nodes, nodes[a].prev, n - 1)
  }

  lemma {:induction false} ForwardFrom(nodes: Nodes, q: seq<Addr>, j: nat)
    requires Spelled(nodes, q) && j < |q|
    ensures Forward(nodes, q[j], |q| - j) == q[j..]
    decreases |q| - j
  {
    assert NodeAt(nodes, q, j);
    if j + 1 < |q| { ForwardFrom(nodes, q, j + 1); }
  }

  lemma {:induction false} BackwardFrom(nodes: Nodes, q: seq<Addr>, j: nat)
    requires Spelled(nodes, q) && j < |q|
    ensures Backward(nodes, q[j], j + 1) == Reversed(q[..j + 1])
  {
    assert NodeAt(nodes, q, j);
    assert q[..j + 1][..j] == q[..j];
    if j > 0 { BackwardFrom(nodes, q, j - 1); }
  }

  // From the header the links spell the sequence, from the tail its reverse, and both walks end.
  lemma WalksAgree(nodes: Nodes, q: seq<Addr>, header: Addr, tail: Addr)
    requires Spelled(nodes, q) && LeadsTo(header, q, 0) && LeadsTo(tail, q, |q| - 1)
    ensures Forward(nodes, header, |q|) == q && Backward(nodes, tail, |q|) == Reversed(q)
    ensures |Reversed(q)| == |q| && forall k :: 0 <= k < |q| ==> Reversed(q)[k] == q[|q| - 1 - k]
    ensures q != [] ==> header in nodes && tail in nodes && nodes[header].prev.offset == NIL == nodes[tail].next.offset
  {
    hide Spelled;
    ReversedIs(q);
    if q != [] {
      EndNodes(nodes, q);
      ForwardFrom(nodes, q, 0);
      BackwardFrom(nodes, q, |q| - 1);
      assert q[..|q|] == q && q[0..] == q;
    }
  }

  lemma EndNodes(nodes: Nodes, q: seq<Addr>)
    requires Spelled(nodes, q) && q != []
    ensures q[0] in nodes && nodes[q[0]].prev.offset == NIL
    ensures q[|q| - 1] in nodes && nodes[q[|q| - 1]].next.offset == NIL
  {
    assert NodeAt(nodes, q, 0) && NodeAt(nodes, q, |q| - 1);
  }

  // ----- the blocks of a chain

  // Where the characters of each string record are.
  type Strings = map<Addr, Addr>

  predicate InPlace(strings: Strings, v: Val) {
    v.kind == StrVal ==> v.value in strings && strings[v.value] != v.value
  }

  // The blocks of a value's string.
  function StringBlocks(strings: Strings, v: Val): set<Addr> {
    if v.kind == StrVal && v.value in strings then {v.value, strings[v.value]} else {}
  }

  // A node and its value's string.
  function NodeBlocks(nodes: Nodes, strings: Strings, a: Addr): set<Addr> {
    {a} + if a in nodes then StringBlocks(strings, nodes[a].val) else {}
  }

  function AllBlocks(nodes: Nodes, strings: Strings, q: seq<Addr>): set<Addr> {
    if q == [] then {} else AllBlocks(nodes, strings, q[..|q| - 1]) + NodeBlocks(nodes, strings, q[|q| - 1])
  }

  // Every node's string is in place, and no block belongs to two nodes or is both a node and part of a string.
  ghost predicate OwnBlocks(nodes: Nodes, strings: Strings, q: seq<Addr>) {
    && (forall i :: 0 <= i < |q| ==>
          q[i] in nodes && InPlace(strings, nodes[q[i]].val) && q[i] !in StringBlocks(strings, nodes[q[i]].val))
    && (forall i, j :: 0 <= i < j < |q| ==> NodeBlocks(nodes, strings, q[i]) !! NodeBlocks(nodes, strings, q[j]))
  }

  function StringCount(vals: seq<Val>): nat {
    if vals == [] then 0
    else StringCount(vals[..|vals| - 1]) + if vals[|vals| - 1].kind == StrVal then 1 else 0
  }

  lemma {:induction false} StringCountIs(vals: seq<Val>)
    ensures StringCount(vals) == |set i | 0 <= i < |vals| && vals[i].kind == StrVal|
  {
    if vals != [] {
      var n := |vals| - 1;
      StringCountIs(vals[..n]);
      var a, b := set i | 0 <= i < n && vals[..n][i].kind == StrVal, set i | 0 <= i < |vals| && vals[i].kind == StrVal;
      if vals[n].kind == StrVal {
        assert b == a + {n};
      } else {
        assert b == a;
      }
    }
  }

  // Each node's blocks are outside those of the nodes before it.
  lemma {:induction false} BlocksApart(nodes: Nodes, strings: Strings, q: seq<Addr>, n: nat, j: nat)
    requires OwnBlocks(nodes, strings, q) && n <= j < |q|
    ensures AllBlocks(nodes, strings, q[..n]) !! NodeBlocks(nodes, strings, q[j])
  {
    hide NodeBlocks;
    if n > 0 {
      assert q[..n][..n - 1] == q[..n - 1];
      BlocksApart(nodes, strings, q, n - 1, j);
    }
  }

  lemma {:induction false} PartOfAll(nodes: Nodes, strings: Strings, q: seq<Addr>, i: nat)
    requires i < |q|
    ensures NodeBlocks(nodes, strings, q[i]) <= AllBlocks(nodes, strings, q)
    decreases |q|
  {
    if i < |q| - 1 { PartOfAll(nodes, strings, q[..|q| - 1], i); }
  }

  // One block for each node and two more for each string.
  lemma {:induction false} BlocksCount(nodes: Nodes, strings: Strings, q: seq<Addr>)
    requires OwnBlocks(nodes, strings, q)
    ensures |AllBlocks(nodes, strings, q)| == |q| + 2 * StringCount(ValsOf(nodes, q))
    ensures StringCount(ValsOf(nodes, q))
      == |set i | 0 <= i < |ValsOf(nodes, q)| && ValsOf(nodes, q)[i].kind == StrVal|
  {
    hide *;
    StringCountIs(ValsOf(nodes, q));
    CountsUnfold(nodes, strings, q);
    if q != [] {
      var n := |q| - 1;
      OwnPrefix(nodes, strings, q, n);
      BlocksCount(nodes, strings, q[..n]);
      BlocksApart(nodes, strings, q, n, n);
      OneNode(nodes, strings, q, n);
      ApartCount(AllBlocks(nodes, strings, q[..n]), NodeBlocks(nodes, strings, q[n]));
    }
  }

  lemma ApartCount(a: set<Addr>, b: set<Addr>)
    requires a !! b
    ensures |a + b| == |a| + |b|
  {
  }

  lemma CountsUnfold(nodes: Nodes, strings: Strings, q: seq<Addr>)
    ensures |ValsOf(nodes, q)| == |q|
    ensures q == [] ==> AllBlocks(nodes, strings, q) == {} && StringCount(ValsOf(nodes, q)) == 0
    ensures q != [] ==>
      var n := |q| - 1;
      && AllBlocks(nodes, strings, q) == AllBlocks(nodes, strings, q[..n]) + NodeBlocks(nodes, strings, q[n])
      && StringCount(ValsOf(nodes, q))
         == StringCount(ValsOf(nodes, q[..n])) + if ValsOf(nodes, q)[n].kind == StrVal then 1 else 0
  {
    if q != [] { assert ValsOf(nodes, q)[..|q| - 1] == ValsOf(nodes, q[..|q| - 1]); }
  }

  lemma OwnPrefix(nodes: Nodes, strings: Strings, q: seq<Addr>, n: nat)
    requires OwnBlocks(nodes, strings, q) && n <= |q|
    ensures OwnBlocks(nodes, strings, q[..n])
  {
    hide NodeBlocks, StringBlocks, InPlace;
  }

  lemma OneNode(nodes: Nodes, strings: Strings, q: seq<Addr>, n: nat)
    requires OwnBlocks(nodes, strings, q) && n < |q|
    ensures |NodeBlocks(nodes, strings, q[n])| == 1 + if ValsOf(nodes, q)[n].kind == StrVal then 2 else 0
  {
    var v := nodes[q[n]].val;
    if v.kind == StrVal {
      assert NodeBlocks(nodes, strings, q[n]) == {q[n], v.value, strings[v.value]};
    }
  }

  // ----- runs

  datatype Step =
    | AtHead(val: Val)
    | AtTail(val: Val)
    | FromHead
    | FromTail
    | After(idx: int, val: Val)
    | Delete(val: Val)

  // The values in a chain, and those pulled from it so far.
  datatype Account = Account(vals: seq<Val>, pulled: seq<Val>)

  // The first place whose value compares equal, the length if there is none.
  function FirstEqual(cmp: (Val, Val) -> int, s: seq<Val>, v: Val): nat {
    if s == [] || cmp(s[0], v) == 0 then 0 else 1 + FirstEqual(cmp, s[1..], v)
  }

  lemma {:induction false} FirstEqualIs(cmp: (Val, Val) -> int, s: seq<Val>, v: Val, i: nat)
    requires i <= |s| && (i < |s| ==> cmp(s[i], v) == 0) && forall j :: 0 <= j < i ==> cmp(s[j], v) != 0
    ensures FirstEqual(cmp, s, v) == i
  {
    if i > 0 {
      assert cmp(s[0], v) != 0;
      FirstEqualIs(cmp, s[1..], v, i - 1);
    }
  }

  function Stepped(cmp: (Val, Val) -> int, a: Account, step: Step): Account {
    match step
    case AtHead(v) => a.(vals := [v] + a.vals)
    case AtTail(v) => a.(vals := a.vals + [v])
    case FromHead => if a.vals == [] then a else Account(a.vals[1..], a.pulled + [a.vals[0]])
    case FromTail =>
      if a.vals == [] then a else Account(a.vals[..|a.vals| - 1], a.pulled + [a.vals[|a.vals| - 1]])
    case After(idx, v) =>
      if 1 <= idx <= |a.vals| then a.(vals := a.vals[..idx] + [v] + a.vals[idx..]) else a
    case Delete(v) =>
      var i := FirstEqual(cmp, a.vals, v);
      if i < |a.vals| then a.(vals := a.vals[..i] + a.vals[i + 1..]) else a
  }

  // The reference sequence after a run of steps.
  function Replayed(cmp: (Val, Val) -> int, a: Account, steps: seq<Step>): Account {
    if steps == [] then a else Stepped(cmp, Replayed(cmp, a, steps[..|steps| - 1]), steps[|steps| - 1])
  }

  // ----- comparison

  // The result of touchdb_chain_cmp on the values: that of the first pair that differs, else by length.
  function Compared(cmp: (Val, Val) -> int, s: seq<Val>, t: seq<Val>): int {
    if s == [] then (if t == [] then 0 else -1)
    else if t == [] then 1
    else if cmp(s[0], t[0]) != 0 then cmp(s[0], t[0])
    else Compared(cmp, s[1..], t[1..])
  }

  lemma {:induction false} ComparedEqual(cmp: (Val, Val) -> int, s: seq<Val>, t: seq<Val>)
    ensures Compared(cmp, s, t) == 0 <==> |s| == |t| && forall i :: 0 <= i < |s| ==> cmp(s[i], t[i]) == 0
  {
    if s != [] && t != [] {
      ComparedEqual(cmp, s[1..], t[1..]);
      if Compared(cmp, s, t) == 0 {
        forall i | 0 <= i < |s| ensures cmp(s[i], t[i]) == 0 {
          if i > 0 { assert cmp(s[1..][i - 1], t[1..][i - 1]) == 0; }
        }
      }
      if |s| == |t| && forall i :: 0 <= i < |s| ==> cmp(s[i], t[i]) == 0 {
        assert cmp(s[0], t[0]) == 0;
        forall i | 0 <= i < |s| - 1 ensures cmp(s[1..][i], t[1..][i]) == 0 { assert cmp(s[i + 1], t[i + 1]) == 0; }
      }
    }
  }

  // A comparison of values as touchdb_val_cmp makes it: -1 for values of different kinds, whichever comes first.
  ghost predicate ByKind(cmp: (Val, Val) -> int) {
    forall a: Val, b: Val :: if a.kind == b.kind then cmp(a, b) == -cmp(b, a) else cmp(a, b) == -1
  }

  // The first place at which the values do not compare equal, or at which one of the sequences has ended.
  function FirstDifference(cmp: (Val, Val) -> int, s: seq<Val>, t: seq<Val>): nat {
    if s == [] || t == [] || cmp(s[0], t[0]) != 0 then 0 else 1 + FirstDifference(cmp, s[1..], t[1..])
  }

  lemma {:induction false} FirstDifferenceIs(cmp: (Val, Val) -> int, s: seq<Val>, t: seq<Val>)
    ensures var i := FirstDifference(cmp, s, t);
      && i <= |s| && i <= |t| && (forall j :: 0 <= j < i ==> cmp(s[j], t[j]) == 0)
      && (i < |s| && i < |t| ==> cmp(s[i], t[i]) != 0)
  {
    if s != [] && t != [] && cmp(s[0], t[0]) == 0 {
      FirstDifferenceIs(cmp, s[1..], t[1..]);
      var i := FirstDifference(cmp, s, t);
      forall j | 0 <= j < i ensures cmp(s[j], t[j]) == 0 {
        if j > 0 { assert cmp(s[1..][j - 1], t[1..][j - 1]) == 0; }
      }
    }
  }

  // The result is that of the first pair that does not compare equal, taken in the order of the arguments; if
  // there is none, a longer first sequence gives 1 and a shorter one -1.
  lemma {:induction false} ComparedIs(cmp: (Val, Val) -> int, s: seq<Val>, t: seq<Val>)
    ensures var i, r := FirstDifference(cmp, s, t), Compared(cmp, s, t);
      && i <= |s| && i <= |t|
      && if i < |s| && i < |t| then r == cmp(s[i], t[i])
         else if |s| > |t| then r == 1
         else if |s| < |t| then r == -1
         else r == 0
  {
    if s != [] && t != [] && cmp(s[0], t[0]) == 0 {
      ComparedIs(cmp, s[1..], t[1..]);
    }
  }

  // The result is antisymmetric unless the first values that do not compare equal are of different kinds.
  lemma {:induction false} ComparedAntisymmetric(cmp: (Val, Val) -> int, s: seq<Val>, t: seq<Val>)
    requires ByKind(cmp)
    ensures Compared(cmp, s, t) == -Compared(cmp, t, s)
      <==> var i := FirstDifference(cmp, s, t); i < |s| && i < |t| ==> s[i].kind == t[i].kind
  {
    if s != [] && t != [] && cmp(s[0], t[0]) == 0 {
      ComparedAntisymmetric(cmp, s[1..], t[1..]);
    }
  }

  // An integer and a string: either comes before the other.
  lemma ComparedExample(cmp: (Val, Val) -> int, a: Addr)
    requires ByKind(cmp)
    ensures var s, t := [Val(IntVal, NULL_ADDR)], [Val(StrVal, a)];
      Compared(cmp, s, t) == -1 == Compared(cmp, t, s)
  {
  }
}
