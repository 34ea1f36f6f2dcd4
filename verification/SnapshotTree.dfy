/**
 The snapshot forest: built from a flat list whose parent names may dangle or
 form cycles, by a one-pass index and a depth-bounded recursion, then flattened
 into display order.
 */
module SnapshotTree {
  import opened Wrappers

  datatype SnapshotInfo = SnapshotInfo(
    name: string,
    description: string,
    creationTime: int,
    state: string,
    parent: Option<string>,
    isCurrent: bool)

  datatype Node = Node(info: SnapshotInfo, children: Nodes, depth: nat)

  /** A vector of nodes, as a list. */
  datatype Nodes = Nil | Cons(head: Node, tail: Nodes)

  type Index = map<string, seq<nat>>
  type Entry = (SnapshotInfo, nat)

  const MAX_SNAPSHOT_TREE_DEPTH: nat := 256

  // -------------------------------------------------------------------- building

  /** Positions below `n` of the snapshots with parent `p`, in list order. */
  function Positions(snaps: seq<SnapshotInfo>, p: Option<string>, n: nat): (r: seq<nat>)
    requires n <= |snaps|
    ensures forall k :: 0 <= k < |r| ==> r[k] < n
  {
    if n == 0 then []
    else Positions(snaps, p, n - 1) + if snaps[n - 1].parent == p then [n - 1] else []
  }

  lemma {:induction false} PositionsMembers(snaps: seq<SnapshotInfo>, p: Option<string>, n: nat, i: nat)
    requires n <= |snaps|
    ensures i in Positions(snaps, p, n) <==> i < n && snaps[i].parent == p
  {
    if n == 0 {
    } else {
      PositionsMembers(snaps, p, n - 1, i);
    }
  }

  lemma {:induction false} PositionsIncrease(snaps: seq<SnapshotInfo>, p: Option<string>, n: nat)
    requires n <= |snaps|
    ensures Increasing(Positions(snaps, p, n))
  {
    if n == 0 {
    } else {
      PositionsIncrease(snaps, p, n - 1);
    }
  }

  lemma PositionsSpec(snaps: seq<SnapshotInfo>, p: Option<string>, n: nat)
    requires n <= |snaps|
    ensures var r := Positions(snaps, p, n);
            && (forall i :: i in r <==> 0 <= i < n && snaps[i].parent == p)
            && Increasing(r)
  {
    PositionsIncrease(snaps, p, n);
    forall i: nat ensures i in Positions(snaps, p, n) <==> i < n && snaps[i].parent == p {
      PositionsMembers(snaps, p, n, i);
    }
  }

  function ChildPositions(snaps: seq<SnapshotInfo>, p: Option<string>): seq<nat> {
    Positions(snaps, p, |snaps|)
  }

  /** The index agrees with filtering the whole list by parent name. */
  ghost predicate IndexOf(snaps: seq<SnapshotInfo>, index: Index, n: nat)
    requires n <= |snaps|
  {
    forall name {:trigger Lookup(index, name)} :: Lookup(index, name) == Positions(snaps, Some(name), n)
  }

  function Lookup(index: Index, name: string): seq<nat> {
    if name in index then index[name] else []
  }

  /** `i` at the end of the entry for `name`. */
  function Push(index: Index, name: string, i: nat): Index {
    index[name := Lookup(index, name) + [i]]
  }

  ghost predicate InRange(snaps: seq<SnapshotInfo>, positions: seq<nat>) {
    forall k :: 0 <= k < |positions| ==> positions[k] < |snaps|
  }

  ghost predicate IndexInRange(snaps: seq<SnapshotInfo>, index: Index) {
    forall name :: InRange(snaps, Lookup(index, name))
  }

  /** Nodes for `positions`, all at `depth`; children are looked up while the depth stays below the bound. */
  function Level(snaps: seq<SnapshotInfo>, index: Index, positions: seq<nat>, depth: nat): Nodes
    requires InRange(snaps, positions) && IndexInRange(snaps, index)
    decreases MAX_SNAPSHOT_TREE_DEPTH - depth, |positions|
  {
    if positions == [] then Nil
    else
      var s := snaps[positions[0]];
      var children := if depth + 1 >= MAX_SNAPSHOT_TREE_DEPTH then Nil else Level(snaps, index, Lookup(index, s.name), depth + 1);
      Cons(Node(s, children, depth), Level(snaps, index, positions[1..], depth))
  }

  /** The same nodes, with the list filtered by parent name in place of the index. */
  function ListLevel(snaps: seq<SnapshotInfo>, positions: seq<nat>, depth: nat): Nodes
    requires InRange(snaps, positions)
    decreases MAX_SNAPSHOT_TREE_DEPTH - depth, |positions|
  {
    if positions == [] then Nil
    else
      var s := snaps[positions[0]];
      Cons(Node(s, ListKids(snaps, s.name, depth), depth), ListLevel(snaps, positions[1..], depth))
  }

  function ListKids(snaps: seq<SnapshotInfo>, name: string, depth: nat): Nodes
    decreases MAX_SNAPSHOT_TREE_DEPTH - depth, 0
  {
    if depth + 1 >= MAX_SNAPSHOT_TREE_DEPTH then Nil else ListLevel(snaps, ChildPositions(snaps, Some(name)), depth + 1)
  }

  lemma {:induction false} LevelAgrees(snaps: seq<SnapshotInfo>, index: Index, positions: seq<nat>, depth: nat)
    requires IndexOf(snaps, index, |snaps|) && InRange(snaps, positions) && IndexInRange(snaps, index)
    ensures Level(snaps, index, positions, depth) == ListLevel(snaps, positions, depth)
    decreases MAX_SNAPSHOT_TREE_DEPTH - depth, |positions|
  {
    if positions == [] {
    } else {
      var name := snaps[positions[0]].name;
      if depth + 1 < MAX_SNAPSHOT_TREE_DEPTH {
        LookupIs(snaps, index, name);
        LevelAgrees(snaps, index, Lookup(index, name), depth + 1);
      }
      LevelAgrees(snaps, index, positions[1..], depth);
      LevelUnfold(snaps, index, positions, depth, ListKids(snaps, name, depth), ListLevel(snaps, positions[1..], depth));
    }
  }

  lemma LookupIs(snaps: seq<SnapshotInfo>, index: Index, name: string)
    requires IndexOf(snaps, index, |snaps|)
    ensures Lookup(index, name) == ChildPositions(snaps, Some(name))
  {
  }

  lemma LevelUnfold(snaps: seq<SnapshotInfo>, index: Index, positions: seq<nat>, depth: nat, children: Nodes, rest: Nodes)
    requires InRange(snaps, positions) && IndexInRange(snaps, index) && positions != []
    requires rest == Level(snaps, index, positions[1..], depth)
    requires children == if depth + 1 >= MAX_SNAPSHOT_TREE_DEPTH then Nil else Level(snaps, index, Lookup(index, snaps[positions[0]].name), depth + 1)
    ensures Level(snaps, index, positions, depth) == Cons(Node(snaps[positions[0]], children, depth), rest)
  {
  }

  method BuildIndex(snaps: seq<SnapshotInfo>) returns (index: Index, roots: seq<nat>)
    ensures IndexOf(snaps, index, |snaps|)
    ensures roots == ChildPositions(snaps, None)
  {
    index, roots := map[], [];
    for i := 0 to |snaps|
      invariant IndexOf(snaps, index, i)
      invariant roots == Positions(snaps, None, i)
    {
      IndexStep(snaps, index, i);
      RootsStep(snaps, i);
      match snaps[i].parent {
        case Some(name) => index := Push(index, name, i);
        case None => roots := roots + [i];
      }
    }
  }

  lemma RootsStep(snaps: seq<SnapshotInfo>, i: nat)
    requires i < |snaps|
    ensures Positions(snaps, None, i + 1) == Positions(snaps, None, i) + if snaps[i].parent.None? then [i] else []
  {
  }

  lemma IndexStep(snaps: seq<SnapshotInfo>, index: Index, i: nat)
    requires i < |snaps| && IndexOf(snaps, index, i)
    ensures match snaps[i].parent
      case Some(name) => IndexOf(snaps, Push(index, name, i), i + 1)
      case None => IndexOf(snaps, index, i + 1)
  {
    var next := match snaps[i].parent case Some(name) => Push(index, name, i) case None => index;
    forall name ensures Lookup(next, name) == Positions(snaps, Some(name), i + 1) {
      assert Lookup(index, name) == Positions(snaps, Some(name), i);
    }
  }

  method BuildSnapshotTree(snaps: seq<SnapshotInfo>) returns (forest: Nodes)
    ensures TreeOf(snaps, forest)
  {
    var index, roots := BuildIndex(snaps);
    assert IndexInRange(snaps, index);
    forest := Level(snaps, index, roots, 0);
    LevelAgrees(snaps, index, roots, 0);
    LevelIsTree(snaps, roots, 0);
    LevelInfos(snaps, roots, 0);
  }

  // ---------------------------------------------- what the forest is, without the index

  function Infos(nodes: Nodes): seq<SnapshotInfo> {
    match nodes
    case Nil => []
    case Cons(head, tail) => [head.info] + Infos(tail)
  }

  /** The snapshots at the given positions. */
  function At(snaps: seq<SnapshotInfo>, positions: seq<nat>): (r: seq<SnapshotInfo>)
    requires InRange(snaps, positions)
    ensures |r| == |positions|
  {
    if positions == [] then [] else [snaps[positions[0]]] + At(snaps, positions[1..])
  }

  lemma {:induction false} AtSpec(snaps: seq<SnapshotInfo>, positions: seq<nat>, s: SnapshotInfo)
    requires InRange(snaps, positions)
    ensures s in At(snaps, positions) <==> exists i :: i in positions && snaps[i] == s
  {
    if positions == [] {
    } else {
      AtSpec(snaps, positions[1..], s);
      assert forall i :: i in positions <==> i == positions[0] || i in positions[1..];
    }
  }

  /** The snapshots that name `name` as parent, in list order; none at the depth bound. */
  function ChildrenAt(snaps: seq<SnapshotInfo>, name: string, depth: nat): seq<SnapshotInfo> {
    if depth >= MAX_SNAPSHOT_TREE_DEPTH then [] else At(snaps, ChildPositions(snaps, Some(name)))
  }

  /** Every node sits at its depth over exactly the children the list gives it. */
  ghost predicate Subtrees(snaps: seq<SnapshotInfo>, nodes: Nodes, depth: nat)
    decreases nodes
  {
    match nodes
    case Nil => true
    case Cons(head, tail) =>
      && head.depth == depth < MAX_SNAPSHOT_TREE_DEPTH
      && Infos(head.children) == ChildrenAt(snaps, head.info.name, depth + 1)
      && Subtrees(snaps, head.children, depth + 1)
      && Subtrees(snaps, tail, depth)
  }

  /** The children of a node at `depth`: the ones the list gives, with their own subtrees. */
  ghost predicate HasChildren(snaps: seq<SnapshotInfo>, children: Nodes, name: string, depth: nat) {
    Infos(children) == ChildrenAt(snaps, name, depth + 1) && Subtrees(snaps, children, depth + 1)
  }

  ghost predicate TreeOf(snaps: seq<SnapshotInfo>, forest: Nodes) {
    Infos(forest) == At(snaps, ChildPositions(snaps, None)) && Subtrees(snaps, forest, 0)
  }

  lemma {:induction false} LevelInfos(snaps: seq<SnapshotInfo>, positions: seq<nat>, depth: nat)
    requires InRange(snaps, positions)
    ensures Infos(ListLevel(snaps, positions, depth)) == At(snaps, positions)
    decreases |positions|
  {
    if positions == [] {
    } else {
      LevelInfos(snaps, positions[1..], depth);
    }
  }

  /** What the recursion over the index builds is the forest the parent names describe. */
  lemma {:induction false} LevelIsTree(snaps: seq<SnapshotInfo>, positions: seq<nat>, depth: nat)
    requires InRange(snaps, positions) && depth < MAX_SNAPSHOT_TREE_DEPTH
    ensures Subtrees(snaps, ListLevel(snaps, positions, depth), depth)
    decreases MAX_SNAPSHOT_TREE_DEPTH - depth, |positions|
  {
    if positions == [] {
    } else {
      var s := snaps[positions[0]];
      KidsAreTree(snaps, s.name, depth);
      LevelIsTree(snaps, positions[1..], depth);
      SubtreesCons(snaps, Node(s, ListKids(snaps, s.name, depth), depth), ListLevel(snaps, positions[1..], depth), depth);
    }
  }

  lemma KidsAreTree(snaps: seq<SnapshotInfo>, name: string, depth: nat)
    requires depth < MAX_SNAPSHOT_TREE_DEPTH
    ensures HasChildren(snaps, ListKids(snaps, name, depth), name, depth)
    decreases MAX_SNAPSHOT_TREE_DEPTH - depth, 0
  {
    if depth + 1 < MAX_SNAPSHOT_TREE_DEPTH {
      var positions := ChildPositions(snaps, Some(name));
      LevelIsTree(snaps, positions, depth + 1);
      LevelInfos(snaps, positions, depth + 1);
      KidsFit(snaps, ListLevel(snaps, positions, depth + 1), positions, name, depth);
      KidsIs(snaps, name, depth);
    } else {
      NoKids(snaps, name, depth);
    }
  }

  lemma KidsIs(snaps: seq<SnapshotInfo>, name: string, depth: nat)
    requires depth + 1 < MAX_SNAPSHOT_TREE_DEPTH
    ensures ListKids(snaps, name, depth) == ListLevel(snaps, ChildPositions(snaps, Some(name)), depth + 1)
  {
  }

  lemma NoKids(snaps: seq<SnapshotInfo>, name: string, depth: nat)
    requires depth + 1 == MAX_SNAPSHOT_TREE_DEPTH
    ensures ListKids(snaps, name, depth) == Nil && HasChildren(snaps, Nil, name, depth)
  {
  }

  lemma KidsFit(snaps: seq<SnapshotInfo>, children: Nodes, positions: seq<nat>, name: string, depth: nat)
    requires depth + 1 < MAX_SNAPSHOT_TREE_DEPTH && positions == ChildPositions(snaps, Some(name)) && InRange(snaps, positions)
    requires Infos(children) == At(snaps, positions) && Subtrees(snaps, children, depth + 1)
    ensures HasChildren(snaps, children, name, depth)
  {
  }

  lemma SubtreesCons(snaps: seq<SnapshotInfo>, head: Node, tail: Nodes, depth: nat)
    requires head.depth == depth < MAX_SNAPSHOT_TREE_DEPTH
    requires HasChildren(snaps, head.children, head.info.name, depth) && Subtrees(snaps, tail, depth)
    ensures Subtrees(snaps, Cons(head, tail), depth)
  {
  }

  // ------------------------------------------------------------------ flattening

  function FlattenNode(node: Node): seq<Entry> {
    [(node.info, node.depth)] + Flatten(node.children)
  }

  function Flatten(nodes: Nodes): seq<Entry> {
    match nodes
    case Nil => []
    case Cons(head, tail) => FlattenNode(head) + Flatten(tail)
  }

  method Walk(node: Node, out: seq<Entry>) returns (out': seq<Entry>)
    ensures out' == out + FlattenNode(node)
    decreases node
  {
    out' := out + [(node.info, node.depth)];
    var rest := node.children;
    while rest.Cons?
      invariant rest == node.children || rest < node.children
      invariant out' + Flatten(rest) == out + FlattenNode(node)
      decreases rest
    {
      out' := Walk(rest.head, out');
      rest := rest.tail;
    }
  }

  method FlattenTree(forest: Nodes) returns (out: seq<Entry>)
    ensures out == Flatten(forest)
  {
    out := [];
    var rest := forest;
    while rest.Cons?
      invariant out + Flatten(rest) == Flatten(forest)
      decreases rest
    {
      out := Walk(rest.head, out);
      rest := rest.tail;
    }
  }

  // ------------------------------------------------- flattening loses nothing

  ghost predicate Depths(nodes: Nodes, depth: nat)
    decreases nodes
  {
    match nodes
    case Nil => true
    case Cons(head, tail) => head.depth == depth && Depths(head.children, depth + 1) && Depths(tail, depth)
  }

  lemma {:induction false} SubtreesHaveDepths(snaps: seq<SnapshotInfo>, nodes: Nodes, depth: nat)
    requires Subtrees(snaps, nodes, depth)
    ensures Depths(nodes, depth)
    decreases nodes
  {
    if nodes.Cons? {
      SubtreesHaveDepths(snaps, nodes.head.children, depth + 1);
      SubtreesHaveDepths(snaps, nodes.tail, depth);
    }
  }

  lemma {:induction false} FlatDepths(nodes: Nodes, depth: nat)
    requires Depths(nodes, depth)
    ensures forall i :: 0 <= i < |Flatten(nodes)| ==> Flatten(nodes)[i].1 >= depth
    ensures nodes.Cons? ==> Flatten(nodes) != [] && Flatten(nodes)[0] == (nodes.head.info, depth)
    decreases nodes
  {
    if nodes.Cons? {
      FlatDepths(nodes.head.children, depth + 1);
      FlatDepths(nodes.tail, depth);
    }
  }

  /** The leading entries deeper than `depth`: the subtree a node's entry is followed by. */
  function Deeper(flat: seq<Entry>, depth: nat): seq<Entry> {
    if flat == [] || flat[0].1 <= depth then [] else [flat[0]] + Deeper(flat[1..], depth)
  }

  lemma {:induction false} DeeperPrefix(x: seq<Entry>, y: seq<Entry>, depth: nat)
    requires forall i :: 0 <= i < |x| ==> x[i].1 > depth
    requires y != [] ==> y[0].1 <= depth
    ensures Deeper(x + y, depth) == x
  {
    if x == [] {
      assert x + y == y;
    } else {
      assert (x + y)[0] == x[0] && (x + y)[1..] == x[1..] + y;
      DeeperPrefix(x[1..], y, depth);
    }
  }

  /** Subtrees are contiguous: a node's descendants are the deeper entries right after it. */
  lemma SubtreeContiguous(nodes: Nodes, depth: nat)
    requires nodes.Cons? && Depths(nodes, depth)
    ensures var flat := Flatten(nodes);
            && |flat| > |Flatten(nodes.head.children)|
            && flat[0] == (nodes.head.info, depth)
            && Deeper(flat[1..], depth) == Flatten(nodes.head.children)
            && flat[1 + |Flatten(nodes.head.children)|..] == Flatten(nodes.tail)
  {
    var inner, tail := Flatten(nodes.head.children), Flatten(nodes.tail);
    FlatDepths(nodes.head.children, depth + 1);
    FlatDepths(nodes.tail, depth);
    DeeperPrefix(inner, tail, depth);
    FlattenParts(nodes, depth);
    CutParts((nodes.head.info, depth), inner, tail);
  }

  lemma CutParts(e: Entry, inner: seq<Entry>, tail: seq<Entry>)
    ensures var flat := [e] + inner + tail;
            flat[0] == e && flat[1..] == inner + tail && flat[1 + |inner|..] == tail
  {
  }

  /** Two forests with the same display list are the same forest. */
  lemma {:induction false} FlattenInjective(a: Nodes, b: Nodes, depth: nat)
    requires Depths(a, depth) && Depths(b, depth)
    requires Flatten(a) == Flatten(b)
    ensures a == b
    decreases a
  {
    FlatDepths(a, depth);
    FlatDepths(b, depth);
    if a.Cons? {
      SubtreeContiguous(a, depth);
      SubtreeContiguous(b, depth);
      FlattenInjective(a.head.children, b.head.children, depth + 1);
      FlattenInjective(a.tail, b.tail, depth);
    }
  }

  /** The display list determines the forest built from any two lists. */
  lemma DisplayDeterminesForest(snaps: seq<SnapshotInfo>, a: Nodes, snaps': seq<SnapshotInfo>, b: Nodes)
    requires TreeOf(snaps, a) && TreeOf(snaps', b)
    requires Flatten(a) == Flatten(b)
    ensures a == b
  {
    SubtreesHaveDepths(snaps, a, 0);
    SubtreesHaveDepths(snaps', b, 0);
    FlattenInjective(a, b, 0);
  }

  /**
   Preorder: an entry below the top level is preceded by its parent, and only
   entries of the parent's own subtree stand between them.
   */
  ghost predicate ParentBefore(flat: seq<Entry>, p: nat, q: nat)
    requires p < |flat| && q < p
  {
    && flat[q].1 + 1 == flat[p].1
    && flat[p].0.parent == Some(flat[q].0.name)
    && forall r :: q < r < p ==> flat[r].1 >= flat[p].1
  }

  ghost predicate HasParentBefore(flat: seq<Entry>, p: nat)
    requires p < |flat|
  {
    exists q :: 0 <= q < p && ParentBefore(flat, p, q)
  }

  lemma ParentBeforeWithin(pre: seq<Entry>, mid: seq<Entry>, post: seq<Entry>, p: nat)
    requires p < |mid| && HasParentBefore(mid, p)
    ensures HasParentBefore(pre + mid + post, |pre| + p)
  {
    var q :| 0 <= q < p && ParentBefore(mid, p, q);
    var all := pre + mid + post;
    assert forall r :: |pre| <= r < |pre| + |mid| ==> all[r] == mid[r - |pre|];
    assert ParentBefore(all, |pre| + p, |pre| + q);
  }

  lemma FirstChildLevel(snaps: seq<SnapshotInfo>, head: Node, depth: nat, post: seq<Entry>, p: nat)
    requires Infos(head.children) == ChildrenAt(snaps, head.info.name, depth + 1)
    requires Depths(head.children, depth + 1)
    requires p < |Flatten(head.children)| && Flatten(head.children)[p].1 == depth + 1
    requires Flatten(head.children)[p].0 in Infos(head.children)
    ensures HasParentBefore([(head.info, depth)] + Flatten(head.children) + post, 1 + p)
  {
    var inner := Flatten(head.children);
    var all := [(head.info, depth)] + inner + post;
    FlatDepths(head.children, depth + 1);
    assert forall r :: 1 <= r <= |inner| ==> all[r] == inner[r - 1];
    PositionsSpec(snaps, Some(head.info.name), |snaps|);
    AtSpec(snaps, ChildPositions(snaps, Some(head.info.name)), inner[p].0);
    assert inner[p].0.parent == Some(head.info.name);
    assert ParentBefore(all, 1 + p, 0);
  }

  /** An entry on the top level is one of its snapshots; any other follows its parent. */
  ghost predicate Placed(flat: seq<Entry>, infos: seq<SnapshotInfo>, depth: nat, p: nat)
    requires p < |flat|
  {
    if flat[p].1 == depth then flat[p].0 in infos else HasParentBefore(flat, p)
  }

  lemma {:induction false} Preorder(snaps: seq<SnapshotInfo>, nodes: Nodes, depth: nat, p: nat)
    requires Subtrees(snaps, nodes, depth) && p < |Flatten(nodes)|
    ensures Placed(Flatten(nodes), Infos(nodes), depth, p)
    decreases nodes
  {
    var inner, tail := nodes.head.children, nodes.tail;
    var n := |Flatten(inner)|;
    FirstPlaced(nodes, depth);
    if 0 < p <= n {
      Preorder(snaps, inner, depth + 1, p - 1);
      PreorderInner(snaps, nodes, depth, p - 1);
    } else if p > n {
      Preorder(snaps, tail, depth, p - 1 - n);
      PreorderTail(nodes, depth, p - 1 - n);
    }
  }

  lemma FlattenParts(nodes: Nodes, depth: nat)
    requires nodes.Cons? && nodes.head.depth == depth
    ensures Flatten(nodes) == [(nodes.head.info, depth)] + Flatten(nodes.head.children) + Flatten(nodes.tail)
  {
  }

  lemma FirstPlaced(nodes: Nodes, depth: nat)
    requires nodes.Cons? && nodes.head.depth == depth
    ensures |Flatten(nodes)| == 1 + |Flatten(nodes.head.children)| + |Flatten(nodes.tail)|
    ensures Placed(Flatten(nodes), Infos(nodes), depth, 0)
  {
    FlattenParts(nodes, depth);
  }

  lemma PreorderInner(snaps: seq<SnapshotInfo>, nodes: Nodes, depth: nat, q: nat)
    requires nodes.Cons? && Subtrees(snaps, nodes, depth) && q < |Flatten(nodes.head.children)|
    requires Placed(Flatten(nodes.head.children), Infos(nodes.head.children), depth + 1, q)
    ensures 1 + q < |Flatten(nodes)| && Placed(Flatten(nodes), Infos(nodes), depth, 1 + q)
  {
    var head, tail := nodes.head, Flatten(nodes.tail);
    var inner := Flatten(head.children);
    FlattenParts(nodes, depth);
    SubtreesHaveDepths(snaps, head.children, depth + 1);
    FlatDepths(head.children, depth + 1);
    if inner[q].1 == depth + 1 {
      FirstChildLevel(snaps, head, depth, tail, q);
    } else {
      ParentBeforeWithin([(head.info, depth)], inner, tail, q);
    }
  }

  lemma PreorderTail(nodes: Nodes, depth: nat, q: nat)
    requires nodes.Cons? && nodes.head.depth == depth && q < |Flatten(nodes.tail)|
    requires Placed(Flatten(nodes.tail), Infos(nodes.tail), depth, q)
    ensures var n := |Flatten(nodes.head.children)|;
            1 + n + q < |Flatten(nodes)| && Placed(Flatten(nodes), Infos(nodes), depth, 1 + n + q)
  {
    FlattenParts(nodes, depth);
    PlacedLater([(nodes.head.info, depth)] + Flatten(nodes.head.children), Flatten(nodes.tail), Infos(nodes.tail), Infos(nodes), depth, q);
  }

  lemma PlacedLater(before: seq<Entry>, tail: seq<Entry>, infos: seq<SnapshotInfo>, all: seq<SnapshotInfo>, depth: nat, q: nat)
    requires q < |tail| && Placed(tail, infos, depth, q) && forall s :: s in infos ==> s in all
    ensures Placed(before + tail, all, depth, |before| + q)
  {
    if tail[q].1 != depth {
      ParentBeforeWithin(before, tail, [], q);
      assert before + tail + [] == before + tail;
    }
  }

  /** In the display list of a built forest, every entry is a root or follows its parent. */
  lemma ParentsComeFirst(snaps: seq<SnapshotInfo>, forest: Nodes, p: nat)
    requires TreeOf(snaps, forest) && p < |Flatten(forest)|
    ensures var flat := Flatten(forest);
            if flat[p].1 == 0 then flat[p].0.parent == None else HasParentBefore(flat, p)
  {
    PositionsSpec(snaps, None, |snaps|);
    AtSpec(snaps, ChildPositions(snaps, None), Flatten(forest)[p].0);
    Preorder(snaps, forest, 0, p);
  }

  // --------------------------------------------------------- which snapshots appear

  ghost predicate DistinctNames(snaps: seq<SnapshotInfo>) {
    forall i, j :: 0 <= i < j < |snaps| ==> snaps[i].name != snaps[j].name
  }

  function Find(snaps: seq<SnapshotInfo>, name: string): (r: Option<nat>)
    ensures r.Some? ==> r.value < |snaps| && snaps[r.value].name == name
    ensures r.None? ==> forall i :: 0 <= i < |snaps| ==> snaps[i].name != name
  {
    if snaps == [] then None
    else if snaps[|snaps| - 1].name == name then Some(|snaps| - 1)
    else Find(snaps[..|snaps| - 1], name)
  }

  /** The snapshot reached from `j` by following `n` parent names. */
  function Ancestor(snaps: seq<SnapshotInfo>, j: nat, n: nat): (r: Option<nat>)
    requires j < |snaps|
    ensures r.Some? ==> r.value < |snaps|
    decreases n
  {
    if n == 0 then Some(j)
    else
      var a := Ancestor(snaps, j, n - 1);
      if a.None? || snaps[a.value].parent.None? then None else Find(snaps, snaps[a.value].parent.value)
  }

  /** The parent chain of `j` reaches a root in `n` steps. */
  ghost predicate RootDistance(snaps: seq<SnapshotInfo>, j: nat, n: nat)
    requires j < |snaps|
  {
    Ancestor(snaps, j, n).Some? && snaps[Ancestor(snaps, j, n).value].parent.None?
  }

  ghost predicate Increasing(positions: seq<nat>) {
    forall a, b :: 0 <= a < b < |positions| ==> positions[a] < positions[b]
  }

  function Occurrences(flat: seq<Entry>, e: Entry): nat {
    multiset(flat)[e]
  }

  ghost predicate Below(snaps: seq<SnapshotInfo>, positions: seq<nat>, depth: nat, j: nat, d: nat)
    requires j < |snaps|
  {
    depth <= d < MAX_SNAPSHOT_TREE_DEPTH && Ancestor(snaps, j, d - depth).Some? && Ancestor(snaps, j, d - depth).value in positions
  }

  lemma {:induction false} LevelOccurrences(snaps: seq<SnapshotInfo>, nodes: Nodes, positions: seq<nat>, depth: nat, j: nat, d: nat)
    requires DistinctNames(snaps) && j < |snaps| && depth < MAX_SNAPSHOT_TREE_DEPTH
    requires InRange(snaps, positions) && Increasing(positions)
    requires Infos(nodes) == At(snaps, positions) && Subtrees(snaps, nodes, depth)
    ensures Occurrences(Flatten(nodes), (snaps[j], d)) == if Below(snaps, positions, depth, j, d) then 1 else 0
    decreases nodes, 0
  {
    assert |Infos(nodes)| == |At(snaps, positions)|;
    if nodes.Cons? {
      var i, head, e := positions[0], nodes.head, (snaps[j], d);
      assert Infos(nodes) == [head.info] + Infos(nodes.tail) && At(snaps, positions) == [snaps[i]] + At(snaps, positions[1..]);
      assert head.info == At(snaps, positions)[0] && Infos(nodes.tail) == At(snaps, positions)[1..];
      LevelOccurrences(snaps, nodes.tail, positions[1..], depth, j, d);
      NodeOccurrences(snaps, head, i, depth, j, d);
      assert forall k :: k in positions <==> k == i || k in positions[1..];
      assert i !in positions[1..];
    }
  }

  lemma NodeOccurrences(snaps: seq<SnapshotInfo>, node: Node, i: nat, depth: nat, j: nat, d: nat)
    requires DistinctNames(snaps) && j < |snaps| && i < |snaps| && node.depth == depth < MAX_SNAPSHOT_TREE_DEPTH
    requires node.info == snaps[i]
    requires Infos(node.children) == ChildrenAt(snaps, node.info.name, depth + 1) && Subtrees(snaps, node.children, depth + 1)
    ensures Occurrences(FlattenNode(node), (snaps[j], d)) == if AtOrBelow(snaps, i, depth, j, d) then 1 else 0
    decreases node, 3
  {
    NodeEntries(node, (snaps[j], d));
    KidOccurrences(snaps, node, snaps[i].name, depth, j, d);
    AtOrBelowSplit(snaps, i, depth, j, d);
  }

  lemma KidOccurrences(snaps: seq<SnapshotInfo>, node: Node, name: string, depth: nat, j: nat, d: nat)
    requires DistinctNames(snaps) && j < |snaps| && depth < MAX_SNAPSHOT_TREE_DEPTH
    requires HasChildren(snaps, node.children, name, depth)
    ensures Occurrences(Flatten(node.children), (snaps[j], d))
         == if Below(snaps, ChildPositions(snaps, Some(name)), depth + 1, j, d) then 1 else 0
    decreases node, 2
  {
    KidsInOrder(snaps, name);
    ChildOccurrences(snaps, node, ChildPositions(snaps, Some(name)), depth, j, d);
  }

  lemma KidsInOrder(snaps: seq<SnapshotInfo>, name: string)
    ensures InRange(snaps, ChildPositions(snaps, Some(name))) && Increasing(ChildPositions(snaps, Some(name)))
  {
    PositionsSpec(snaps, Some(name), |snaps|);
  }

  lemma ChildOccurrences(snaps: seq<SnapshotInfo>, node: Node, kids: seq<nat>, depth: nat, j: nat, d: nat)
    requires DistinctNames(snaps) && j < |snaps| && depth < MAX_SNAPSHOT_TREE_DEPTH
    requires InRange(snaps, kids) && Increasing(kids) && Subtrees(snaps, node.children, depth + 1)
    requires Infos(node.children) == if depth + 1 >= MAX_SNAPSHOT_TREE_DEPTH then [] else At(snaps, kids)
    ensures Occurrences(Flatten(node.children), (snaps[j], d)) == if Below(snaps, kids, depth + 1, j, d) then 1 else 0
    decreases node, 1
  {
    if depth + 1 < MAX_SNAPSHOT_TREE_DEPTH {
      LevelOccurrences(snaps, node.children, kids, depth + 1, j, d);
    } else {
      NoChildren(node);
    }
  }

  lemma NodeEntries(node: Node, e: Entry)
    ensures Occurrences(FlattenNode(node), e) == (if e == (node.info, node.depth) then 1 else 0) + Occurrences(Flatten(node.children), e)
  {
    assert FlattenNode(node) == [(node.info, node.depth)] + Flatten(node.children);
  }

  lemma NoChildren(node: Node)
    requires Infos(node.children) == []
    ensures Flatten(node.children) == []
  {
  }

  ghost predicate AtOrBelow(snaps: seq<SnapshotInfo>, i: nat, depth: nat, j: nat, d: nat)
    requires j < |snaps|
  {
    depth <= d < MAX_SNAPSHOT_TREE_DEPTH && Ancestor(snaps, j, d - depth) == Some(i)
  }

  lemma AtOrBelowSplit(snaps: seq<SnapshotInfo>, i: nat, depth: nat, j: nat, d: nat)
    requires DistinctNames(snaps) && i < |snaps| && j < |snaps| && depth < MAX_SNAPSHOT_TREE_DEPTH
    ensures var below := Below(snaps, ChildPositions(snaps, Some(snaps[i].name)), depth + 1, j, d);
            && (AtOrBelow(snaps, i, depth, j, d) <==> (j == i && d == depth) || below)
            && (below ==> d > depth)
  {
    PositionsSpec(snaps, Some(snaps[i].name), |snaps|);
  }

  /**
   With distinct names, the display list holds each snapshot whose parent chain
   reaches a root in at most 255 steps exactly once, at that depth; snapshots on a
   cycle, below a dangling parent or deeper than that do not appear.
   */
  lemma DisplayedExactlyOnce(snaps: seq<SnapshotInfo>, forest: Nodes, j: nat, d: nat)
    requires DistinctNames(snaps) && TreeOf(snaps, forest) && j < |snaps|
    ensures Occurrences(Flatten(forest), (snaps[j], d)) == if d <= 255 && RootDistance(snaps, j, d) then 1 else 0
  {
    PositionsSpec(snaps, None, |snaps|);
    LevelOccurrences(snaps, forest, ChildPositions(snaps, None), 0, j, d);
  }

  lemma ChildrenListed(snaps: seq<SnapshotInfo>, name: string, depth: nat)
    ensures forall s :: s in ChildrenAt(snaps, name, depth) ==> s in snaps
  {
    forall s | s in ChildrenAt(snaps, name, depth) ensures s in snaps {
      AtSpec(snaps, ChildPositions(snaps, Some(name)), s);
    }
  }

  /** Nothing else is displayed: every entry is a snapshot of the list. */
  lemma {:induction false} NothingElseDisplayed(snaps: seq<SnapshotInfo>, nodes: Nodes, depth: nat)
    requires Subtrees(snaps, nodes, depth) && forall s :: s in Infos(nodes) ==> s in snaps
    ensures forall e :: e in Flatten(nodes) ==> e.0 in snaps
    decreases nodes
  {
    if nodes.Cons? {
      assert Infos(nodes)[0] in Infos(nodes);
      assert forall s :: s in Infos(nodes.tail) ==> s in Infos(nodes);
      ChildrenListed(snaps, nodes.head.info.name, depth + 1);
      NothingElseDisplayed(snaps, nodes.head.children, depth + 1);
      NothingElseDisplayed(snaps, nodes.tail, depth);
    }
  }

  /** A snapshot on a parent cycle never appears, at any depth. */
  lemma {:induction false} CyclesVanish(snaps: seq<SnapshotInfo>, j: nat, period: nat, n: nat)
    requires DistinctNames(snaps) && j < |snaps| && period > 0
    requires Ancestor(snaps, j, period) == Some(j)
    ensures !RootDistance(snaps, j, n)
    decreases n
  {
    if n >= period {
      AncestorShift(snaps, j, period, n - period);
      CyclesVanish(snaps, j, period, n - period);
    } else {
      AncestorDefined(snaps, j, n + 1, period);
    }
  }

  lemma {:induction false} AncestorShift(snaps: seq<SnapshotInfo>, j: nat, period: nat, n: nat)
    requires j < |snaps| && Ancestor(snaps, j, period) == Some(j)
    ensures Ancestor(snaps, j, period + n) == Ancestor(snaps, j, n)
  {
    if n == 0 {
    } else {
      AncestorShift(snaps, j, period, n - 1);
    }
  }

  lemma {:induction false} AncestorDefined(snaps: seq<SnapshotInfo>, j: nat, n: nat, m: nat)
    requires j < |snaps| && n <= m && Ancestor(snaps, j, m).Some?
    ensures Ancestor(snaps, j, n).Some?
    decreases m
  {
    if n < m {
      AncestorDefined(snaps, j, n, m - 1);
    }
  }
}
