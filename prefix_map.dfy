/**
 * PrefixMap of search/similarity.go: the map object whose tree its methods
 * update in place.
 *
 * The source's map is the root node itself and its nodes are linked by
 * Children and Parent fields. Here the map holds the tree as a value in the
 * field `root`, which the methods reassign; a node is named by its path from
 * the root, and the parent of the node at `p` is the node at `p` without its
 * last index. Each method is proved against the functions of the RadixWalk,
 * RadixInsert, RadixCollect and RadixPrefixes modules.
 */
module Radix {
  import opened Wrappers
  import opened RadixTree
  import opened RadixWalk
  import opened RadixCollect
  import opened RadixInsert
  import opened RadixPrefixes
  import PagedStack

  /** `o` seen from an ancestor `p` of the node it was computed below. */
  function Below(p: Path, o: Outcome): (r: Outcome)
    ensures r.path == p + o.path
  {
    match o
    case Exact(q) => Exact(p + q)
    case Inside(q, cut) => Inside(p + q, cut)
    case Diverged(q, cut, rest) => Diverged(p + q, cut, rest)
    case Stopped(q, rest) => Stopped(p + q, rest)
  }

  /** Descending into child `i` extends the ancestor by `i`. */
  lemma BelowUnder(p: Path, i: nat, o: Outcome)
    ensures Below(p, Under(i, o)) == Below(p + [i], o)
  {
    assert p + ([i] + o.path) == (p + [i]) + o.path;
  }

  /** Appending below a node just split is appending to the split node. */
  lemma AppendAfterSplit<V>(root: Node<V>, p: Path, cut: nat, key: string)
    requires ValidPath(root, p) && 0 < cut < |At(root, p).key|
    ensures var split := ReplaceAt(root, p, Split(At(root, p), cut));
      ValidPath(split, p) &&
      ReplaceAt(split, p, AppendChild(At(split, p), key)) == ReplaceAt(root, p, AppendChild(Split(At(root, p), cut), key))
  {
    var s := Split(At(root, p), cut);
    ReplaceTwice(root, p, s, [], AppendChild(s, key));
    assert p + [] == p;
  }

  /** The paths of the children `from` to `to - 1` of `p`: the `children` still to
      try in nodeForKey. */
  function Siblings(p: Path, from: nat, to: nat): (r: seq<Path>)
    ensures |r| == (if from <= to then to - from else 0)
    decreases if from < to then to - from else 0
  {
    if from < to then [p + [from]] + Siblings(p, from + 1, to) else []
  }

  /** nodeForKey descends below a node whose fragment starts the key. */
  lemma WalkDescend<V>(n: Node<V>, i: nat, key: string, create: bool)
    requires i < |n.children| && |key| > 0
    requires var l := LcpIndex(key, n.children[i].key);
      l != -1 && l < |key| - 1 && l == |n.children[i].key| - 1
    ensures var l := LcpIndex(key, n.children[i].key);
      WalkIn(n, i, key, create) == Under(i, WalkIn(n.children[i], 0, key[l + 1..], create))
  {
  }

  /** Without create, nodeForKey compares what is left of a key that leaves a
      fragment with the same node. */
  lemma WalkFallsThrough<V>(n: Node<V>, i: nat, key: string, l: int)
    requires i < |n.children| && |key| > 0 && l == LcpIndex(key, n.children[i].key)
    requires l != -1 && l < |key| - 1 && l < |n.children[i].key| - 1
    ensures WalkIn(n, i, key, false) == WalkIn(n, i, key[l + 1..], false)
  {
  }

  /** The node a walk ends at when no node is returned: the root. */
  function Base(last: Option<Path>): Path {
    if last.Some? then last.value else []
  }

  /** Where nodeForKey's loop stands: `currentNode` is the child `i` of `parent`
      (or the root, before the first round), `children` are the siblings after
      it and `lastNode` is the last node descended into. */
  ghost predicate Position<V>(root: Node<V>, parent: Path, i: nat, currentNode: Path, children: seq<Path>,
                              lastNode: Option<Path>)
  {
    && ValidPath(root, parent)
    && (currentNode == [] ==> parent == [] && i == 0)
    && (currentNode != [] ==>
          && i < |At(root, parent).children| && currentNode == parent + [i]
          && ValidPath(root, currentNode) && At(root, currentNode) == At(root, parent).children[i]
          && children == Siblings(parent, i + 1, |At(root, parent).children|))
    && lastNode == (if parent == [] then None else Some(parent))
  }

  /** Walking on from child `i` of `parent` with what is left of the key ends
      where the walk from the root with the whole key ends. */
  ghost predicate Resumes<V>(root: Node<V>, w: Outcome, create: bool, parent: Path, i: nat, key: string)
    requires ValidPath(root, parent)
  {
    w == Below(parent, WalkIn(At(root, parent), i, key, create))
  }

  /** The first round moves from the root to its first child. */
  lemma ScanFirst<V>(root: Node<V>)
    requires |root.children| > 0
    ensures var s := Siblings([], 0, |root.children|);
      s[0] == [0] && Position(root, [], 0, s[0], s[1..], None)
  {
    ChildPath(root, [], 0);
  }

  /** A sibling sharing no first byte with the key is passed over. */
  lemma ScanSkip<V>(root: Node<V>, w: Outcome, create: bool, key: string, parent: Path, i: nat,
                    currentNode: Path, children: seq<Path>, lastNode: Option<Path>)
    requires Position(root, parent, i, currentNode, children, lastNode) && Resumes(root, w, create, parent, i, key)
    requires currentNode != [] && |key| > 0 && LcpIndex(key, At(root, currentNode).key) == -1
    ensures children == [] ==> w == Stopped(Base(lastNode), key)
    ensures children != [] ==>
      Position(root, parent, i + 1, children[0], children[1..], lastNode) && Resumes(root, w, create, parent, i + 1, key)
  {
    var n := At(root, parent);
    assert WalkIn(n, i, key, create) == WalkIn(n, i + 1, key, create);
    if children != [] {
      ChildPath(root, parent, i + 1);
    } else {
      assert parent + [] == parent;
    }
  }

  /** Where the key and the fragment part, the walk ends: at the node when both
      end together, inside its fragment when the key ends first, and (creating)
      below it when the key leaves the fragment. */
  lemma ScanMatch<V>(root: Node<V>, w: Outcome, create: bool, key: string, parent: Path, i: nat,
                     currentNode: Path, children: seq<Path>, lastNode: Option<Path>)
    requires Position(root, parent, i, currentNode, children, lastNode) && Resumes(root, w, create, parent, i, key)
    requires currentNode != [] && |key| > 0
    ensures var c := At(root, currentNode); var l := LcpIndex(key, c.key);
      && (l == |key| - 1 && l == |c.key| - 1 ==> w == Exact(currentNode))
      && (l != -1 && l == |key| - 1 && l != |c.key| - 1 ==> w == Inside(currentNode, l + 1))
      && (create && l != -1 && l < |key| - 1 && l < |c.key| - 1 ==>
            w == Diverged(currentNode, l + 1, key[l + 1..]))
  {
  }

  /** A fragment that is a proper prefix of the key is descended into. */
  lemma ScanDescend<V>(root: Node<V>, w: Outcome, create: bool, key: string, parent: Path, i: nat,
                       currentNode: Path, children: seq<Path>, lastNode: Option<Path>)
    requires Position(root, parent, i, currentNode, children, lastNode) && Resumes(root, w, create, parent, i, key)
    requires currentNode != [] && |key| > 0
    requires var l := LcpIndex(key, At(root, currentNode).key);
      l != -1 && l < |key| - 1 && l == |At(root, currentNode).key| - 1
    ensures var c := At(root, currentNode); var rest := key[|c.key|..]; var s := Siblings(currentNode, 0, |c.children|);
      && (s == [] ==> w == Stopped(currentNode, rest))
      && (s != [] ==>
            Position(root, currentNode, 0, s[0], s[1..], Some(currentNode)) && Resumes(root, w, create, currentNode, 0, rest))
  {
    var c := At(root, currentNode);
    var rest := key[|c.key|..];
    var o := WalkIn(c, 0, rest, create);
    assert w == Below(currentNode, o) by {
      WalkDescend(At(root, parent), i, key, create);
      BelowUnder(parent, i, o);
    }
    if |c.children| == 0 {
      assert currentNode + [] == currentNode;
    } else {
      ChildPath(root, currentNode, 0);
    }
  }

  /** Without create, a key that leaves the fragment is compared with the same
      node again, with what is left of it. */
  lemma ScanFallThrough<V>(root: Node<V>, w: Outcome, key: string, parent: Path, i: nat)
    requires ValidPath(root, parent) && i < |At(root, parent).children| && |key| > 0
    requires Resumes(root, w, false, parent, i, key)
    requires var l := LcpIndex(key, At(root, parent).children[i].key);
      l != -1 && l < |key| - 1 && l < |At(root, parent).children[i].key| - 1
    ensures var l := LcpIndex(key, At(root, parent).children[i].key);
      Resumes(root, w, false, parent, i, key[l + 1..])
  {
    var n := At(root, parent);
    var l := LcpIndex(key, n.children[i].key);
    WalkFallsThrough(n, i, key, l);
  }

  /** A walk whose key is used up, or that finds the root without children,
      stops at the node last descended into. */
  lemma ScanEmpty<V>(root: Node<V>, w: Outcome, create: bool, key: string, parent: Path, i: nat,
                     currentNode: Path, children: seq<Path>, lastNode: Option<Path>)
    requires Position(root, parent, i, currentNode, children, lastNode) && Resumes(root, w, create, parent, i, key)
    requires |key| == 0 || (currentNode == [] && |root.children| == 0)
    ensures w == Stopped(Base(lastNode), key)
  {
    assert parent + [] == parent;
  }

  /** The loop of nodeForKey: walks the siblings of one level, descends below a
      fragment that starts the key and, without `create`, compares the rest of
      a partly matched key with the same node again. It reports where the walk
      ends; the source splits and appends right there, before it returns or
      leaves the loop, which `NodeForKey` does with the report. */
  method Seek<V>(root: Node<V>, key0: string, create: bool) returns (o: Outcome)
    ensures o == Walk(root, key0, create)
  {
    var key := key0;
    var lastNode: Option<Path> := None;
    var currentNode: Path := [];
    var children: seq<Path> := [];
    ghost var parent: Path := [];
    ghost var i: nat := 0;
    ghost var w := Walk(root, key0, create);
    while |key| > 0
      invariant Position(root, parent, i, currentNode, children, lastNode)
      invariant currentNode == [] ==> key == key0
      invariant Resumes(root, w, create, parent, i, key)
      decreases |key|, if currentNode == [] then |root.children| + 1 else |children|
    {
      if currentNode == [] {
        // the root holds nothing: go to its first child
        if |root.children| == 0 {
          ScanEmpty(root, w, create, key, parent, i, currentNode, children, lastNode);
          break;
        }
        children := Siblings([], 0, |root.children|);
        ScanFirst(root);
        currentNode, children := children[0], children[1..];
        continue;
      }
      var c := At(root, currentNode);
      var lcpI := LcpIndex(key, c.key);
      if lcpI == -1 {
        // not this node: the next sibling
        ScanSkip(root, w, create, key, parent, i, currentNode, children, lastNode);
        if |children| > 0 {
          currentNode, children := children[0], children[1..];
          i := i + 1;
          continue;
        }
        break;
      }
      ScanMatch(root, w, create, key, parent, i, currentNode, children, lastNode);
      if lcpI == |key| - 1 && lcpI == |c.key| - 1 {
        return Exact(currentNode);
      }
      if lcpI == |key| - 1 {
        // the key ends inside this node's fragment
        return Inside(currentNode, lcpI + 1);
      }
      if lcpI == |c.key| - 1 {
        // the fragment is a prefix of the key: descend
        ScanDescend(root, w, create, key, parent, i, currentNode, children, lastNode);
        key := key[lcpI + 1..];
        lastNode := Some(currentNode);
        parent, i := currentNode, 0;
        children := Siblings(currentNode, 0, |c.children|);
        if |children| == 0 {
          break;
        }
        currentNode, children := children[0], children[1..];
        continue;
      }
      if create {
        // the key leaves the fragment: the rest of the key goes below it
        return Diverged(currentNode, lcpI + 1, key[lcpI + 1..]);
      }
      // otherwise the rest of the key is compared with the same node again
      ScanFallThrough(root, w, key, parent, i);
      key := key[lcpI + 1..];
    }
    if |key| == 0 {
      ScanEmpty(root, w, create, key, parent, i, currentNode, children, lastNode);
    }
    return Stopped(Base(lastNode), key);
  }

  /** The traversal of GetByPrefix: pops a node, adds its values and pushes its
      children, first to last, until the stack is empty. Each node comes
      before its children and the last child's subtree first; every value of
      the subtree is gathered once. */
  method Gather<V>(root: Node<V>, start: Path) returns (values: seq<V>)
    requires ValidPath(root, start)
    ensures values == Values(root, Preorder(root, start))
    ensures multiset(values) == Stored(At(root, start))
  {
    PreorderStored(root, start);
    var stack := EmptyStack<Path>();
    values := [];
    PushOne(stack, start);
    assert stack.Contents == [start];
    assert Pending(root, [start]) == Preorder(root, start) + [];
    assert Preorder(root, start) + [] == Preorder(root, start);
    while stack.Size() > 0
      invariant stack.Valid() && fresh(stack.Repr)
      invariant AllValid(root, stack.Contents)
      invariant values + Values(root, Pending(root, stack.Contents)) == Values(root, Preorder(root, start))
      decreases |Pending(root, stack.Contents)|
    {
      values := GatherRound(root, stack, values);
    }
    assert values == values + [];
  }

  /** One round of GetByPrefix's loop: pops a node, adds its values to those
      gathered and pushes its children. */
  method GatherRound<V>(root: Node<V>, stack: PagedStack.Stack<Path>, values: seq<V>) returns (values': seq<V>)
    requires stack.Valid() && AllValid(root, stack.Contents) && |stack.Contents| > 0
    modifies stack.Repr
    ensures stack.Valid() && fresh(stack.Repr - old(stack.Repr))
    ensures AllValid(root, stack.Contents)
    ensures values' + Values(root, Pending(root, stack.Contents))
         == values + Values(root, Pending(root, old(stack.Contents)))
    ensures |Pending(root, stack.Contents)| < |Pending(root, old(stack.Contents))|
  {
    ghost var s := stack.Contents;
    var node := PopOne(stack);
    assert node == s[|s| - 1] && stack.Contents == s[..|s| - 1];
    var c := At(root, node);
    GatherStep(root, s, values);
    values' := values + c.data;
    PushChildren(stack, node, |c.children|);
  }

  /** One round of GetByPrefix: the values of the popped node join those
      gathered, and its children take its place on the stack. */
  lemma GatherStep<V>(root: Node<V>, s: seq<Path>, values: seq<V>)
    requires AllValid(root, s) && s != []
    ensures var p := s[|s| - 1];
      var next := s[..|s| - 1] + ChildPaths(p, |At(root, p).children|);
      && AllValid(root, next)
      && values + Values(root, Pending(root, s)) == (values + At(root, p).data) + Values(root, Pending(root, next))
      && |Pending(root, next)| < |Pending(root, s)|
  {
    var p := s[|s| - 1];
    var next := s[..|s| - 1] + ChildPaths(p, |At(root, p).children|);
    PendingPop(root, s);
    ValuesConcat(root, [p], Pending(root, next));
  }

  /** An empty stack, as the traversals use it. */
  method EmptyStack<T>() returns (stack: PagedStack.Stack<T>)
    ensures stack.Valid() && fresh(stack.Repr) && stack.Contents == []
  {
    stack := new PagedStack.Stack<T>();
  }

  /** Push of a single element, as the traversals use it. */
  method PushOne<T>(stack: PagedStack.Stack<T>, x: T)
    requires stack.Valid()
    modifies stack.Repr
    ensures stack.Valid() && fresh(stack.Repr - old(stack.Repr))
    ensures stack.Contents == old(stack.Contents) + [x]
  {
    stack.Push([x]);
  }

  /** Pop of a stack known not to be empty, with the source's type assertion on
      the popped element. */
  method PopOne<T>(stack: PagedStack.Stack<T>) returns (x: T)
    requires stack.Valid() && |stack.Contents| > 0
    modifies stack
    ensures stack.Valid() && stack.Repr == old(stack.Repr)
    ensures old(stack.Contents) == stack.Contents + [x]
  {
    var top := stack.Pop();
    x := top.value;
  }

  /** The loop of the traversals pushing the children of `node`, first to last. */
  method PushChildren(stack: PagedStack.Stack<Path>, node: Path, k: nat)
    requires stack.Valid()
    modifies stack.Repr
    ensures stack.Valid() && fresh(stack.Repr - old(stack.Repr))
    ensures stack.Contents == old(stack.Contents) + ChildPaths(node, k)
  {
    for j := 0 to k
      invariant stack.Valid() && fresh(stack.Repr - old(stack.Repr))
      invariant stack.Contents == old(stack.Contents) + ChildPaths(node, j)
    {
      assert ChildPaths(node, j + 1) == ChildPaths(node, j) + [node + [j]];
      PushOne(stack, node + [j]);
    }
  }

  /** The path of the parent of a node other than the root. */
  function Parent(p: Path): (r: Path)
    requires p != []
    ensures |r| == |p| - 1 && r <= p
  {
    p[..|p| - 1]
  }

  /** The shape of EachPrefix's stack `s` (bottom first) after visiting the node
      at `last`: either only the root is on it, or every entry's parent is an
      ancestor of `last` (or `last` itself) and the parents deepen towards the
      top. */
  ghost predicate Ordered<V>(root: Node<V>, s: seq<Path>, last: Path) {
    && AllValid(root, s) && ValidPath(root, last)
    && ((s == [[]] && last == []) ||
        (&& (forall j :: 0 <= j < |s| ==> s[j] != [] && Parent(s[j]) <= last)
         && (forall i, j :: 0 <= i < j < |s| ==> s[i] != [] && s[j] != [] && Parent(s[i]) <= Parent(s[j]))))
  }

  /** Popping the root leaves its children, all with the root as parent. */
  lemma OrderedRoot<V>(root: Node<V>)
    ensures Ordered(root, ChildPaths([], |root.children|), [])
  {
    var s := ChildPaths([], |root.children|);
    forall j | 0 <= j < |s| ensures ValidPath(root, s[j]) && Parent(s[j]) == [] {
      ChildPath(root, [], j);
    }
  }

  /** Visiting the top `v` of an ordered stack: its parent is an ancestor of the
      node visited before, and the rest of the stack, with or without the
      children of `v` pushed, is ordered after `v`. */
  lemma OrderedPop<V>(root: Node<V>, s: seq<Path>, last: Path)
    requires Ordered(root, s, last) && s != [] && s[|s| - 1] != []
    ensures var v := s[|s| - 1]; var rest := s[..|s| - 1];
      && Parent(v) <= last
      && Ordered(root, rest, v)
      && Ordered(root, rest + ChildPaths(v, |At(root, v).children|), v)
  {
    var v := s[|s| - 1];
    var rest := s[..|s| - 1];
    var kids := ChildPaths(v, |At(root, v).children|);
    assert Parent(v) <= v;
    forall j | 0 <= j < |rest| ensures Parent(rest[j]) <= v {
      assert Parent(rest[j]) <= Parent(v);
    }
    forall j | 0 <= j < |kids| ensures ValidPath(root, kids[j]) && Parent(kids[j]) == v {
      ChildPath(root, v, j);
    }
    var next := rest + kids;
    forall j | 0 <= j < |next| ensures next[j] != [] && Parent(next[j]) <= v && ValidPath(root, next[j]) {
      if j >= |rest| {
        assert next[j] == kids[j - |rest|];
      }
    }
    forall i, j | 0 <= i < j < |next| ensures next[i] != [] && next[j] != [] && Parent(next[i]) <= Parent(next[j]) {
      if j >= |rest| {
        assert next[j] == kids[j - |rest|];
        if i >= |rest| {
          assert next[i] == kids[i - |rest|];
        }
      }
    }
  }

  /** What EachPrefix keeps for the parent of the node `v` about to be
      visited, after the node at `last`: when `v` is not deeper than `last`, the
      lengths and key of its parent are the first ones of those of `last`, which
      it reaches by dropping `|last| - |v| + 1` lengths; otherwise `v` is a child
      of `last`. */
  lemma Rewound<V>(root: Node<V>, last: Path, v: Path)
    requires ValidPath(root, last) && v != [] && Parent(v) <= last
    ensures var L := Lengths(root, last);
      && ValidPath(root, Parent(v))
      && (|v| > |last| ==> Parent(v) == last)
      && (|v| <= |last| ==>
            && Lengths(root, Parent(v)) == L[..|v| - 1]
            && Sum(L[..|v| - 1]) <= |FullKey(root, last)|
            && FullKey(root, Parent(v)) == FullKey(root, last)[..Sum(L[..|v| - 1])])
      && Sum(L) == |FullKey(root, last)|
  {
    LengthsSum(root, last);
    assert last[..|v| - 1] == Parent(v);
    LengthsPrefix(root, last, |v| - 1);
  }

  /** Adding the fragment of `v` to the lengths and key of its parent gives its
      own lengths and key. */
  lemma Extended<V>(root: Node<V>, v: Path)
    requires ValidPath(root, v) && v != []
    ensures ValidPath(root, Parent(v))
    ensures FullKey(root, Parent(v)) + At(root, v).key == FullKey(root, v)
    ensures Lengths(root, Parent(v)) + [|At(root, v).key|] == Lengths(root, v)
  {
    ParentPath(root, v);
    LengthsChild(root, Parent(v), v[|v| - 1]);
    assert Parent(v) + [v[|v| - 1]] == v;
  }

  /** The trimming loop of EachPrefix: pops `count` fragment lengths and cuts as
      many bytes off the end of the prefix as they add up to. */
  method Rewind(addedLengths: PagedStack.Stack<nat>, prefix: string, count: nat) returns (trimmed: string)
    requires addedLengths.Valid() && count <= |addedLengths.Contents| && Sum(addedLengths.Contents) <= |prefix|
    modifies addedLengths
    ensures addedLengths.Valid() && addedLengths.Repr == old(addedLengths.Repr)
    ensures var before := old(addedLengths.Contents); var kept := before[..|before| - count];
      && addedLengths.Contents == kept
      && Sum(kept) <= Sum(before)
      && trimmed == prefix[..|prefix| - (Sum(before) - Sum(kept))]
  {
    var length := 0;
    for i := 0 to count
      invariant addedLengths.Valid() && addedLengths.Repr == old(addedLengths.Repr)
      invariant addedLengths.Contents == old(addedLengths.Contents)[..|old(addedLengths.Contents)| - i]
      invariant 0 <= length && length + Sum(addedLengths.Contents) == Sum(old(addedLengths.Contents))
    {
      ghost var before := addedLengths.Contents;
      var l := PopOne(addedLengths);
      assert before[..|before| - 1] == addedLengths.Contents;
      length := length + l;
    }
    trimmed := prefix[..|prefix| - length];
  }

  /** PushOne next to a second stack, which it leaves as it is. */
  method PushBeside<T, U>(stack: PagedStack.Stack<T>, x: T, other: PagedStack.Stack<U>)
    requires stack.Valid() && other.Valid() && stack.Repr !! other.Repr
    modifies stack.Repr
    ensures stack.Valid() && fresh(stack.Repr - old(stack.Repr))
    ensures stack.Contents == old(stack.Contents) + [x]
    ensures other.Valid() && other.Repr == old(other.Repr) && other.Contents == old(other.Contents)
    ensures stack.Repr !! other.Repr
  {
    PushOne(stack, x);
  }

  /** PopOne next to a second stack, which it leaves as it is. */
  method PopBeside<T, U>(stack: PagedStack.Stack<T>, other: PagedStack.Stack<U>) returns (x: T)
    requires stack.Valid() && |stack.Contents| > 0 && other.Valid() && stack.Repr !! other.Repr
    modifies stack
    ensures stack.Valid() && stack.Repr == old(stack.Repr)
    ensures old(stack.Contents) == stack.Contents + [x]
    ensures other.Valid() && other.Repr == old(other.Repr) && other.Contents == old(other.Contents)
  {
    x := PopOne(stack);
  }

  /** PushChildren next to a second stack, which it leaves as it is. */
  method PushChildrenBeside<U>(stack: PagedStack.Stack<Path>, node: Path, k: nat, other: PagedStack.Stack<U>)
    requires stack.Valid() && other.Valid() && stack.Repr !! other.Repr
    modifies stack.Repr
    ensures stack.Valid() && fresh(stack.Repr - old(stack.Repr))
    ensures stack.Contents == old(stack.Contents) + ChildPaths(node, k)
    ensures other.Valid() && other.Repr == old(other.Repr) && other.Contents == old(other.Contents)
    ensures stack.Repr !! other.Repr
  {
    PushChildren(stack, node, k);
  }

  /** What EachPrefix keeps about the node at `last`, the one visited most
      recently: `prefix` is its full key, `lengths` the lengths of the key
      fragments along the way and `depth` its depth. */
  ghost predicate Tracks<V>(root: Node<V>, prefix: string, lengths: seq<nat>, depth: int, last: Path) {
    ValidPath(root, last) && prefix == FullKey(root, last) && lengths == Lengths(root, last) && depth == |last|
  }

  /** The callbacks made so far, followed by those the stack `s` still holds,
      are the callbacks of the whole traversal. */
  ghost predicate Progress<V>(root: Node<V>, visits: seq<Prefix<V>>, s: seq<Path>, cb: Prefix<V> -> Verdict) {
    AllValid(root, s) && Then((visits, false), VisitPending(root, s, cb)) == VisitKids(root, [], |root.children|, cb)
  }

  /** The traversal starts with only the root on the stack and no callback made. */
  lemma ProgressStart<V>(root: Node<V>, cb: Prefix<V> -> Verdict)
    ensures Progress(root, [], [[]], cb) && Ordered(root, [[]], [])
  {
    VisitPendingRoot(root, cb);
    var all := VisitKids(root, [], |root.children|, cb);
    assert [] + all.0 == all.0;
  }

  /** With the stack empty, the callbacks made are the trace. */
  lemma ProgressDone<V>(root: Node<V>, visits: seq<Prefix<V>>, cb: Prefix<V> -> Verdict)
    requires Progress(root, visits, [], cb)
    ensures visits == Trace(root, cb)
  {
    ThenAssoc((visits, false), ([], false), ([], false));
  }

  /** Popping the root: only the root was on the stack, and its children take
      its place. */
  lemma AdvanceRoot<V>(root: Node<V>, rest: seq<Path>, last: Path, visits: seq<Prefix<V>>, cb: Prefix<V> -> Verdict)
    requires Ordered(root, rest + [[]], last) && Progress(root, visits, rest + [[]], cb)
    ensures var next := rest + ChildPaths([], |root.children|);
      && rest == [] && last == []
      && Ordered(root, next, []) && Progress(root, visits, next, cb)
      && |Pending(root, next)| < |Pending(root, rest + [[]])|
  {
    var s := rest + [[]];
    assert s[..|s| - 1] == rest && s[|s| - 1] == [];
    VisitPop(root, s, cb);
    PendingPop(root, s);
    OrderedRoot(root);
  }

  /** The node `v` popped from an ordered stack is a node, and its parent is an
      ancestor of the node visited before it, or that node itself. */
  lemma Popped<V>(root: Node<V>, rest: seq<Path>, v: Path, last: Path)
    requires Ordered(root, rest + [v], last) && v != []
    ensures ValidPath(root, v) && Parent(v) <= last
  {
    var s := rest + [v];
    assert s[|s| - 1] == v;
  }

  /** A callback asking to halt on the popped node `v` completes the trace. */
  lemma Halted<V>(root: Node<V>, rest: seq<Path>, v: Path, visits: seq<Prefix<V>>, cb: Prefix<V> -> Verdict)
    requires Progress(root, visits, rest + [v], cb) && v != [] && ValidPath(root, v)
    requires cb(Info(root, v)).halt
    ensures visits + [Info(root, v)] == Trace(root, cb)
  {
    var s := rest + [v];
    assert s[..|s| - 1] == rest && s[|s| - 1] == v;
    VisitPop(root, s, cb);
    ThenAssoc((visits, false), ([Info(root, v)], true), ([], false));
  }

  /** A callback asking to skip the branch of the popped node `v` leaves the
      rest of the stack to go. */
  lemma Skipped<V>(root: Node<V>, rest: seq<Path>, v: Path, last: Path, visits: seq<Prefix<V>>, cb: Prefix<V> -> Verdict)
    requires Ordered(root, rest + [v], last) && Progress(root, visits, rest + [v], cb) && v != []
    requires ValidPath(root, v) && !cb(Info(root, v)).halt && cb(Info(root, v)).skipBranch
    ensures Ordered(root, rest, v) && Progress(root, visits + [Info(root, v)], rest, cb)
    ensures |Pending(root, rest)| < |Pending(root, rest + [v])|
  {
    var s := rest + [v];
    assert s[..|s| - 1] == rest && s[|s| - 1] == v;
    VisitPop(root, s, cb);
    OrderedPop(root, s, last);
    ThenVisit(visits, Info(root, v), VisitPending(root, rest, cb));
    PendingConcat(root, rest, [v]);
  }

  /** Otherwise the children of the popped node `v` take its place. */
  lemma Descended<V>(root: Node<V>, rest: seq<Path>, v: Path, last: Path, visits: seq<Prefix<V>>, cb: Prefix<V> -> Verdict)
    requires Ordered(root, rest + [v], last) && Progress(root, visits, rest + [v], cb) && v != []
    requires ValidPath(root, v) && !cb(Info(root, v)).halt && !cb(Info(root, v)).skipBranch
    ensures var next := rest + ChildPaths(v, |At(root, v).children|);
      && Ordered(root, next, v) && Progress(root, visits + [Info(root, v)], next, cb)
      && |Pending(root, next)| < |Pending(root, rest + [v])|
  {
    var s := rest + [v];
    assert s[..|s| - 1] == rest && s[|s| - 1] == v;
    VisitPop(root, s, cb);
    PendingPop(root, s);
    OrderedPop(root, s, last);
    ThenVisit(visits, Info(root, v), VisitPending(root, rest + ChildPaths(v, |At(root, v).children|), cb));
  }

  /** Depth: the number of parent links from the node at `p` up to the root. */
  method Depth<V>(root: Node<V>, p: Path) returns (depth: nat)
    requires ValidPath(root, p)
    ensures depth == |p|
  {
    depth := 0;
    var parent: Option<Path> := if p == [] then None else Some(p[..|p| - 1]);
    while parent.Some?
      invariant parent.Some? ==> depth < |p| && parent.value == p[..|p| - 1 - depth]
      invariant parent.None? ==> depth == |p|
      decreases |p| - depth
    {
      depth := depth + 1;
      var q := parent.value;
      parent := if q == [] then None else Some(q[..|q| - 1]);
    }
  }

  /** Prefix.Depth: the depth of the node a callback argument stands for. */
  method PrefixDepth<V>(root: Node<V>, info: Prefix<V>) returns (depth: nat)
    requires ValidPath(root, info.node)
    ensures depth == |info.node|
  {
    depth := Depth(root, info.node);
  }

  class PrefixMap<V> {
    /** The tree; its root has the empty key and is never compared. */
    var root: Node<V>

    /** New: an empty map. */
    constructor ()
      ensures root == NewRoot()
    {
      root := NewRoot();
    }

    /** Key: the fragments from the node at `p` up to the root, each put in front
        of the key built so far. */
    method Key(p: Path) returns (k: string)
      requires ValidPath(root, p)
      ensures k == FullKey(root, p)
    {
      var node := p;
      k := [];
      while node != []
        invariant ValidPath(root, node)
        invariant FullKey(root, p) == FullKey(root, node) + k
        decreases |node|
      {
        ParentPath(root, node);
        k := At(root, node).key + k;
        node := node[..|node| - 1];
      }
    }

    /** split: the node at `p` keeps the first `index` bytes of its fragment and
        no values; a single new child takes the rest, the values and the
        children. The source's copyNode is the copy this child starts from. */
    method SplitNode(p: Path, index: nat)
      requires ValidPath(root, p) && 0 < index < |At(root, p).key|
      modifies this
      ensures root == ReplaceAt(old(root), p, Split(At(old(root), p), index))
    {
      root := ReplaceAt(root, p, Split(At(root, p), index));
    }

    /** newNodeWithKey and appendNode: a new leaf with fragment `key` and no
        values becomes the last child of the node at `p`; its path is returned. */
    method AppendNode(p: Path, key: string) returns (child: Path)
      requires ValidPath(root, p)
      modifies this
      ensures root == ReplaceAt(old(root), p, AppendChild(At(old(root), p), key))
      ensures child == p + [|At(old(root), p).children|]
    {
      child := p + [|At(root, p).children|];
      root := ReplaceAt(root, p, AppendChild(At(root, p), key));
    }

    /** nodeForKey: with `create` it splits and appends where the walk ends so
        that a node for `key0` exists, and returns it; without, it changes
        nothing and returns the node the walk ended at (None when that is the
        root). The flag tells whether the returned node's key is exactly `key0`. */
    method NodeForKey(key0: string, create: bool) returns (found: Option<Path>, exact: bool)
      modifies this
      ensures create ==>
        found.Some? && exact && (root, found.value) == Created(old(root), Walk(old(root), key0, true))
      ensures !create ==>
        root == old(root) && found == Located(Walk(root, key0, false)) && exact == Walk(root, key0, false).Exact?
    {
      var o := Seek(root, key0, create);
      match o
      case Exact(p) =>
        return Some(p), true;
      case Inside(p, cut) =>
        if create {
          SplitNode(p, cut);
          return Some(p), true;
        }
        return Some(p), false;
      case Diverged(p, cut, rest) =>
        SplitNode(p, cut);
        AppendAfterSplit(old(root), p, cut, rest);
        var child := AppendNode(p, rest);
        return Some(child), true;
      case Stopped(p, rest) =>
        if create {
          var child := AppendNode(p, rest);
          return Some(child), true;
        }
        return if p == [] then None else Some(p), false;
    }

    /** Insert: the values are added after those already stored under `key`;
        the node for `key` is created first if it is missing. */
    method Insert(key: string, values: seq<V>)
      modifies this
      ensures root == InsertTree(old(root), key, values, false)
    {
      var found, _ := NodeForKey(key, true);
      var n := found.value;
      root := ReplaceAt(root, n, At(root, n).(data := At(root, n).data + values));
      CreatedIsInsert(old(root), 0, key, values, false);
    }

    /** Replace: the values stored under `key` become `values`; the node for
        `key` is created first if it is missing. */
    method Replace(key: string, values: seq<V>)
      modifies this
      ensures root == InsertTree(old(root), key, values, true)
    {
      var found, _ := NodeForKey(key, true);
      var n := found.value;
      root := ReplaceAt(root, n, At(root, n).(data := values));
      CreatedIsInsert(old(root), 0, key, values, true);
    }

    /** Get: the values of the node found for `key` when it is an exact match,
        None otherwise. Every key stored in the map is found with its values. */
    method Get(key: string) returns (values: Option<seq<V>>)
      ensures values == RadixWalk.Get(root, key)
      ensures Lookup(root, key).Some? ==> values == Lookup(root, key)
    {
      var o := Seek(root, key, false);
      GetFindsLookup(root, key);
      if !o.Exact? {
        return None;
      }
      return Some(At(root, o.path).data);
    }

    /** Contains: the node found for `key` is an exact match. */
    method Contains(key: string) returns (b: bool)
      ensures b == RadixWalk.Contains(root, key)
      ensures b <==> RadixWalk.Get(root, key).Some?
      ensures Lookup(root, key).Some? ==> b
    {
      var o := Seek(root, key, false);
      GetFindsLookup(root, key);
      return Located(o).Some? && o.Exact?;
    }

    /** ContainsPrefix: some node is found for `key`. */
    method ContainsPrefix(key: string) returns (b: bool)
      ensures b == RadixWalk.ContainsPrefix(root, key)
      ensures RadixWalk.Contains(root, key) ==> b
    {
      var o := Seek(root, key, false);
      return Located(o).Some?;
    }

    /** GetByPrefix: the values of the whole subtree of the node found for `key`;
        none when no node is found. */
    method GetByPrefix(key: string) returns (values: seq<V>)
      ensures Located(Walk(root, key, false)).None? ==> values == []
      ensures Located(Walk(root, key, false)).Some? ==>
        var p := Located(Walk(root, key, false)).value;
        && ValidPath(root, p)
        && values == Values(root, Preorder(root, p))
        && multiset(values) == Stored(At(root, p))
    {
      var o := Seek(root, key, false);
      var retrieved := Located(o);
      if retrieved.None? {
        return [];
      }
      values := Gather(root, retrieved.value);
    }

    /** EachPrefix: a depth-first traversal from the root, with a stack, that
        hands the callback every node but the root with its full key and
        values. The key is kept in `prefix`, with the lengths of its fragments
        on a second stack. A node whose callback asks to skip its branch has no
        children pushed; one that asks to halt ends the traversal. The
        callbacks made, in order, are returned. */
    method EachPrefix(cb: Prefix<V> -> Verdict) returns (visits: seq<Prefix<V>>)
      ensures visits == Trace(root, cb)
    {
      var stack := EmptyStack<Path>();
      var prefix: string := [];
      var addedLengths := EmptyStack<nat>();
      var lastDepth := Depth(root, []);
      ghost var last: Path := [];
      visits := [];
      PushOne(stack, []);
      ProgressStart(root, cb);
      while stack.Size() != 0
        invariant stack.Valid() && addedLengths.Valid() && stack.Repr !! addedLengths.Repr
        invariant fresh(stack.Repr + addedLengths.Repr)
        invariant Ordered(root, stack.Contents, last) && Progress(root, visits, stack.Contents, cb)
        invariant Tracks(root, prefix, addedLengths.Contents, lastDepth, last)
        decreases |Pending(root, stack.Contents)|
      {
        var halted;
        prefix, lastDepth, last, visits, halted := Step(root, cb, stack, addedLengths, prefix, lastDepth, last, visits);
        if halted {
          return;
        }
      }
      ProgressDone(root, visits, cb);
    }
  }

  /** The bookkeeping of EachPrefix on reaching the node at `node` after the
      one at `last`: when `node` is not deeper, the fragments of `last` up
      to and including the one at the depth of `node` are dropped; then the
      fragment of `node` is added. */
  method Enter<V>(root: Node<V>, addedLengths: PagedStack.Stack<nat>, prefix: string, lastDepth: int, ghost last: Path, node: Path,
               ghost paths: PagedStack.Stack<Path>)
    returns (nextPrefix: string, nextDepth: int)
    requires addedLengths.Valid() && Tracks(root, prefix, addedLengths.Contents, lastDepth, last)
    requires paths.Valid() && paths.Repr !! addedLengths.Repr
    requires ValidPath(root, node) && node != [] && Parent(node) <= last
    modifies addedLengths.Repr
    ensures addedLengths.Valid() && fresh(addedLengths.Repr - old(addedLengths.Repr))
    ensures Tracks(root, nextPrefix, addedLengths.Contents, nextDepth, node)
    ensures paths.Valid() && paths.Repr == old(paths.Repr) && paths.Contents == old(paths.Contents)
    ensures paths.Repr !! addedLengths.Repr
  {
    Rewound(root, last, node);
    Extended(root, node);
    nextPrefix := prefix;
    var currentDepth := Depth(root, node);
    if lastDepth >= currentDepth {
      nextPrefix := Rewind(addedLengths, prefix, lastDepth - currentDepth + 1);
    }
    nextDepth := currentDepth;
    nextPrefix := nextPrefix + At(root, node).key;
    PushOne(addedLengths, |At(root, node).key|);
  }

  /** The part of a round of EachPrefix's loop after a node other than the root
      is popped: its Prefix goes to the callback, and its children are
      pushed unless the callback said to skip or halt. `halted` reports a
      halt. */
  method Visit<V>(root: Node<V>, cb: Prefix<V> -> Verdict, stack: PagedStack.Stack<Path>, addedLengths: PagedStack.Stack<nat>,
               prefix: string, lastDepth: int, ghost last: Path, visits: seq<Prefix<V>>, node: Path,
               ghost before: seq<Path>)
    returns (prefix': string, lastDepth': int, visits': seq<Prefix<V>>, halted: bool)
    requires stack.Valid() && addedLengths.Valid() && stack.Repr !! addedLengths.Repr
    requires node != []
    requires before == stack.Contents + [node]
    requires Ordered(root, before, last) && Progress(root, visits, before, cb)
    requires Tracks(root, prefix, addedLengths.Contents, lastDepth, last)
    modifies stack.Repr, addedLengths.Repr
    ensures stack.Valid() && addedLengths.Valid() && stack.Repr !! addedLengths.Repr
    ensures fresh((stack.Repr + addedLengths.Repr) - old(stack.Repr + addedLengths.Repr))
    ensures halted ==> visits' == Trace(root, cb)
    ensures !halted ==>
      && Ordered(root, stack.Contents, node) && Progress(root, visits', stack.Contents, cb)
      && Tracks(root, prefix', addedLengths.Contents, lastDepth', node)
      && |Pending(root, stack.Contents)| < |Pending(root, before)|
  {
    ghost var rest := stack.Contents;
    Popped(root, rest, node, last);
    prefix', lastDepth' := Enter(root, addedLengths, prefix, lastDepth, last, node, stack);
    var info := Prefix(node, prefix', At(root, node).data);
    assert info == Info(root, node);
    var verdict := cb(info);
    visits', halted := visits + [info], false;
    if verdict.halt {
      Halted(root, rest, node, visits, cb);
      halted := true;
      return;
    }
    if verdict.skipBranch {
      Skipped(root, rest, node, last, visits, cb);
      return;
    }
    Descended(root, rest, node, last, visits, cb);
    PushChildrenBeside(stack, node, |At(root, node).children|, addedLengths);
  }

  /** The round of EachPrefix's loop that pops the root: its children are
      pushed. */
  method RootStep<V>(root: Node<V>, cb: Prefix<V> -> Verdict, stack: PagedStack.Stack<Path>, addedLengths: PagedStack.Stack<nat>,
                  ghost last: Path, ghost visits: seq<Prefix<V>>, ghost before: seq<Path>)
    requires stack.Valid() && addedLengths.Valid() && stack.Repr !! addedLengths.Repr
    requires before == stack.Contents + [[]]
    requires Ordered(root, before, last) && Progress(root, visits, before, cb)
    modifies stack.Repr
    ensures stack.Valid() && addedLengths.Valid() && stack.Repr !! addedLengths.Repr
    ensures fresh((stack.Repr + addedLengths.Repr) - old(stack.Repr + addedLengths.Repr))
    ensures addedLengths.Contents == old(addedLengths.Contents) && last == []
    ensures Ordered(root, stack.Contents, []) && Progress(root, visits, stack.Contents, cb)
    ensures |Pending(root, stack.Contents)| < |Pending(root, before)|
  {
    AdvanceRoot(root, stack.Contents, last, visits, cb);
    PushChildrenBeside(stack, [], |root.children|, addedLengths);
  }

  /** One round of EachPrefix's loop: pops a node; the root only has its
      children pushed, any other node is visited. */
  method Step<V>(root: Node<V>, cb: Prefix<V> -> Verdict, stack: PagedStack.Stack<Path>, addedLengths: PagedStack.Stack<nat>,
              prefix: string, lastDepth: int, ghost last: Path, visits: seq<Prefix<V>>)
    returns (prefix': string, lastDepth': int, ghost last': Path, visits': seq<Prefix<V>>, halted: bool)
    requires stack.Valid() && addedLengths.Valid() && stack.Repr !! addedLengths.Repr && |stack.Contents| > 0
    requires Ordered(root, stack.Contents, last) && Progress(root, visits, stack.Contents, cb)
    requires Tracks(root, prefix, addedLengths.Contents, lastDepth, last)
    modifies stack.Repr, addedLengths.Repr
    ensures stack.Valid() && addedLengths.Valid() && stack.Repr !! addedLengths.Repr
    ensures fresh((stack.Repr + addedLengths.Repr) - old(stack.Repr + addedLengths.Repr))
    ensures halted ==> visits' == Trace(root, cb)
    ensures !halted ==>
      && Ordered(root, stack.Contents, last') && Progress(root, visits', stack.Contents, cb)
      && Tracks(root, prefix', addedLengths.Contents, lastDepth', last')
      && |Pending(root, stack.Contents)| < |Pending(root, old(stack.Contents))|
  {
    ghost var before := stack.Contents;
    var node := PopBeside(stack, addedLengths);
    if node != [] {
      last' := node;
      prefix', lastDepth', visits', halted := Visit(root, cb, stack, addedLengths, prefix, lastDepth, last, visits, node, before);
    } else {
      prefix', lastDepth', last', visits', halted := prefix, lastDepth, last, visits, false;
      RootStep(root, cb, stack, addedLengths, last, visits, before);
    }
  }
}
