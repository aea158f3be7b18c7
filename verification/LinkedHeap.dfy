/**
 * The binary min heap of linked nodes that holds the event loop's timers
 * (thirdparty/libuv-1.30.1/src/heap-inl.h), over any strict weak order of the nodes' keys.
 */
module LinkedHeap {
  import opened Sequences

  class Node<K> {
    var key: K
    var left: Node?<K>
    var right: Node?<K>
    var parent: Node?<K>

    constructor (key: K)
      ensures this.key == key
    {
      this.key := key;
      left, right, parent := null, null, null;
    }
  }

  ghost predicate StrictWeakOrder<K(!new)>(less: (K, K) -> bool) {
    && (forall a :: !less(a, a))
    && (forall a, b, c :: less(a, b) && less(b, c) ==> less(a, c))
    && (forall a, b, c :: less(a, c) ==> less(a, b) || less(b, c))
  }

  ghost function NodeSet<K>(tree: seq<Node<K>>): set<Node<K>> { set n | n in tree }

  // ---------- a complete tree, level by level ----------

  /** The node at place `i`, places being numbered level by level from 0. */
  ghost function At<K>(tree: seq<Node<K>>, i: nat): Node?<K> { if i < |tree| then tree[i] else null }

  ghost function Up<K>(tree: seq<Node<K>>, i: nat): Node?<K>
    requires i < |tree|
  {
    if i == 0 then null else tree[(i - 1) / 2]
  }

  ghost predicate LinkedAt<K>(tree: seq<Node<K>>, i: nat)
    requires i < |tree|
    reads tree
  {
    tree[i].left == At(tree, 2 * i + 1) && tree[i].right == At(tree, 2 * i + 2) && tree[i].parent == Up(tree, i)
  }

  ghost predicate Linked<K>(tree: seq<Node<K>>)
    reads tree
  {
    Distinct(tree) && forall i :: 0 <= i < |tree| ==> LinkedAt(tree, i)
  }

  ghost function Maybe<K>(n: Node?<K>): set<Node<K>> { if n == null then {} else {n} }

  /** The two nodes of an exchange and all that are linked to them. */
  ghost function Around<K>(parent: Node<K>, child: Node<K>): set<Node<K>>
    reads parent, child
  {
    Maybe(parent.left) + Maybe(parent.right) + Maybe(child.left) + Maybe(child.right) + Maybe(parent.parent)
    + {parent, child}
  }

  /** A node, its child, and all their neighbours, none of them the same. */
  ghost predicate Swappable<K>(parent: Node<K>, child: Node<K>)
    reads parent, child, Maybe(parent.parent)
  {
    && parent != child && child.parent == parent && (parent.left == child || parent.right == child)
    && parent.left != parent.right && parent.left != parent && parent.right != parent
    && child.left != parent && child.right != parent && child.left != child && child.right != child
    && (child.left != null ==>
          && child.left != child.right && child.left != parent.left
          && child.left != parent.right && child.left != parent.parent)
    && (child.right != null ==>
          && child.right != parent.left && child.right != parent.right
          && child.right != parent.parent)
    && parent.parent != parent && parent.parent != child
    && (parent.parent != null ==> parent.parent != parent.left && parent.parent != parent.right)
    && (parent.parent != null ==> (parent.parent.left == parent) != (parent.parent.right == parent))
  }

  lemma LinkedSwappable<K>(t: seq<Node<K>>, c: nat)
    requires Linked(t) && 0 < c < |t|
    ensures Swappable(t[(c - 1) / 2], t[c])
    ensures Around(t[(c - 1) / 2], t[c]) <= NodeSet(t)
  {
    var p := (c - 1) / 2;
    assert LinkedAt(t, p) && LinkedAt(t, c);
    if p > 0 { assert LinkedAt(t, (p - 1) / 2); }
  }

  ghost function Sibling(c: nat): nat
    requires c > 0
  {
    if c % 2 == 1 then c + 1 else c - 1
  }

  /** In a tree that lists no node twice, who is whose child is a matter of numbers. */
  lemma Neighbours<K>(t: seq<Node<K>>, c: nat, i: nat)
    requires Distinct(t) && 0 < c < |t| && i < |t|
    ensures var p := (c - 1) / 2;
      && (t[i] == t[p] <==> i == p) && (t[i] == t[c] <==> i == c)
      && (At(t, 2 * i + 1) == t[p] <==> 2 * i + 1 == p) && (At(t, 2 * i + 2) == t[p] <==> 2 * i + 2 == p)
      && (t[i] == Up(t, p) <==> 2 * i + 1 == p || 2 * i + 2 == p) && (Up(t, p) == null <==> c <= 2)
      && (t[i] == At(t, 2 * p + 1) <==> i == 2 * p + 1) && (t[i] == At(t, 2 * p + 2) <==> i == 2 * p + 2)
      && (t[i] == At(t, 2 * c + 1) <==> i == 2 * c + 1) && (t[i] == At(t, 2 * c + 2) <==> i == 2 * c + 2)
      && (i == Sibling(c) || i == c <==> i == 2 * p + 1 || i == 2 * p + 2)
  {
  }

  /** The links down and up of a node `i` that is neither of the two exchanged. */
  ghost predicate DownAt<K>(t: seq<Node<K>>, c: nat, i: nat)
    requires 0 < c < |t| && i < |t|
    reads t
  {
    && t[i].left == (if 2 * i + 1 == (c - 1) / 2 then t[c] else At(t, 2 * i + 1))
    && t[i].right == (if 2 * i + 2 == (c - 1) / 2 then t[c] else At(t, 2 * i + 2))
  }

  ghost predicate UpAt<K>(t: seq<Node<K>>, c: nat, i: nat)
    requires 0 < c < |t| && i < |t|
    reads t
  {
    t[i].parent ==
      if i == Sibling(c) then t[c] else if i == 2 * c + 1 || i == 2 * c + 2 then t[(c - 1) / 2] else Up(t, i)
  }

  /**
   * The links of node `i` once the nodes at `c` and above it have exchanged their places, while
   * `t` still lists them as they were.
   */
  ghost predicate ExchangedAt<K>(t: seq<Node<K>>, c: nat, i: nat)
    requires 0 < c < |t| && i < |t|
    reads t
  {
    var p := (c - 1) / 2;
    if i == p then t[p].left == At(t, 2 * c + 1) && t[p].right == At(t, 2 * c + 2) && t[p].parent == t[c]
    else if i == c then
      && t[c].left == (if c == 2 * p + 1 then t[p] else At(t, 2 * p + 1))
      && t[c].right == (if c == 2 * p + 2 then t[p] else At(t, 2 * p + 2))
      && t[c].parent == Up(t, p)
    else DownAt(t, c, i) && UpAt(t, c, i)
  }

  lemma ExchangeRelinks<K>(t: seq<Node<K>>, c: nat, t': seq<Node<K>>)
    requires 0 < c < |t| && t' == t[(c - 1) / 2 := t[c]][c := t[(c - 1) / 2]]
    requires Distinct(t) && forall i :: 0 <= i < |t| ==> ExchangedAt(t, c, i)
    ensures Linked(t')
  {
    forall i | 0 <= i < |t'| ensures LinkedAt(t', i) {
      assert ExchangedAt(t, c, i) && ExchangedAt(t, c, (c - 1) / 2) && ExchangedAt(t, c, c);
    }
  }

  ghost predicate Replaceable<K>(node: Node<K>, last: Node<K>)
    reads node, Maybe(node.parent)
  {
    && last != node && node.left != last && node.right != last && node.parent != last
    && node.left != node && node.right != node && node.parent != node
    && (node.left != null ==> node.left != node.right && node.left != node.parent)
    && (node.right != null ==> node.right != node.parent)
    && (node.parent != null ==> (node.parent.left == node) != (node.parent.right == node))
  }

  lemma LinkedReplaceable<K>(t: seq<Node<K>>, q: nat, last: Node<K>)
    requires Linked(t) && q < |t| && last !in t
    ensures Replaceable(t[q], last)
  {
    assert LinkedAt(t, q);
    if q > 0 { assert LinkedAt(t, (q - 1) / 2); }
  }

  // ---------- order, on the keys level by level ----------

  ghost function Keys<K>(tree: seq<Node<K>>): (r: seq<K>)
    reads tree
    ensures |r| == |tree|
  {
    seq(|tree|, i requires 0 <= i < |tree| reads tree => tree[i].key)
  }

  ghost predicate EdgeOk<K>(less: (K, K) -> bool, ks: seq<K>, i: nat)
    requires i < |ks|
  {
    i > 0 ==> !less(ks[i], ks[(i - 1) / 2])
  }

  ghost predicate Ordered<K>(less: (K, K) -> bool, ks: seq<K>) {
    forall i :: 0 <= i < |ks| ==> EdgeOk(less, ks, i)
  }

  /** The children of `c` stay below what is above `c`. */
  ghost predicate Bridged<K>(less: (K, K) -> bool, ks: seq<K>, c: nat)
    requires c < |ks|
  {
    c > 0 ==> forall i :: 0 < i < |ks| && (i - 1) / 2 == c ==> !less(ks[i], ks[(c - 1) / 2])
  }

  /** Ordered but for the edge above `c`. */
  ghost predicate OrderedButUp<K>(less: (K, K) -> bool, ks: seq<K>, c: nat)
    requires c < |ks|
  {
    Bridged(less, ks, c) && forall i :: 0 <= i < |ks| && i != c ==> EdgeOk(less, ks, i)
  }

  /** Ordered but for the edges around `c`. */
  ghost predicate OrderedButAround<K>(less: (K, K) -> bool, ks: seq<K>, c: nat)
    requires c < |ks|
  {
    Bridged(less, ks, c) && forall i :: 0 <= i < |ks| && i != c && (i == 0 || (i - 1) / 2 != c) ==> EdgeOk(less, ks, i)
  }

  ghost function Exchange<T>(s: seq<T>, i: nat, j: nat): (r: seq<T>)
    requires i < |s| && j < |s|
    ensures |r| == |s|
  {
    s[i := s[j]][j := s[i]]
  }

  lemma SiftUpStep<K(!new)>(less: (K, K) -> bool, ks: seq<K>, c: nat)
    requires StrictWeakOrder(less) && 0 < c < |ks| && OrderedButUp(less, ks, c)
    requires less(ks[c], ks[(c - 1) / 2])
    ensures OrderedButUp(less, Exchange(ks, (c - 1) / 2, c), (c - 1) / 2)
  {
    var p := (c - 1) / 2;
    var ks' := Exchange(ks, p, c);
    assert EdgeOk(less, ks, p);
    forall i | 0 <= i < |ks| && i != p ensures EdgeOk(less, ks', i) {
      assert i != c ==> EdgeOk(less, ks, i);
    }
    forall i | p > 0 && 0 < i < |ks| && (i - 1) / 2 == p ensures !less(ks'[i], ks'[(p - 1) / 2]) {
      assert i != c ==> EdgeOk(less, ks, i);
    }
  }

  lemma SiftDownStep<K(!new)>(less: (K, K) -> bool, ks: seq<K>, c: nat, m: nat)
    requires StrictWeakOrder(less) && c < |ks| && 0 < m < |ks| && (m - 1) / 2 == c && OrderedButAround(less, ks, c)
    requires less(ks[m], ks[c]) && forall i :: 0 < i < |ks| && (i - 1) / 2 == c ==> !less(ks[i], ks[m])
    ensures OrderedButAround(less, Exchange(ks, c, m), m)
  {
    var ks' := Exchange(ks, c, m);
    forall i | 0 <= i < |ks| && i != m && (i == 0 || (i - 1) / 2 != m) ensures EdgeOk(less, ks', i) {
      assert i != c && (i == 0 || (i - 1) / 2 != c) ==> EdgeOk(less, ks, i);
    }
    forall i | 0 < i < |ks| && (i - 1) / 2 == m ensures !less(ks'[i], ks'[(m - 1) / 2]) {
      assert EdgeOk(less, ks, i);
    }
  }

  lemma SiftDownDone<K>(less: (K, K) -> bool, ks: seq<K>, c: nat)
    requires c < |ks| && OrderedButAround(less, ks, c)
    requires forall i :: 0 < i < |ks| && (i - 1) / 2 == c ==> !less(ks[i], ks[c])
    ensures OrderedButUp(less, ks, c)
  {
  }

  lemma SiftUpDone<K>(less: (K, K) -> bool, ks: seq<K>, c: nat)
    requires c < |ks| && OrderedButUp(less, ks, c) && (c > 0 ==> !less(ks[c], ks[(c - 1) / 2]))
    ensures Ordered(less, ks)
  {
  }

  /** In an ordered tree nothing is below the root. */
  lemma {:induction false} RootIsLeast<K(!new)>(less: (K, K) -> bool, ks: seq<K>, i: nat)
    requires StrictWeakOrder(less) && Ordered(less, ks) && i < |ks|
    ensures !less(ks[i], ks[0])
  {
    if i > 0 {
      RootIsLeast(less, ks, (i - 1) / 2);
      assert EdgeOk(less, ks, i);
    }
  }

  // ---------- the way from the root to a place ----------

  /** From place `p`, numbered from 1, down `k` levels: right where the low bit of `path` is set. */
  function Walk(p: nat, path: nat, k: nat): nat
    decreases k
  {
    if k == 0 then p else Walk(2 * p + path % 2, path / 2, k - 1)
  }

  lemma WalkBack(n: nat, path: nat, k: nat)
    ensures Walk(n / 2, path * 2 + n % 2, k + 1) == Walk(n, path, k)
  {
    var path' := path * 2 + n % 2;
    assert path' % 2 == n % 2 && path' / 2 == path;
  }

  lemma WalkNowhere(n: nat)
    ensures Walk(n, 0, 0) == n
  {
  }

  lemma {:induction false} WalkGrows(p: nat, path: nat, k: nat)
    ensures Walk(p, path, k) >= if k > 0 then 2 * p + path % 2 else p
    decreases k
  {
    if k > 0 { WalkGrows(2 * p + path % 2, path / 2, k - 1); }
  }

  /** A pointer to the field that holds a node. */
  datatype Slot<K> = Root | LeftOf(node: Node<K>) | RightOf(node: Node<K>)

  /** The field that holds, or would hold, the node at place `pos`, numbered from 1. */
  ghost predicate IsSlotOf<K>(tree: seq<Node<K>>, pos: nat, slot: Slot<K>) {
    && 1 <= pos <= |tree| + 1
    && if pos == 1 then slot == Root
       else pos / 2 <= |tree| && slot == if pos % 2 == 0 then LeftOf(tree[pos / 2 - 1]) else RightOf(tree[pos / 2 - 1])
  }

  class Heap<K(!new)> {
    var min: Node?<K>
    var nelts: nat
    ghost var tree: seq<Node<K>>

    ghost predicate Shape()
      reads this, tree
    {
      Linked(tree) && nelts == |tree| && min == At(tree, 0)
    }

    /** Exchanges a node with its child: the assignments, and what each neighbour's links are afterwards. */
    method SwapLinks(parent: Node<K>, child: Node<K>)
      requires Swappable(parent, child)
      modifies this`min, parent`left, parent`right, parent`parent, child`left, child`right, child`parent
      modifies Maybe(parent.left)`parent, Maybe(parent.right)`parent, Maybe(child.left)`parent,
        Maybe(child.right)`parent
      modifies Maybe(parent.parent)`left, Maybe(parent.parent)`right
      ensures parent.left == old(child.left) && parent.right == old(child.right) && parent.parent == child
      ensures child.parent == old(parent.parent)
      ensures child.left == if old(parent.left) == child then parent else old(parent.left)
      ensures child.right == if old(parent.left) == child then old(parent.right) else parent
      ensures old(parent.left) != child && old(parent.left) != null ==> old(parent.left).parent == child
      ensures old(parent.left) == child && old(parent.right) != null ==> old(parent.right).parent == child
      ensures old(child.left) != null ==> old(child.left).parent == parent
      ensures old(child.right) != null ==> old(child.right).parent == parent
      ensures old(parent.parent) != null ==>
        var g := old(parent.parent);
        && g.left == (if old(parent.parent.left) == parent then child else old(parent.parent.left))
        && g.right == (if old(parent.parent.left) == parent then old(parent.parent.right) else child)
      ensures min == if old(parent.parent) == null then child else old(min)
    {
      var left, right, up := parent.left, parent.right, parent.parent;
      parent.left, parent.right, parent.parent := child.left, child.right, child.parent;
      child.left, child.right, child.parent := left, right, up;

      parent.parent := child;
      var sibling;
      if child.left == child {
        child.left := parent;
        sibling := child.right;
      } else {
        child.right := parent;
        sibling := child.left;
      }
      if sibling != null {
        sibling.parent := child;
      }
      if parent.left != null {
        parent.left.parent := parent;
      }
      if parent.right != null {
        parent.right.parent := parent;
      }
      if child.parent == null {
        min := child;
      } else if child.parent.left == parent {
        child.parent.left := child;
      } else {
        child.parent.right := child;
      }
    }

    /** The same, for each of the nodes of a tree, by who it was to the two exchanged. */
    method ExchangeAmong(parent: Node<K>, child: Node<K>, ghost t: seq<Node<K>>)
      requires Swappable(parent, child)
      requires Around(parent, child) <= NodeSet(t)
      modifies this`min, NodeSet(t)`left, NodeSet(t)`right, NodeSet(t)`parent
      ensures parent.left == old(child.left) && parent.right == old(child.right) && parent.parent == child
      ensures child.left == (if old(parent.left) == child then parent else old(parent.left))
      ensures child.right == (if old(parent.left) == child then old(parent.right) else parent)
      ensures child.parent == old(parent.parent)
      ensures min == if old(parent.parent) == null then child else old(min)
      ensures forall i :: 0 <= i < |t| && t[i] != parent && t[i] != child ==> (t[i].left ==
        if old(t[i].left) == parent && t[i] == old(parent.parent) then child else old(t[i].left))
      ensures forall i :: 0 <= i < |t| && t[i] != parent && t[i] != child ==> (t[i].right ==
        if old(t[i].left) != parent && t[i] == old(parent.parent) then child else old(t[i].right))
      ensures forall i :: 0 <= i < |t| && t[i] != parent && t[i] != child ==> (t[i].parent ==
        if t[i] == old(parent.left) || t[i] == old(parent.right) then child
        else if t[i] == old(child.left) || t[i] == old(child.right) then parent else old(t[i].parent))
    {
      SwapLinks(parent, child);
    }

    method ExchangeNodes(parent: Node<K>, child: Node<K>, ghost t: seq<Node<K>>, ghost c: nat)
      requires Linked(t) && 0 < c < |t| && t[c] == child && t[(c - 1) / 2] == parent
      modifies this`min, NodeSet(t)`left, NodeSet(t)`right, NodeSet(t)`parent
      ensures forall i :: 0 <= i < |t| ==> ExchangedAt(t, c, i)
      ensures min == if c <= 2 then child else old(min)
    {
      hide Swappable, At, Up, Distinct;
      ghost var p := (c - 1) / 2;
      LinkedSwappable(t, c);
      Neighbours(t, c, c);
      assert LinkedAt(t, p) && LinkedAt(t, c);
      ExchangeAmong(parent, child, t);
      forall i | 0 <= i < |t| ensures ExchangedAt(t, c, i) {
        Neighbours(t, c, i);
        assert old(LinkedAt(t, i));
      }
    }

    /** `heap_node_swap`: the child moves one level up, the parent one level down. */
    method NodeSwap(parent: Node<K>, child: Node<K>, ghost c: nat)
      requires Shape() && 0 < c < |tree| && tree[c] == child && tree[(c - 1) / 2] == parent
      modifies this, NodeSet(tree)`left, NodeSet(tree)`right, NodeSet(tree)`parent
      ensures Shape() && nelts == old(nelts)
      ensures tree == old(tree)[(c - 1) / 2 := child][c := parent]
    {
      ghost var t': seq<Node<K>> := tree[(c - 1) / 2 := child][c := parent];
      ExchangeNodes(parent, child, tree, c);
      ExchangeRelinks(tree, c, t');
      tree := t';
    }
  
    ghost predicate Valid(less: (K, K) -> bool)
      reads this, tree
    {
      Shape() && Ordered(less, Keys(tree))
    }

    /** The root is at `min`, and nothing in the heap is below it. */
    lemma MinIsLeast(less: (K, K) -> bool)
      requires Valid(less) && StrictWeakOrder(less)
      ensures nelts == |tree| && (min == null <==> tree == [])
      ensures min != null ==> min in tree && forall n :: n in tree ==> !less(n.key, min.key)
    {
      if min != null {
        forall n | n in tree ensures !less(n.key, min.key) {
          var i :| 0 <= i < |tree| && tree[i] == n;
          RootIsLeast(less, Keys(tree), i);
        }
      }
    }

    constructor ()
      ensures Shape() && tree == []
    {
      min, nelts := null, 0;
      tree := [];
    }

    function Load(slot: Slot<K>): Node?<K>
      reads this, if slot == Root then {} else {slot.node}
    {
      match slot
      case Root => min
      case LeftOf(n) => n.left
      case RightOf(n) => n.right
    }

    /** The path from the root, read off the bits of `target`: the loop that comes first in insertion and removal. */
    static method PathTo(target: nat) returns (path: nat, k: nat)
      requires target >= 1
      ensures Walk(1, path, k) == target
    {
      hide Walk;
      path, k := 0, 0;
      var n := target;
      WalkNowhere(n);
      while n >= 2
        invariant 1 <= n && Walk(n, path, k) == target
      {
        WalkBack(n, path, k);
        path := path * 2 + n % 2;
        k := k + 1;
        n := n / 2;
      }
    }

    /** The path followed from the root. */
    method FindSlot(target: nat) returns (parent: Slot<K>, child: Slot<K>)
      requires Shape() && 1 <= target <= nelts + 1
      ensures IsSlotOf(tree, target, child)
      ensures if target == 1 then parent == Root else IsSlotOf(tree, target / 2, parent)
    {
      var path, k := PathTo(target);
      parent, child := Root, Root;
      ghost var pos := 1;
      while k > 0
        invariant 1 <= pos && Walk(pos, path, k) == target
        invariant IsSlotOf(tree, pos, child)
        invariant if pos == 1 then parent == Root else IsSlotOf(tree, pos / 2, parent)
      {
        WalkGrows(pos, path, k);
        LoadSlot(pos, child);
        parent := child;
        if path % 2 == 1 {
          child := RightOf(Load(child));
        } else {
          child := LeftOf(Load(child));
        }
        pos := 2 * pos + path % 2;
        path := path / 2;
        k := k - 1;
      }
    }

    lemma LoadSlot(pos: nat, slot: Slot<K>)
      requires Shape() && 1 <= pos <= |tree| && IsSlotOf(tree, pos, slot)
      ensures Load(slot) == tree[pos - 1]
    {
      if pos > 1 { assert LinkedAt(tree, pos / 2 - 1); }
    }

    method SiftUp(node: Node<K>, less: (K, K) -> bool, ghost c: nat)
      requires Shape() && c < |tree| && tree[c] == node && StrictWeakOrder(less)
      requires OrderedButUp(less, Keys(tree), c)
      modifies this, NodeSet(tree)`left, NodeSet(tree)`right, NodeSet(tree)`parent
      ensures Valid(less) && nelts == old(nelts)
      ensures NodeSet(tree) == old(NodeSet(tree))
    {
      hide LinkedAt, EdgeOk, Bridged, OrderedButUp, Ordered;
      ghost var at: nat := c;
      ParentOf(at);
      while node.parent != null && less(node.key, node.parent.key)
        invariant Shape() && nelts == old(nelts) && at < |tree| && tree[at] == node && node.parent == Up(tree, at)
        invariant NodeSet(tree) == old(NodeSet(tree))
        invariant OrderedButUp(less, Keys(tree), at)
        decreases at
      {
        ghost var t, ks, p: nat := tree, Keys(tree), (at - 1) / 2;
        SiftUpStep(less, ks, at);
        NodeSwap(node.parent, node, at);
        ExchangeKeeps(t, tree, p, at, ks);
        at := p;
        ParentOf(at);
      }
      SiftUpDone(less, Keys(tree), at);
    }

    lemma ParentOf(at: nat)
      requires Shape() && at < |tree|
      ensures tree[at].parent == Up(tree, at)
    {
      assert LinkedAt(tree, at);
    }

    /** The node itself, unless a child is below it; then the lesser child, which stands at place `m`. */
    method SmallestOfThree(node: Node<K>, less: (K, K) -> bool, ghost at: nat) returns (smallest: Node<K>, ghost m: nat)
      requires Shape() && at < |tree| && tree[at] == node && StrictWeakOrder(less)
      ensures m < |tree| && tree[m] == smallest
      ensures forall i :: 0 < i < |tree| && (i - 1) / 2 == at ==> !less(tree[i].key, smallest.key)
      ensures smallest != node ==> m > 0 && (m - 1) / 2 == at && less(smallest.key, node.key)
    {
      assert LinkedAt(tree, at);
      smallest, m := node, at;
      if node.left != null && less(node.left.key, smallest.key) {
        smallest, m := node.left, 2 * at + 1;
      }
      if node.right != null && less(node.right.key, smallest.key) {
        smallest, m := node.right, 2 * at + 2;
      }
    }

    method SiftDown(node: Node<K>, less: (K, K) -> bool, ghost c: nat) returns (ghost at: nat)
      requires Shape() && c < |tree| && tree[c] == node && StrictWeakOrder(less)
      requires OrderedButAround(less, Keys(tree), c)
      modifies this, NodeSet(tree)`left, NodeSet(tree)`right, NodeSet(tree)`parent
      ensures Shape() && nelts == old(nelts) && at < |tree| && tree[at] == node
      ensures OrderedButUp(less, Keys(tree), at)
      ensures NodeSet(tree) == old(NodeSet(tree))
    {
      hide LinkedAt, EdgeOk, Bridged, OrderedButAround, OrderedButUp;
      at := c;
      while true
        invariant Shape() && nelts == old(nelts) && at < |tree| && tree[at] == node
        invariant NodeSet(tree) == old(NodeSet(tree))
        invariant OrderedButAround(less, Keys(tree), at)
        decreases |tree| - at
      {
        var smallest, m := SmallestOfThree(node, less, at);
        ghost var t, ks := tree, Keys(tree);
        if smallest == node {
          SiftDownDone(less, ks, at);
          break;
        }
        SiftDownStep(less, ks, at, m);
        NodeSwap(node, smallest, m);
        ExchangeKeeps(t, tree, at, m, ks);
        at := m;
      }
    }

    /** Hangs a node without children into the first free place of the bottom row. */
    method Attach(node: Node<K>, parent: Slot<K>, child: Slot<K>)
      requires Shape() && node !in tree && node.left == null && node.right == null
      requires IsSlotOf(tree, |tree| + 1, child)
      requires if |tree| == 0 then parent == Root else IsSlotOf(tree, (|tree| + 1) / 2, parent)
      modifies this, NodeSet(tree)`left, NodeSet(tree)`right, node`parent
      ensures Shape() && tree == old(tree) + [node]
    {
      ghost var t := tree;
      if |t| > 0 { LoadSlot((|t| + 1) / 2, parent); }
      node.parent := Load(parent);
      match child {
        case Root => min := node;
        case LeftOf(n) => n.left := node;
        case RightOf(n) => n.right := node;
      }
      nelts := nelts + 1;
      tree := t + [node];
      forall i | 0 <= i < |tree| ensures LinkedAt(tree, i) {
        if i < |t| { assert old(LinkedAt(t, i)); }
      }
    }

    method Insert(node: Node<K>, less: (K, K) -> bool)
      requires Valid(less) && StrictWeakOrder(less) && node !in tree
      modifies this, NodeSet(tree)`left, NodeSet(tree)`right, NodeSet(tree)`parent, node`left, node`right, node`parent
      ensures Valid(less)
      ensures NodeSet(tree) == old(NodeSet(tree)) + {node} && nelts == old(nelts) + 1
    {
      hide EdgeOk, Ordered, OrderedButUp;
      ghost var t, ks := tree, Keys(tree);
      node.left, node.right, node.parent := null, null, null;
      assert Linked(t);
      var parent, child := FindSlot(1 + nelts);
      Attach(node, parent, child);
      assert Keys(tree) == ks + [node.key];
      AppendKeepsOrder(less, ks, node.key);
      SiftUp(node, less, |t|);
    }

    /** Cuts the last node of the bottom row off the tree. */
    method UnlinkLast() returns (last: Node<K>)
      requires Shape() && nelts > 0
      modifies this, NodeSet(tree)`left, NodeSet(tree)`right
      ensures Shape() && tree == old(tree)[..|old(tree)| - 1] && last == old(tree)[|old(tree)| - 1]
    {
      ghost var t := tree;
      var _, max := FindSlot(nelts);
      nelts := nelts - 1;
      if |t| > 1 { assert LinkedAt(t, |t| / 2 - 1); }
      last := Load(max);
      match max {
        case Root => min := null;
        case LeftOf(n) => n.left := null;
        case RightOf(n) => n.right := null;
      }
      tree := t[..|t| - 1];
      forall i | 0 <= i < |tree| ensures LinkedAt(tree, i) {
        assert old(LinkedAt(t, i));
      }
    }

    /** The assignments that put `last` into the place of `node`. */
    method ReplaceLinks(node: Node<K>, last: Node<K>)
      requires Replaceable(node, last)
      modifies this`min, last`left, last`right, last`parent, Maybe(node.left)`parent, Maybe(node.right)`parent
      modifies Maybe(node.parent)`left, Maybe(node.parent)`right
      ensures last.left == node.left == old(node.left) && last.right == node.right == old(node.right)
      ensures last.parent == node.parent == old(node.parent)
      ensures node.left != null ==> node.left.parent == last
      ensures node.right != null ==> node.right.parent == last
      ensures node.parent != null ==>
        && node.parent.left == (if old(node.parent.left) == node then last else old(node.parent.left))
        && node.parent.right == (if old(node.parent.left) == node then old(node.parent.right) else last)
      ensures min == if node.parent == null then last else old(min)
    {
      last.left, last.right, last.parent := node.left, node.right, node.parent;
      if last.left != null {
        last.left.parent := last;
      }
      if last.right != null {
        last.right.parent := last;
      }
      if node.parent == null {
        min := last;
      } else if node.parent.left == node {
        node.parent.left := last;
      } else {
        node.parent.right := last;
      }
    }

    method ReplaceNode(node: Node<K>, last: Node<K>, ghost t: seq<Node<K>>, ghost t': seq<Node<K>>, ghost q: nat)
      requires Linked(t) && q < |t| && t[q] == node && last !in t && t' == t[q := last]
      modifies this`min, NodeSet(t)`left, NodeSet(t)`right, NodeSet(t)`parent, last`left, last`right, last`parent
      ensures forall i :: 0 <= i < |t| ==> LinkedAt(t', i)
      ensures min == if q == 0 then last else old(min)
    {
      LinkedReplaceable(t, q, last);
      assert LinkedAt(t, q);
      if q > 0 { assert LinkedAt(t, (q - 1) / 2); }
      ReplaceLinks(node, last);
      forall i | 0 <= i < |t| ensures LinkedAt(t', i) {
        assert old(LinkedAt(t, i));
        if i != q {
          if q == 0 || i != (q - 1) / 2 {
            assert t[i].left == old(t[i].left) && t[i].right == old(t[i].right);
          }
          if i != 2 * q + 1 && i != 2 * q + 2 {
            assert t[i].parent == old(t[i].parent);
          }
        }
      }
    }

    /** Puts `last` into the place of `node`. */
    method Replace(node: Node<K>, last: Node<K>, ghost q: nat)
      requires Shape() && q < |tree| && tree[q] == node && last !in tree
      modifies this, NodeSet(tree)`left, NodeSet(tree)`right, NodeSet(tree)`parent, last`left, last`right, last`parent
      ensures Shape() && tree == old(tree)[q := last] && nelts == old(nelts)
    {
      ghost var t' := tree[q := last];
      ReplaceNode(node, last, tree, t', q);
      tree := t';
    }

    method Remove(node: Node?<K>, less: (K, K) -> bool)
      requires Valid(less) && StrictWeakOrder(less) && (nelts > 0 ==> node != null && node in tree)
      modifies this, NodeSet(tree)`left, NodeSet(tree)`right, NodeSet(tree)`parent
      ensures Valid(less)
      ensures if old(nelts) == 0 then tree == []
        else NodeSet(tree) == old(NodeSet(tree)) - {node} && nelts == old(nelts) - 1
    {
      hide LinkedAt, EdgeOk, Ordered, OrderedButAround, OrderedButUp;
      if nelts == 0 {
        return;
      }
      ghost var t, ks := tree, Keys(tree);
      ghost var q: nat :| q < |t| && t[q] == node;
      var last := UnlinkLast();
      CutKeepsOrder(less, ks);
      CutNodes(t, q);
      assert Keys(tree) == ks[..|ks| - 1];
      if last == node {
        // the original looks once more whether `min` is this node; cutting it off has cleared that
        return;
      }
      Replace(node, last, q);
      assert Keys(tree) == ks[..|ks| - 1][q := ks[|ks| - 1]];
      ReplaceKeepsOrder(less, ks, q);
      ghost var at := SiftDown(last, less, q);
      SiftUp(last, less, at);
    }

    method Dequeue(less: (K, K) -> bool)
      requires Valid(less) && StrictWeakOrder(less)
      modifies this, NodeSet(tree)`left, NodeSet(tree)`right, NodeSet(tree)`parent
      ensures Valid(less)
      ensures if old(nelts) == 0 then tree == []
        else NodeSet(tree) == old(NodeSet(tree)) - {old(min)} && nelts == old(nelts) - 1
    {
      Remove(min, less);
    }
  }

  lemma AppendKeepsOrder<K>(less: (K, K) -> bool, ks: seq<K>, k: K)
    requires Ordered(less, ks)
    ensures OrderedButUp(less, ks + [k], |ks|)
  {
    forall i | 0 <= i < |ks| ensures EdgeOk(less, ks + [k], i) {
      assert EdgeOk(less, ks, i);
    }
  }

  lemma CutKeepsOrder<K>(less: (K, K) -> bool, ks: seq<K>)
    requires Ordered(less, ks) && ks != []
    ensures Ordered(less, ks[..|ks| - 1])
  {
    var cut := ks[..|ks| - 1];
    forall i | 0 <= i < |cut| ensures EdgeOk(less, cut, i) {
      assert EdgeOk(less, ks, i);
    }
  }

  /** The nodes left when the last one is cut off, or takes the place of another. */
  lemma CutNodes<K>(t: seq<Node<K>>, q: nat)
    requires Distinct(t) && q < |t|
    ensures q == |t| - 1 ==> NodeSet(t[..|t| - 1]) == NodeSet(t) - {t[q]}
    ensures q < |t| - 1 ==> NodeSet(t[..|t| - 1][q := t[|t| - 1]]) == NodeSet(t) - {t[q]}
    ensures t[|t| - 1] !in t[..|t| - 1] && (t[|t| - 1] == t[q] ==> q == |t| - 1)
  {
    var cut := t[..|t| - 1];
    if q < |t| - 1 {
      var t' := cut[q := t[|t| - 1]];
      forall n | n in t && n != t[q] ensures n in t' {
        var k :| 0 <= k < |t| && t[k] == n;
        assert t'[if k == |t| - 1 then q else k] == n;
      }
    } else {
      forall n | n in t && n != t[q] ensures n in cut {
        var k :| 0 <= k < |t| && t[k] == n;
        assert cut[k] == n;
      }
    }
  }

  lemma ReplaceKeepsOrder<K(!new)>(less: (K, K) -> bool, ks: seq<K>, q: nat)
    requires StrictWeakOrder(less) && Ordered(less, ks) && q < |ks| - 1
    ensures OrderedButAround(less, ks[..|ks| - 1][q := ks[|ks| - 1]], q)
  {
    var ks' := ks[..|ks| - 1][q := ks[|ks| - 1]];
    forall i | 0 <= i < |ks'| && i != q && (i == 0 || (i - 1) / 2 != q) ensures EdgeOk(less, ks', i) {
      assert EdgeOk(less, ks, i);
    }
    forall i | q > 0 && 0 < i < |ks'| && (i - 1) / 2 == q ensures !less(ks'[i], ks'[(q - 1) / 2]) {
      assert EdgeOk(less, ks, i) && EdgeOk(less, ks, q);
    }
  }

  lemma ExchangeKeeps<K>(t: seq<Node<K>>, t': seq<Node<K>>, i: nat, j: nat, ks: seq<K>)
    requires i < |t| && j < |t| && t' == t[i := t[j]][j := t[i]] && ks == Keys(t)
    ensures NodeSet(t') == NodeSet(t)
    ensures Keys(t') == Exchange(ks, i, j)
  {
    assert forall n :: n in t ==> n in t' by {
      forall n | n in t ensures n in t' {
        var k :| 0 <= k < |t| && t[k] == n;
        assert t'[if k == i then j else if k == j then i else k] == n;
      }
    }
  }
}
