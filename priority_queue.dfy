/**
 * PriorityQueue<T>: an unbalanced binary search tree keyed by priority (not a
 * heap). Enqueue descends left past strictly greater priorities and right
 * otherwise; Dequeue detaches the leftmost node. The result is a min-queue in
 * which equal priorities leave in the order they arrived.
 */
module PriorityQueues {
  import opened Wrappers
  import opened PriorityOrder

  /** A PriorityNode<T> with its Left and Right links; `Nil` is a null link. */
  datatype Tree<T> = Nil | PriorityNode(left: Tree<T>, value: T, priorityValue: int, right: Tree<T>)

  /** The entries of a tree from its leftmost node to its rightmost. */
  function InOrder<T>(t: Tree<T>): seq<Entry<T>> {
    match t
    case Nil => []
    case PriorityNode(l, v, p, r) => InOrder(l) + [Entry(v, p)] + InOrder(r)
  }

  /**
   * The ordering the tree keeps: priorities below a node on its left are
   * strictly smaller, those on its right at least as large.
   */
  ghost predicate IsSearchTree<T>(t: Tree<T>) {
    match t
    case Nil => true
    case PriorityNode(l, _, p, r) =>
      IsSearchTree(l) && IsSearchTree(r) && AllBelow(InOrder(l), p) && AllAtLeast(InOrder(r), p)
  }

  /** Reading a search tree left to right gives ascending priorities. */
  lemma {:induction false} SearchTreeIsSorted<T>(t: Tree<T>)
    requires IsSearchTree(t)
    ensures Sorted(InOrder(t))
  {
    if t.PriorityNode? {
      SearchTreeIsSorted(t.left);
      SearchTreeIsSorted(t.right);
      var l, r := InOrder(t.left), InOrder(t.right);
      var s := InOrder(t);
      assert forall i | 0 <= i < |s| ::
        s[i] == (if i < |l| then l[i] else if i == |l| then Entry(t.value, t.priorityValue) else r[i - |l| - 1]);
    }
  }

  /** Hanging `e` into the left subtree of a node of strictly greater priority. */
  lemma HangLeft<T>(node: Tree<T>, l: Tree<T>, e: Entry<T>)
    requires node.PriorityNode? && node.priorityValue > e.priority
    requires |InOrder(l)| == |InOrder(node.left)| + 1
    requires multiset(InOrder(l)) == multiset(InOrder(node.left)) + multiset{e}
    requires IsSearchTree(node.left) ==> IsSearchTree(l) && InOrder(l) == InsertSorted(InOrder(node.left), e)
    ensures |InOrder(node.(left := l))| == |InOrder(node)| + 1
    ensures multiset(InOrder(node.(left := l))) == multiset(InOrder(node)) + multiset{e}
    ensures IsSearchTree(node) ==>
      IsSearchTree(node.(left := l)) && InOrder(node.(left := l)) == InsertSorted(InOrder(node), e)
  {
    var root := [Entry(node.value, node.priorityValue)];
    assert InOrder(node) == InOrder(node.left) + (root + InOrder(node.right));
    assert InOrder(node.(left := l)) == InOrder(l) + (root + InOrder(node.right));
    if IsSearchTree(node) {
      InsertSortedBeforeGreater(InOrder(node.left), root + InOrder(node.right), e);
      InsertSortedBounds(InOrder(node.left), e, node.priorityValue);
    }
  }

  /** Hanging `e` into the right subtree of a node of the same or a smaller priority. */
  lemma HangRight<T>(node: Tree<T>, r: Tree<T>, e: Entry<T>)
    requires node.PriorityNode? && node.priorityValue <= e.priority
    requires |InOrder(r)| == |InOrder(node.right)| + 1
    requires multiset(InOrder(r)) == multiset(InOrder(node.right)) + multiset{e}
    requires IsSearchTree(node.right) ==> IsSearchTree(r) && InOrder(r) == InsertSorted(InOrder(node.right), e)
    ensures |InOrder(node.(right := r))| == |InOrder(node)| + 1
    ensures multiset(InOrder(node.(right := r))) == multiset(InOrder(node)) + multiset{e}
    ensures IsSearchTree(node) ==>
      IsSearchTree(node.(right := r)) && InOrder(node.(right := r)) == InsertSorted(InOrder(node), e)
  {
    var hung := node.(right := r);
    var front := InOrder(node.left) + [Entry(node.value, node.priorityValue)];
    assert InOrder(node) == front + InOrder(node.right);
    assert InOrder(hung) == front + InOrder(r);
    if IsSearchTree(node) {
      FrontAtMost(node, e.priority);
      InsertSortedAfterSmaller(front, InOrder(node.right), e);
      InsertSortedBounds(InOrder(node.right), e, node.priorityValue);
      assert IsSearchTree(hung);
    }
  }

  /** In a search tree, the left subtree and the node itself lie at or below any priority the node does. */
  lemma FrontAtMost<T>(node: Tree<T>, p: int)
    requires node.PriorityNode? && IsSearchTree(node) && node.priorityValue <= p
    ensures var front := InOrder(node.left) + [Entry(node.value, node.priorityValue)];
      forall i | 0 <= i < |front| :: front[i].priority <= p
  {
    var below := InOrder(node.left);
    var front := below + [Entry(node.value, node.priorityValue)];
    forall i | 0 <= i < |front| ensures front[i].priority <= p {
      if i < |below| {
        assert front[i] == below[i];
      }
    }
  }

  /**
   * FindNodePosition: the subtree `node` with a new leaf for (item, priority)
   * hung below it, to the left of every strictly greater priority and to the
   * right of the rest. On a search tree this is the sorted insertion of the
   * entry into the in-order sequence, and the tree stays a search tree.
   */
  function FindNodePosition<T>(item: T, priority: int, node: Tree<T>): (r: Tree<T>)
    requires node.PriorityNode?
    ensures r.PriorityNode? && |InOrder(r)| == |InOrder(node)| + 1
    ensures multiset(InOrder(r)) == multiset(InOrder(node)) + multiset{Entry(item, priority)}
    ensures IsSearchTree(node) ==>
      IsSearchTree(r) && InOrder(r) == InsertSorted(InOrder(node), Entry(item, priority))
    decreases node
  {
    var leaf := PriorityNode(Nil, item, priority, Nil);
    assert InOrder(leaf) == [Entry(item, priority)];
    if node.priorityValue > priority then
      // the new entry is of higher priority: it goes to the left
      var l := if node.left.PriorityNode? then FindNodePosition(item, priority, node.left) else leaf;
      HangLeft(node, l, Entry(item, priority));
      node.(left := l)
    else
      // the new entry is of lower or the same priority: it goes to the right
      var r := if node.right.PriorityNode? then FindNodePosition(item, priority, node.right) else leaf;
      HangRight(node, r, Entry(item, priority));
      node.(right := r)
  }

  /** The node `d` steps down the left spine of `t` (Nil when the spine is shorter). */
  function LeftAt<T>(t: Tree<T>, d: nat): Tree<T> {
    if d == 0 || t.Nil? then t else LeftAt(t.left, d - 1)
  }

  /** One more step down the left spine. */
  lemma {:induction false} LeftAtStep<T>(t: Tree<T>, d: nat)
    ensures LeftAt(t, d + 1) == if LeftAt(t, d).Nil? then Nil else LeftAt(t, d).left
    ensures LeftAt(t, d + 1).PriorityNode? ==> LeftAt(t, d).PriorityNode?
  {
    if d > 0 && t.PriorityNode? {
      LeftAtStep(t.left, d - 1);
    }
  }

  /**
   * `t` with the Left link of the node `d` steps down its left spine replaced
   * by `s`: the value-level form of assigning `previous.Left`.
   */
  function SetLeftAt<T>(t: Tree<T>, d: nat, s: Tree<T>): Tree<T> {
    if t.Nil? then t
    else if d == 0 then t.(left := s)
    else t.(left := SetLeftAt(t.left, d - 1, s))
  }

  /**
   * Rewiring `previous.Left` changes one link only: every node on the left
   * spine down to `previous` keeps its value, priority and right subtree, the
   * nodes above it keep their own links, and `previous.Left` becomes `s`.
   */
  lemma {:induction false} SetLeftAtChangesOneLink<T>(t: Tree<T>, d: nat, s: Tree<T>)
    requires LeftAt(t, d).PriorityNode?
    ensures forall i | 0 <= i <= d ::
      && LeftAt(t, i).PriorityNode?
      && LeftAt(SetLeftAt(t, d, s), i).PriorityNode?
      && LeftAt(SetLeftAt(t, d, s), i).value == LeftAt(t, i).value
      && LeftAt(SetLeftAt(t, d, s), i).priorityValue == LeftAt(t, i).priorityValue
      && LeftAt(SetLeftAt(t, d, s), i).right == LeftAt(t, i).right
      && (i < d ==> LeftAt(SetLeftAt(t, d, s), i).left == SetLeftAt(LeftAt(t, i).left, d - i - 1, s))
    ensures LeftAt(SetLeftAt(t, d, s), d).left == s
  {
    if d > 0 {
      SetLeftAtChangesOneLink(t.left, d - 1, s);
      forall i | 0 < i <= d
        ensures LeftAt(SetLeftAt(t, d, s), i) == LeftAt(SetLeftAt(t.left, d - 1, s), i - 1)
        ensures LeftAt(t, i) == LeftAt(t.left, i - 1)
      {
      }
    }
  }

  /**
   * Detaching the leftmost node `c`, found `d + 1` steps down the left spine,
   * by splicing its right subtree into its parent's Left link: `c` is the first
   * entry in order and the rest of the order is unchanged.
   */
  lemma {:induction false} SpliceLeftmost<T>(t: Tree<T>, d: nat)
    requires LeftAt(t, d + 1).PriorityNode? && LeftAt(t, d + 1).left.Nil?
    ensures var c := LeftAt(t, d + 1);
      InOrder(t) == [Entry(c.value, c.priorityValue)] + InOrder(SetLeftAt(t, d, c.right))
  {
    var c := LeftAt(t, d + 1);
    var t' := SetLeftAt(t, d, c.right);
    var e := Entry(c.value, c.priorityValue);
    if d == 0 {
      assert t.left == c && t' == t.(left := c.right);
      assert InOrder(c) == [e] + InOrder(c.right);
    } else {
      assert LeftAt(t.left, d) == c;
      SpliceLeftmost(t.left, d - 1);
      assert t' == t.(left := SetLeftAt(t.left, d - 1, c.right));
    }
    assert InOrder(t.left) == [e] + InOrder(t'.left);
    calc {
      InOrder(t);
      InOrder(t.left) + [Entry(t.value, t.priorityValue)] + InOrder(t.right);
      [e] + InOrder(t'.left) + [Entry(t.value, t.priorityValue)] + InOrder(t.right);
      [e] + (InOrder(t'.left) + [Entry(t.value, t.priorityValue)] + InOrder(t.right));
    }
  }

  /** Splicing out the leftmost node keeps a search tree a search tree. */
  lemma {:induction false} SpliceKeepsSearchTree<T>(t: Tree<T>, d: nat)
    requires LeftAt(t, d + 1).PriorityNode? && LeftAt(t, d + 1).left.Nil? && IsSearchTree(t)
    ensures IsSearchTree(SetLeftAt(t, d, LeftAt(t, d + 1).right))
  {
    var c := LeftAt(t, d + 1);
    var t' := SetLeftAt(t, d, c.right);
    if d == 0 {
      assert t.left == c && t' == t.(left := c.right);
      assert IsSearchTree(c);
      assert InOrder(c) == [Entry(c.value, c.priorityValue)] + InOrder(c.right);
    } else {
      assert LeftAt(t.left, d) == c;
      SpliceKeepsSearchTree(t.left, d - 1);
      SpliceLeftmost(t.left, d - 1);
      assert t' == t.(left := SetLeftAt(t.left, d - 1, c.right));
    }
    AllBelowTail(InOrder(t.left), InOrder(t'.left), t.priorityValue);
  }

  /** Dropping the first entry keeps every priority below the bound. */
  lemma AllBelowTail<T>(s: seq<Entry<T>>, rest: seq<Entry<T>>, p: int)
    requires AllBelow(s, p) && |s| >= 1 && s == [s[0]] + rest
    ensures AllBelow(rest, p)
  {
    assert forall i | 0 <= i < |rest| :: rest[i] == s[i + 1];
  }

  /** The leftmost node of a search tree holds the smallest priority. */
  lemma LeftmostIsMinimal<T>(t: Tree<T>)
    requires IsSearchTree(t) && InOrder(t) != []
    ensures forall i | 0 <= i < |InOrder(t)| :: InOrder(t)[0].priority <= InOrder(t)[i].priority
  {
    SearchTreeIsSorted(t);
  }

  /**
   * PriorityQueue<T>: the tree's root and the number of queued items. `Count`
   * is kept equal to the number of nodes in the tree.
   */
  class PriorityQueue<T> {
    var root: Tree<T>
    var Count: int

    ghost predicate Valid()
      reads this
    {
      IsSearchTree(root) && Count == |InOrder(root)|
    }

    /** The queued entries in the order Dequeue hands them back. */
    ghost function Contents(): seq<Entry<T>>
      reads this
    {
      InOrder(root)
    }

    constructor ()
      ensures Valid() && Contents() == [] && Count == 0
    {
      root := Nil;
      Count := 0;
    }

    /**
     * Enqueue: the entry is placed after every queued entry of the same or a
     * smaller priority and before every greater one; Count goes up by one.
     */
    method Enqueue(item: T, priority: int)
      requires Valid()
      modifies this
      ensures Valid()
      ensures Contents() == InsertSorted(old(Contents()), Entry(item, priority))
      ensures Count == old(Count) + 1
    {
      if root.Nil? {
        root := PriorityNode(Nil, item, priority, Nil);
      } else {
        root := FindNodePosition(item, priority, root);
      }
      Count := Count + 1;
    }

    /**
     * Dequeue: on an empty queue, `default(T)` (here None) with nothing
     * changed; otherwise the first entry in order, which has the smallest
     * priority, removed by splicing the leftmost node's right subtree into its
     * parent's Left link (or into the root).
     */
    method Dequeue() returns (item: Option<T>)
      requires Valid()
      modifies this
      ensures Valid()
      ensures old(Contents()) == [] ==> item == None && root == old(root) && Count == old(Count)
      ensures old(Contents()) != [] ==>
        && item == Some(old(Contents())[0].value)
        && Contents() == old(Contents())[1..]
        && Count == old(Count) - 1
        && forall i | 0 <= i < |Contents()| :: old(Contents())[0].priority <= Contents()[i].priority
    {
      if root.Nil? {
        return None;
      }
      // find the leftmost node, the one of highest priority
      var tree := root;
      var current := tree;
      var previous: Tree<T> := Nil;
      var depth: nat := 0;
      while current.left.PriorityNode?
        invariant current.PriorityNode? && current == LeftAt(tree, depth)
        invariant depth == 0 <==> previous.Nil?
        invariant depth > 0 ==> previous == LeftAt(tree, depth - 1) && previous.left == current
        invariant root == tree && Count == old(Count)
        decreases current
      {
        LeftAtStep(tree, depth);
        previous := current;
        current := current.left;
        depth := depth + 1;
      }
      LeftmostIsMinimal(tree);
      // remove the node: its right subtree takes its place
      if previous.Nil? {
        assert InOrder(tree) == [Entry(current.value, current.priorityValue)] + InOrder(current.right);
        root := current.right;
      } else {
        SpliceLeftmost(tree, depth - 1);
        SpliceKeepsSearchTree(tree, depth - 1);
        assert LeftAt(tree, depth - 1 + 1) == current;
        root := SetLeftAt(tree, depth - 1, current.right);
        assert InOrder(tree) == [Entry(current.value, current.priorityValue)] + InOrder(root);
      }
      Count := Count - 1;
      item := Some(current.value);
      assert |InOrder(root)| == |InOrder(tree)| - 1;
    }
  }
}
