/**
 * `LeafIterator`: the explicit-stack walk over a partition tree that
 * `BSPMap::place_rooms` uses to reach every node.
 */
module Traversal {
  import opened Common
  import opened Bsp

  /**
   * The order the iterator yields the nodes of `t`: the node itself, then its
   * right subtree, then its left subtree (the left child is pushed first, so
   * the right one is popped first).
   */
  ghost function Visit(t: Leaf): seq<Leaf>
    decreases t, 1
  {
    [t] + VisitBelow(t)
  }

  /** The nodes below `t` in walk order: the right subtree's, then the left subtree's. */
  ghost function VisitBelow(t: Leaf): seq<Leaf>
    decreases t, 0
  {
    (if t.rightChild.Some? then Visit(t.rightChild.value) else [])
    + (if t.leftChild.Some? then Visit(t.leftChild.value) else [])
  }

  /** The nodes still to come from a stack of pending subtrees, top (last) first. */
  ghost function Pending(stack: seq<Leaf>): seq<Leaf>
    decreases |stack|
  {
    if stack == [] then []
    else Visit(stack[|stack| - 1]) + Pending(stack[..|stack| - 1])
  }

  /** Every node of `t` once, counted with multiplicity: `t`, then the subtrees of both children. */
  ghost function Subtrees(t: Leaf): multiset<Leaf>
    decreases t
  {
    multiset{t}
    + (if t.leftChild.Some? then Subtrees(t.leftChild.value) else multiset{})
    + (if t.rightChild.Some? then Subtrees(t.rightChild.value) else multiset{})
  }

  /** The number of nodes of `t`. */
  ghost function NodeCount(t: Leaf): nat
    decreases t
  {
    1
    + (if t.leftChild.Some? then NodeCount(t.leftChild.value) else 0)
    + (if t.rightChild.Some? then NodeCount(t.rightChild.value) else 0)
  }

  /** The walk yields the root first. */
  lemma VisitStartsAtRoot(t: Leaf)
    ensures |Visit(t)| >= 1 && Visit(t)[0] == t
  {
  }

  /** The nodes below `t`, counted with multiplicity: those of the right subtree and of the left. */
  lemma MultisetBelow(t: Leaf)
    ensures multiset(VisitBelow(t))
            == (if t.rightChild.Some? then multiset(Visit(t.rightChild.value)) else multiset{})
               + (if t.leftChild.Some? then multiset(Visit(t.leftChild.value)) else multiset{})
  {
    var r := if t.rightChild.Some? then Visit(t.rightChild.value) else [];
    var l := if t.leftChild.Some? then Visit(t.leftChild.value) else [];
    assert VisitBelow(t) == r + l;
  }

  /** The walk yields every node of the tree exactly once, and nothing else. */
  lemma {:induction false} VisitYieldsEveryNodeOnce(t: Leaf)
    ensures multiset(Visit(t)) == Subtrees(t)
    decreases t
  {
    var below := multiset(VisitBelow(t));
    var sl := if t.leftChild.Some? then Subtrees(t.leftChild.value) else multiset{};
    var sr := if t.rightChild.Some? then Subtrees(t.rightChild.value) else multiset{};
    if t.leftChild.Some? {
      VisitYieldsEveryNodeOnce(t.leftChild.value);
    }
    if t.rightChild.Some? {
      VisitYieldsEveryNodeOnce(t.rightChild.value);
    }
    MultisetBelow(t);
    assert below == sr + sl;
    assert Subtrees(t) == multiset{t} + sl + sr;
    assert Visit(t) == [t] + VisitBelow(t);
  }

  /** The walk is exactly as long as the tree has nodes. */
  lemma {:induction false} VisitLength(t: Leaf)
    ensures |Visit(t)| == NodeCount(t)
    decreases t
  {
    if t.leftChild.Some? {
      VisitLength(t.leftChild.value);
    }
    if t.rightChild.Some? {
      VisitLength(t.rightChild.value);
    }
  }

  class LeafIterator {
    /** The node the next call yields, if any. */
    var currentNode: Option<Leaf>
    /** Subtrees still to walk; the last element is the top of the stack. */
    var rightNodes: seq<Leaf>

    /** When nothing is current, nothing is pending either. */
    ghost predicate Valid()
      reads this
    {
      currentNode.None? ==> rightNodes == []
    }

    /** The nodes the iterator is still to yield, in order. */
    ghost function Remaining(): seq<Leaf>
      reads this
    {
      (if currentNode.Some? then [currentNode.value] else []) + Pending(rightNodes)
    }

    /** `LeafIterator::new`: the walk over the whole tree rooted at `root`. */
    constructor (root: Leaf)
      ensures Valid() && Remaining() == Visit(root)
    {
      rightNodes := [];
      currentNode := None;
      new;
      AddLeftSubtree(root);
    }

    /** `add_left_subtree`: push the node's children (left, then right) and make it current. */
    method AddLeftSubtree(node: Leaf)
      modifies this
      ensures currentNode == Some(node)
      ensures rightNodes == old(rightNodes) + Children(node)
      ensures Remaining() == Visit(node) + Pending(old(rightNodes))
    {
      if node.leftChild.Some? {
        rightNodes := rightNodes + [node.leftChild.value];
      }
      if node.rightChild.Some? {
        rightNodes := rightNodes + [node.rightChild.value];
      }
      currentNode := Some(node);
      assert rightNodes == old(rightNodes) + Children(node);
      PendingAfterPushes(old(rightNodes), node);
      assert Remaining() == [node] + Pending(rightNodes);
    }

    /** `next`: yield the current node, and make the top of the stack current. */
    method Next() returns (result: Option<Leaf>)
      requires Valid()
      modifies this
      ensures Valid()
      ensures old(Remaining()) == [] ==> result.None? && Remaining() == []
      ensures old(Remaining()) != [] ==>
                result == Some(old(Remaining())[0]) && Remaining() == old(Remaining())[1..]
    {
      result := currentNode;
      currentNode := None;
      if rightNodes != [] {
        var rest := rightNodes[|rightNodes| - 1];
        rightNodes := rightNodes[..|rightNodes| - 1];
        AddLeftSubtree(rest);
      }
    }
  }

  /** The children of a node in the order `add_left_subtree` pushes them: left, then right. */
  function Children(node: Leaf): seq<Leaf> {
    (if node.leftChild.Some? then [node.leftChild.value] else [])
    + (if node.rightChild.Some? then [node.rightChild.value] else [])
  }

  /** Pushing a subtree puts all of its nodes ahead of what was pending. */
  lemma PendingPush(stack: seq<Leaf>, t: Leaf)
    ensures Pending(stack + [t]) == Visit(t) + Pending(stack)
  {
    var pushed := stack + [t];
    assert pushed[..|pushed| - 1] == stack;
  }

  /** Pushing a node's children puts the node's right, then left, subtree ahead of what was pending. */
  lemma PendingAfterPushes(stack: seq<Leaf>, node: Leaf)
    ensures Pending(stack + Children(node)) == VisitBelow(node) + Pending(stack)
  {
    match node.leftChild {
      case None =>
        match node.rightChild {
          case None =>
            assert stack + Children(node) == stack;
          case Some(r) =>
            assert stack + Children(node) == stack + [r];
            PendingPush(stack, r);
        }
      case Some(l) =>
        match node.rightChild {
          case None =>
            assert stack + Children(node) == stack + [l];
            PendingPush(stack, l);
          case Some(r) =>
            assert stack + Children(node) == stack + [l] + [r];
            PendingPush(stack, l);
            PendingPush(stack + [l], r);
        }
    }
  }
}
