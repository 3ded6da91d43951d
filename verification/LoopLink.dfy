/** The circular singly linked list (cpp/Link.cpp), held by its tail, against the sequence of its nodes, top first. */
module LoopLinks {
  import opened DoubleLoopLinks

  class LinkNode {
    var next: LinkNode?
  }

  /** One cycle through all of s. */
  ghost predicate Cycle(s: seq<LinkNode>)
    reads s
  {
    forall i: nat {:trigger s[i].next} {:trigger After(i, |s|)} :: i < |s| ==> s[i].next == s[After(i, |s|)]
  }

  function Before(i: nat, n: nat): nat
    requires i < n
  {
    if i == 0 then n - 1 else i - 1
  }

  lemma RotatedCycle(s: seq<LinkNode>, k: nat)
    requires Cycle(s) && k < |s|
    ensures Cycle(Rotated(s, k))
  {
    var r, n := Rotated(s, k), |s|;
    forall i: nat | i < n
      ensures r[i].next == r[After(i, n)]
    {
      var j := if i + k < n then i + k else i + k - n;
      assert r[i] == s[j] && r[After(i, n)] == s[After(j, n)];
      assert s[j].next == s[After(j, n)];
    }
  }

  function Inserted<T>(s: seq<T>, i: nat, x: T): seq<T>
    requires s != [] ==> i < |s|
  {
    if s == [] then [x] else if i == |s| - 1 then [x] + s else InsertAfter(s, i, x)
  }

  lemma InsertedIsRotated<T>(s: seq<T>, i: nat, x: T)
    requires i < |s|
    ensures Inserted(s, i, x) == if i == |s| - 1 then Rotated(InsertAfter(s, i, x), i + 1) else InsertAfter(s, i, x)
    ensures |InsertAfter(s, i, x)| == |s| + 1 == |Inserted(s, i, x)| && Inserted(s, i, x)[|s|] == s[|s| - 1]
  {
  }

  lemma AloneIsCycle(node: LinkNode)
    requires node.next == node
    ensures Cycle([node]) && NoRepeats([node])
  {
  }

  lemma RotatedBefore<T>(s: seq<T>, i: nat)
    requires i < |s|
    ensures s[Before(i, |s|) + 1..] + s[..Before(i, |s|) + 1] == Rotated(s, i)
  {
  }

  lemma RotatedEnd<T>(s: seq<T>, i: nat)
    requires i < |s|
    ensures var r := Rotated(s, After(i, |s|));
            r == s[i + 1..] + s[..i + 1] && |r| == |s| && r[|s| - 1] == s[i]
  {
  }

  class LoopLink {
    var mTail: LinkNode?
    ghost var nodes: seq<LinkNode>

    ghost predicate Valid()
      reads this, nodes
    {
      NoRepeats(nodes) && Cycle(nodes) && mTail == if nodes == [] then null else nodes[|nodes| - 1]
    }

    constructor ()
      ensures Valid() && nodes == []
    {
      mTail := null;
      nodes := [];
    }

    static method InsertOnly(prev: LinkNode, node: LinkNode, ghost s: seq<LinkNode>, ghost i: nat)
      requires i < |s| && prev == s[i] && node !in s && NoRepeats(s) && Cycle(s)
      modifies node, prev
      ensures Cycle(InsertAfter(s, i, node)) && NoRepeats(InsertAfter(s, i, node))
    {
      ghost var r, n := InsertAfter(s, i, node), |s|;
      InsertedNoRepeats(s, i, node);
      hide InsertAfter;
      InsertedAt(s, i, node, 0);
      node.next := prev.next;
      prev.next := node;
      forall k: nat | k < |r|
        ensures r[k].next == r[After(k, |r|)]
      {
        InsertedAt(s, i, node, k);
        if k < i {
          NextApart(s, k, i);
        } else if k > i + 1 {
          NextApart(s, k - 1, i);
        }
      }
    }

    static method RemoveOnly(prev: LinkNode, node: LinkNode, ghost s: seq<LinkNode>, ghost i: nat)
      requires i < |s| && node == s[i] && prev == s[Before(i, |s|)] && NoRepeats(s) && Cycle(s)
      modifies prev, node
      ensures Cycle(Without(s, i)) && NoRepeats(Without(s, i)) && node.next == node
    {
      ghost var r, n, p := Without(s, i), |s|, Before(i, |s|);
      assert node.next == s[After(i, n)];
      prev.next := node.next;
      node.next := node;
      WithoutNoRepeats(s, i);
      WithoutLacks(s, i);
      forall k: nat | k < |r|
        ensures r[k].next == r[After(k, |r|)]
      {
        ghost var j := if k < i then k else k + 1;
        WithoutAt(s, i, k);
        WithoutAt(s, i, After(k, |r|));
        if j == p {
          assert r[After(k, |r|)] == s[After(i, n)];
        } else {
          assert r[After(k, |r|)] == s[After(j, n)];
        }
      }
    }

    /** Put node behind the i-th one; behind the tail it is the new top. */
    method InsertBase(prev: LinkNode?, node: LinkNode, ghost i: nat)
      requires Valid() && node !in nodes && (nodes != [] ==> i < |nodes| && prev == nodes[i])
      modifies this, node, nodes
      ensures Valid() && nodes == Inserted(old(nodes), i, node)
    {
      hide Cycle, NoRepeats, InsertAfter, Rotated;
      if mTail == null {
        node.next := node;
        mTail := node;
        nodes := [node];
        AloneIsCycle(node);
      } else {
        InsertOnly(prev, node, nodes, i);
        ghost var r := InsertAfter(nodes, i, node);
        InsertedIsRotated(nodes, i, node);
        if i == |nodes| - 1 {
          RotatedCycle(r, i + 1);
          RotatedNoRepeats(r, i + 1);
        }
        hide Inserted;
        nodes := Inserted(nodes, i, node);
      }
    }

    method RemoveBase(prev: LinkNode, node: LinkNode, ghost i: nat)
      requires Valid() && i < |nodes| && node == nodes[i] && prev == nodes[Before(i, |nodes|)]
      modifies this, nodes
      ensures Valid() && nodes == Without(old(nodes), i) && node.next == node
    {
      if node == mTail {
        mTail := if prev == node then null else prev;
      }
      RemoveOnly(prev, node, nodes, i);
      hide Cycle, NoRepeats;
      nodes := Without(nodes, i);
    }

    /** The walk from a member round the cycle ends at the node before it. */
    method FindPrevNode(node: LinkNode, ghost i: nat) returns (prev: LinkNode?)
      requires Valid() && i < |nodes| && node == nodes[i]
      ensures prev == nodes[Before(i, |nodes|)]
    {
      ghost var n := |nodes|;
      ghost var k: nat := After(i, n);
      prev := node.next;
      while prev.next != node
        invariant k < n && prev == nodes[k]
        invariant n == 1 || k != i
        decreases if k > i then n + i - k else i - k
      {
        assert prev.next == nodes[After(k, n)];
        if prev == node {
          return null;
        }
        prev := prev.next;
        k := After(k, n);
      }
      assert nodes[After(k, n)] == node;
      assert After(k, n) == i;
    }

    method Remove(node: LinkNode, ghost i: nat)
      requires Valid() && i < |nodes| && node == nodes[i]
      modifies this, nodes
      ensures Valid() && nodes == Without(old(nodes), i) && node.next == node
    {
      var prev := FindPrevNode(node, i);
      if prev != null {
        RemoveBase(prev, node, i);
      }
    }

    method Append(node: LinkNode)
      requires Valid() && node !in nodes
      modifies this, node, nodes
      ensures Valid() && nodes == old(nodes) + [node]
    {
      ghost var s := nodes;
      InsertBase(mTail, node, if s == [] then 0 else |s| - 1);
      RotatedEnd(nodes, 0);
      RotatedCycle(nodes, After(0, |nodes|));
      RotatedNoRepeats(nodes, After(0, |nodes|));
      hide Cycle, NoRepeats, Rotated;
      mTail := node;
      nodes := s + [node];
    }

    method Push(node: LinkNode)
      requires Valid() && node !in nodes
      modifies this, node, nodes
      ensures Valid() && nodes == [node] + old(nodes)
    {
      InsertBase(mTail, node, if nodes == [] then 0 else |nodes| - 1);
    }

    method Pop() returns (node: LinkNode?)
      requires Valid()
      modifies this, nodes
      ensures Valid()
      ensures old(nodes) == [] ==> node == null && nodes == []
      ensures old(nodes) != [] ==> node == old(nodes)[0] && nodes == old(nodes)[1..] && node.next == node
    {
      if mTail == null {
        return null;
      }
      node := mTail.next;
      RemoveBase(mTail, node, 0);
    }

    /** The list then ends with node. */
    method SetTail(node: LinkNode, ghost i: nat)
      requires Valid() && i < |nodes| && node == nodes[i]
      modifies this
      ensures Valid() && nodes == old(nodes)[i + 1..] + old(nodes)[..i + 1]
    {
      ghost var s, k := nodes, After(i, |nodes|);
      RotatedCycle(s, k);
      RotatedNoRepeats(s, k);
      RotatedEnd(s, i);
      hide Cycle, NoRepeats, Rotated;
      mTail := node;
      nodes := Rotated(s, k);
    }

    /** The list then begins with node. */
    method SetTop(node: LinkNode, ghost i: nat)
      requires Valid() && i < |nodes| && node == nodes[i]
      modifies this
      ensures Valid() && nodes == Rotated(old(nodes), i)
    {
      hide Cycle, NoRepeats;
      RotatedBefore(nodes, i);
      hide Rotated;
      var prev := FindPrevNode(node, i);
      SetTail(prev, Before(i, |nodes|));
    }

    /** Membership of any node, by a walk that ends at the tail. */
    method HasNode(node: LinkNode) returns (r: bool)
      requires Valid()
      ensures r <==> node in nodes
    {
      if mTail == null {
        return false;
      }
      var head := mTail.next;
      ghost var i := 0;
      while true
        invariant i < |nodes| && head == nodes[i] && node !in nodes[..i]
        decreases |nodes| - i
      {
        if head == node {
          return true;
        }
        if head == mTail {
          assert nodes == nodes[..i] + [head];
          return false;
        }
        head := head.next;
        i := i + 1;
      }
    }
  }
}
