/** The circular doubly linked list (cpp/Link.cpp) against the sequence of its nodes, head first. Every operation
    is pointer surgery on nodes the caller owns. */
module DoubleLoopLinks {

  class DoubleLinkNode {
    var prev: DoubleLinkNode?
    var next: DoubleLinkNode?
  }

  function After(i: nat, n: nat): nat
    requires i < n
  {
    if i + 1 < n then i + 1 else 0
  }

  ghost predicate NoRepeats<T>(s: seq<T>) { forall i, j :: 0 <= i < j < |s| ==> s[i] != s[j] }

  /** One cycle through all of s: next and prev are each other's inverse, from each element to the one after it. */
  ghost predicate Ring(s: seq<DoubleLinkNode>)
    reads s
  {
    forall i: nat {:trigger s[i].next} {:trigger After(i, |s|)} :: i < |s| ==>
      s[i].next == s[After(i, |s|)] && s[After(i, |s|)].prev == s[i]
  }

  function InsertAfter<T>(s: seq<T>, i: nat, x: T): seq<T>
    requires i < |s|
  {
    s[..i + 1] + [x] + s[i + 1..]
  }

  /** What stands at place k of the longer sequence, and what behind it on the cycle. */
  lemma InsertedAt<T>(s: seq<T>, i: nat, x: T, k: nat)
    requires i < |s| && k <= |s|
    ensures var r, n := InsertAfter(s, i, x), |s|;
            && |r| == n + 1
            && r[k] == (if k <= i then s[k] else if k == i + 1 then x else s[k - 1])
            && r[After(k, n + 1)] == if k < i then s[After(k, n)] else if k == i then x else s[After(k - 1, n)]
  {
  }

  lemma InsertedLast<T>(s: seq<T>, x: T)
    requires s != []
    ensures InsertAfter(s, |s| - 1, x) == s + [x]
  {
  }

  lemma InsertedNoRepeats<T>(s: seq<T>, i: nat, x: T)
    requires i < |s| && NoRepeats(s) && x !in s
    ensures NoRepeats(InsertAfter(s, i, x))
  {
    var r := InsertAfter(s, i, x);
    forall j, k | 0 <= j < k < |r|
      ensures r[j] != r[k]
    {
      InsertedAt(s, i, x, j);
      InsertedAt(s, i, x, k);
    }
  }

  function Without<T>(s: seq<T>, i: nat): seq<T>
    requires i < |s|
  {
    s[..i] + s[i + 1..]
  }

  lemma WithoutAt<T>(s: seq<T>, i: nat, k: nat)
    requires i < |s| && k < |s| - 1
    ensures |Without(s, i)| == |s| - 1 && Without(s, i)[k] == s[if k < i then k else k + 1]
  {
  }

  /** The same, and what stands behind it on the cycle. */
  lemma WithoutOnCycle<T>(s: seq<T>, i: nat, k: nat)
    requires i < |s| && k < |s| - 1
    ensures var r, n, j := Without(s, i), |s|, if k < i then k else k + 1;
            && |r| == n - 1 && r[k] == s[j]
            && r[After(k, n - 1)] == if After(j, n) == i then s[After(i, n)] else s[After(j, n)]
  {
  }

  lemma WithoutNoRepeats<T>(s: seq<T>, i: nat)
    requires NoRepeats(s) && i < |s|
    ensures NoRepeats(Without(s, i))
  {
    var r := Without(s, i);
    forall j, k | 0 <= j < k < |r|
      ensures r[j] != r[k]
    {
      WithoutAt(s, i, j);
      WithoutAt(s, i, k);
    }
  }

  function Rotated<T>(s: seq<T>, k: nat): seq<T>
    requires k <= |s|
  {
    s[k..] + s[..k]
  }

  lemma NextApart<T>(s: seq<T>, k: nat, i: nat)
    requires NoRepeats(s) && k < |s| && i < |s| && k != i
    ensures s[k] != s[i] && s[After(k, |s|)] != s[After(i, |s|)]
  {
  }

  /** Where the list begins does not matter to the cycle. */
  lemma RotatedRing(s: seq<DoubleLinkNode>, k: nat)
    requires Ring(s) && k < |s|
    ensures Ring(Rotated(s, k))
  {
    var r, n := Rotated(s, k), |s|;
    forall i: nat | i < n
      ensures r[i].next == r[After(i, n)] && r[After(i, n)].prev == r[i]
    {
      var j := if i + k < n then i + k else i + k - n;
      assert r[i] == s[j] && r[After(i, n)] == s[After(j, n)];
      assert s[j].next == s[After(j, n)];
    }
  }

  class DoubleLoopLink {
    var mHead: DoubleLinkNode?
    ghost var nodes: seq<DoubleLinkNode>

    ghost predicate Valid()
      reads this, nodes
    {
      NoRepeats(nodes) && Ring(nodes) && mHead == if nodes == [] then null else nodes[0]
    }

    constructor ()
      ensures Valid() && nodes == []
    {
      mHead := null;
      nodes := [];
    }

    static method InsertOnly(prev: DoubleLinkNode, next: DoubleLinkNode, node: DoubleLinkNode,
                             ghost s: seq<DoubleLinkNode>, ghost i: nat)
      requires i < |s| && prev == s[i] && next == s[After(i, |s|)] && node !in s && NoRepeats(s) && Ring(s)
      modifies node, prev`next, next`prev
      ensures Ring(InsertAfter(s, i, node)) && NoRepeats(InsertAfter(s, i, node))
    {
      ghost var r, n := InsertAfter(s, i, node), |s|;
      InsertedNoRepeats(s, i, node);
      hide InsertAfter;
      InsertedAt(s, i, node, 0);
      node.prev := prev;
      node.next := next;
      prev.next := node;
      next.prev := node;
      forall k: nat | k < |r|
        ensures r[k].next == r[After(k, |r|)] && r[After(k, |r|)].prev == r[k]
      {
        InsertedAt(s, i, node, k);
        if k < i {
          NextApart(s, k, i);
        } else if k > i + 1 {
          NextApart(s, k - 1, i);
        }
      }
    }

    static method RemoveOnly(prev: DoubleLinkNode, next: DoubleLinkNode, ghost s: seq<DoubleLinkNode>, ghost i: nat)
      requires i < |s| && NoRepeats(s) && Ring(s) && prev == s[i].prev && next == s[i].next
      modifies prev`next, next`prev
      ensures Ring(Without(s, i)) && NoRepeats(Without(s, i))
    {
      ghost var r, n := Without(s, i), |s|;
      ghost var p := if i == 0 then n - 1 else i - 1;
      assert After(p, n) == i && prev == s[p];
      prev.next := next;
      next.prev := prev;
      WithoutNoRepeats(s, i);
      assert |r| == n - 1;
      hide Without;
      forall k: nat | k < |r|
        ensures r[k].next == r[After(k, |r|)] && r[After(k, |r|)].prev == r[k]
      {
        WithoutOnCycle(s, i, k);
        var j := if k < i then k else k + 1;
        if j != p {
          NextApart(s, j, p);
          NextApart(s, j, i);
        }
      }
    }

    method InsertBase(prev: DoubleLinkNode?, next: DoubleLinkNode?, node: DoubleLinkNode, ghost i: nat)
      requires Valid() && node !in nodes
      requires nodes != [] ==> i < |nodes| && prev == nodes[i] && next == nodes[After(i, |nodes|)]
      modifies this, node, nodes
      ensures Valid() && nodes == if old(nodes) == [] then [node] else InsertAfter(old(nodes), i, node)
    {
      if mHead == null {
        node.prev, node.next := node, node;
        mHead := node;
        nodes := [node];
      } else {
        InsertOnly(prev, next, node, nodes, i);
        nodes := InsertAfter(nodes, i, node);
      }
    }

    method RemoveBase(node: DoubleLinkNode, ghost i: nat)
      requires Valid() && i < |nodes| && node == nodes[i]
      modifies this, nodes
      ensures Valid() && nodes == Without(old(nodes), i)
      ensures node.next == node == node.prev
    {
      var prev, next := node.prev, node.next;
      ghost var s, r := nodes, Without(nodes, i);
      Neighbours(i);
      RemoveOnly(prev, next, s, i);
      WithoutLacks(s, i);
      node.next, node.prev := node, node;
      assert Ring(r);
      if mHead == node {
        mHead := if node == next then null else next;
      }
      nodes := r;
    }

    /** The place of a member, and its neighbours. */
    lemma Neighbours(i: nat)
      requires Valid() && i < |nodes|
      ensures nodes[i].next == nodes[After(i, |nodes|)]
      ensures nodes[i].prev == nodes[if i == 0 then |nodes| - 1 else i - 1]
    {
      var p := if i == 0 then |nodes| - 1 else i - 1;
      assert After(p, |nodes|) == i && nodes[p].next == nodes[i];
    }

    /** Put node behind prev, the i-th node; into an empty list behind whatever prev is. */
    method Insert(prev: DoubleLinkNode, node: DoubleLinkNode, ghost i: nat)
      requires Valid() && node !in nodes && (nodes != [] ==> i < |nodes| && prev == nodes[i])
      modifies this, node, nodes
      ensures Valid() && nodes == if old(nodes) == [] then [node] else InsertAfter(old(nodes), i, node)
    {
      if mHead != null {
        Neighbours(i);
      }
      InsertBase(prev, prev.next, node, i);
    }

    method Remove(node: DoubleLinkNode, ghost i: nat)
      requires Valid() && i < |nodes| && node == nodes[i]
      modifies this, nodes
      ensures Valid() && nodes == Without(old(nodes), i) && node.next == node == node.prev
    {
      RemoveBase(node, i);
    }

    method Append(node: DoubleLinkNode)
      requires Valid() && node !in nodes
      modifies this, node, nodes
      ensures Valid() && nodes == old(nodes) + [node]
    {
      ghost var s := nodes;
      if mHead != null {
        Neighbours(0);
        InsertBase(mHead.prev, mHead, node, |s| - 1);
        assert InsertAfter(s, |s| - 1, node) == s + [node];
      } else {
        InsertBase(null, null, node, 0);
      }
    }

    method Push(node: DoubleLinkNode)
      requires Valid() && node !in nodes
      modifies this, node, nodes
      ensures Valid() && nodes == [node] + old(nodes)
    {
      ghost var s := nodes;
      if mHead != null {
        Neighbours(0);
        InsertBase(mHead.prev, mHead, node, |s| - 1);
        assert nodes == s + [node];
        Rehead(node, |s|);
        assert Rotated(s + [node], |s|) == [node] + s;
      } else {
        InsertBase(null, null, node, 0);
      }
    }

    /** Begin the list at its k-th node. */
    method Rehead(node: DoubleLinkNode, ghost k: nat)
      requires Valid() && k < |nodes| && node == nodes[k]
      modifies this
      ensures Valid() && nodes == Rotated(old(nodes), k)
    {
      RotatedRing(nodes, k);
      RotatedNoRepeats(nodes, k);
      mHead := node;
      nodes := Rotated(nodes, k);
    }

    method Pop() returns (node: DoubleLinkNode?)
      requires Valid()
      modifies this, nodes
      ensures Valid()
      ensures old(nodes) == [] ==> node == null && nodes == []
      ensures old(nodes) != [] ==> node == old(nodes)[0] && nodes == old(nodes)[1..] && node.next == node == node.prev
    {
      if mHead == null {
        return null;
      }
      node := mHead;
      RemoveBase(node, 0);
    }

    method DelTail() returns (node: DoubleLinkNode?)
      requires Valid()
      modifies this, nodes
      ensures Valid()
      ensures old(nodes) == [] ==> node == null && nodes == []
      ensures old(nodes) != [] ==>
                node == old(nodes)[|old(nodes)| - 1] && nodes == old(nodes)[..|old(nodes)| - 1]
                && node.next == node == node.prev
    {
      if mHead == null {
        return null;
      }
      Neighbours(0);
      node := mHead.prev;
      RemoveBase(node, |nodes| - 1);
    }

    method GetTailNode() returns (node: DoubleLinkNode?)
      requires Valid()
      ensures node == if nodes == [] then null else nodes[|nodes| - 1]
    {
      if mHead == null {
        return null;
      }
      Neighbours(0);
      return mHead.prev;
    }

    method SetTop(node: DoubleLinkNode, ghost i: nat)
      requires Valid() && i < |nodes| && node == nodes[i]
      modifies this
      ensures Valid() && nodes == Rotated(old(nodes), i)
    {
      Rehead(node, i);
    }

    /** The list then ends with node. */
    method SetTail(node: DoubleLinkNode, ghost i: nat)
      requires Valid() && i < |nodes| && node == nodes[i]
      modifies this
      ensures Valid() && nodes == old(nodes)[i + 1..] + old(nodes)[..i + 1]
    {
      Neighbours(i);
      ghost var s := nodes;
      Rehead(node.next, After(i, |s|));
      assert i + 1 == |s| ==> s[i + 1..] + s[..i + 1] == s == Rotated(s, 0);
    }

    /** Take the i-th node out and put it between the last and the first. */
    method MoveBase(node: DoubleLinkNode, ghost i: nat)
      requires Valid() && 0 < i < |nodes| - 1 && node == nodes[i]
      modifies this, nodes
      ensures Valid() && nodes == Without(old(nodes), i) + [node]
    {
      hide Ring, NoRepeats, InsertAfter, Without;
      Neighbours(i);
      Neighbours(0);
      ghost var s := nodes;
      var prev, next := mHead.prev, mHead;
      RemoveOnly(node.prev, node.next, s, i);
      ghost var r := Without(s, i);
      WithoutAt(s, i, 0);
      WithoutAt(s, i, |s| - 2);
      WithoutLacks(s, i);
      InsertOnly(prev, next, node, r, |r| - 1);
      InsertedLast(r, node);
      nodes := r + [node];
    }

    /** The exact permutation: node first, all others in their old order. */
    method MoveToTop(node: DoubleLinkNode, ghost i: nat)
      requires Valid() && i < |nodes| && node == nodes[i]
      modifies this, nodes
      ensures Valid() && nodes == [node] + Without(old(nodes), i)
    {
      ghost var s := nodes;
      if mHead != null && node != mHead {
        Neighbours(0);
        if mHead.prev != node {
          MoveBase(node, i);
          Rehead(node, |s| - 1);
          assert Rotated(Without(s, i) + [node], |s| - 1) == [node] + Without(s, i);
        } else {
          assert i == |s| - 1;
          Rehead(node, i);
          assert Rotated(s, i) == [node] + Without(s, i);
        }
      } else {
        assert i == 0 && s == [node] + Without(s, 0);
      }
    }

    /** The exact permutation: node last, all others in their old order. */
    method MoveToTail(node: DoubleLinkNode, ghost i: nat)
      requires Valid() && i < |nodes| && node == nodes[i]
      modifies this, nodes
      ensures Valid() && nodes == Without(old(nodes), i) + [node]
    {
      ghost var s := nodes;
      Neighbours(0);
      if mHead != null && node != mHead.prev {
        if node == mHead {
          assert i == 0;
          Rehead(node.next, 1);
          assert Rotated(s, 1) == Without(s, 0) + [node];
        } else {
          MoveBase(node, i);
        }
      } else {
        assert i == |s| - 1 && s == Without(s, i) + [node];
      }
    }

    /** The traversal loop, which stops behind the tail it noted at the start; visited is the order of the calls. */
    method Traversal() returns (visited: seq<DoubleLinkNode>, count: nat)
      requires Valid()
      ensures visited == nodes && count == |nodes|
    {
      visited, count := [], 0;
      if mHead == null {
        return;
      }
      Neighbours(0);
      var node, tail := mHead, mHead.prev;
      ghost var i := 0;
      while true
        invariant i < |nodes| && node == nodes[i] && visited == nodes[..i] && count == i
        decreases |nodes| - i
      {
        visited, count := visited + [node], count + 1;
        if node == tail {
          assert i == |nodes| - 1;
          break;
        }
        Neighbours(i);
        node := node.next;
        i := i + 1;
      }
    }

    /** The first node the matcher accepts. */
    method Find(matcher: DoubleLinkNode -> bool) returns (r: DoubleLinkNode?)
      requires Valid()
      ensures r == null ==> forall k :: 0 <= k < |nodes| ==> !matcher(nodes[k])
      ensures r != null ==> exists k :: 0 <= k < |nodes| && r == nodes[k] && matcher(r)
                                        && forall j :: 0 <= j < k ==> !matcher(nodes[j])
    {
      if mHead == null {
        return null;
      }
      Neighbours(0);
      var node, tail := mHead, mHead.prev;
      ghost var i := 0;
      while true
        invariant i < |nodes| && node == nodes[i]
        invariant forall j :: 0 <= j < i ==> !matcher(nodes[j])
        decreases |nodes| - i
      {
        if matcher(node) {
          return node;
        }
        if node == tail {
          assert i == |nodes| - 1;
          return null;
        }
        Neighbours(i);
        node := node.next;
        i := i + 1;
      }
    }
  }

  lemma RotatedNoRepeats<T>(s: seq<T>, k: nat)
    requires NoRepeats(s) && k < |s|
    ensures NoRepeats(Rotated(s, k))
  {
    var r, n := Rotated(s, k), |s|;
    forall i, j | 0 <= i < j < n
      ensures r[i] != r[j]
    {
      var a := if i + k < n then i + k else i + k - n;
      var b := if j + k < n then j + k else j + k - n;
      assert r[i] == s[a] && r[j] == s[b] && a != b;
    }
  }

  lemma WithoutLacks<T>(s: seq<T>, i: nat)
    requires NoRepeats(s) && i < |s|
    ensures s[i] !in Without(s, i)
  {
    forall k | 0 <= k < |s| - 1
      ensures Without(s, i)[k] != s[i]
    {
      WithoutAt(s, i, k);
    }
  }
}
