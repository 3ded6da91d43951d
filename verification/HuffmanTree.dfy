/** Building a Huffman tree in place (lib/codec.c): a quicksort with a moving hole over the leaves, then repeated
    merging of the two front nodes with insertion by shifting. The tree nodes are never changed once linked, so they
    are values; the array of node pointers is the array a. */
module HuffmanTree {
  import opened Bytes

  const SYMBOLS := 256
  const TREE_SIZE := 512

  datatype Tree = Leaf(symbol: u8, count: nat) | Node(count: nat, left: Tree, right: Tree)

  function Join(l: Tree, r: Tree): Tree { Node(l.count + r.count, l, r) }

  ghost predicate SortedRange(s: seq<Tree>, lo: int, hi: int) {
    forall i, j :: 0 <= lo <= i < j < hi <= |s| ==> s[i].count <= s[j].count
  }

  ghost predicate Sorted(s: seq<Tree>) { SortedRange(s, 0, |s|) }

  // ---- the quicksort ----

  /** One partition pass: the hole is at lo while scanning from the right, at hi while scanning from the left. */
  function Partition(s: seq<Tree>, lo: nat, hi: nat, pivot: Tree, fromRight: bool): (r: (seq<Tree>, nat))
    requires lo <= hi < |s|
    ensures |r.0| == |s| && lo <= r.1 <= hi
    decreases hi - lo, fromRight
  {
    if lo == hi then (s[lo := pivot], lo)
    else if fromRight then
      if s[hi].count > pivot.count then Partition(s, lo, hi - 1, pivot, true)
      else Partition(s[lo := s[hi]], lo + 1, hi, pivot, false)
    else
      if s[lo].count < pivot.count then Partition(s, lo + 1, hi, pivot, false)
      else Partition(s[hi := s[lo]], lo, hi - 1, pivot, true)
  }

  function QuickSort(s: seq<Tree>, start: nat, end: nat): (r: seq<Tree>)
    requires start <= end < |s|
    ensures |r| == |s|
    decreases end - start
  {
    var (t, h) := Partition(s, start, end, s[start], true);
    var u := if h - start > 1 then QuickSort(t, start, h - 1) else t;
    if end - h > 1 then QuickSort(u, h + 1, end) else u
  }

  ghost predicate Perm(s: seq<Tree>, t: seq<Tree>) { multiset(s) == multiset(t) }

  lemma MoveHole(s: seq<Tree>, i: nat, j: nat, pivot: Tree, t: seq<Tree>)
    requires i < |s| && j < |s| && i != j && Perm(t, s[i := s[j]][j := pivot])
    ensures Perm(t, s[i := pivot])
  {
  }

  lemma PartitionStep(s: seq<Tree>, lo: nat, hi: nat, pivot: Tree, fromRight: bool)
    requires lo <= hi < |s|
    ensures Partition(s, lo, hi, pivot, fromRight) ==
            if lo == hi then (s[lo := pivot], lo)
            else if fromRight then
              if s[hi].count > pivot.count then Partition(s, lo, hi - 1, pivot, true)
              else Partition(s[lo := s[hi]], lo + 1, hi, pivot, false)
            else
              if s[lo].count < pivot.count then Partition(s, lo + 1, hi, pivot, false)
              else Partition(s[hi := s[lo]], lo, hi - 1, pivot, true)
  {
  }

  /** The partition pass only moves the hole: with the pivot put back, the elements are the same. */
  lemma {:induction false} PartitionPermutes(s: seq<Tree>, lo: nat, hi: nat, pivot: Tree, fromRight: bool)
    requires lo <= hi < |s|
    ensures Perm(Partition(s, lo, hi, pivot, fromRight).0, s[if fromRight then lo else hi := pivot])
    decreases hi - lo, fromRight, 1
  {
    hide Perm, Partition;
    if fromRight { FromRightPermutes(s, lo, hi, pivot); } else { FromLeftPermutes(s, lo, hi, pivot); }
  }

  lemma {:induction false} FromRightPermutes(s: seq<Tree>, lo: nat, hi: nat, pivot: Tree)
    requires lo <= hi < |s|
    ensures Perm(Partition(s, lo, hi, pivot, true).0, s[lo := pivot])
    decreases hi - lo, true, 0
  {
    hide Perm, Partition;
    PartitionStep(s, lo, hi, pivot, true);
    if lo == hi {
      PermRefl(s[lo := pivot]);
    } else if s[hi].count > pivot.count {
      FromRightPermutes(s, lo, hi - 1, pivot);
    } else {
      var u := s[lo := s[hi]];
      FromLeftPermutes(u, lo + 1, hi, pivot);
      MoveHole(s, lo, hi, pivot, Partition(u, lo + 1, hi, pivot, false).0);
    }
  }

  lemma {:induction false} FromLeftPermutes(s: seq<Tree>, lo: nat, hi: nat, pivot: Tree)
    requires lo <= hi < |s|
    ensures Perm(Partition(s, lo, hi, pivot, false).0, s[hi := pivot])
    decreases hi - lo, false, 0
  {
    hide Perm, Partition;
    PartitionStep(s, lo, hi, pivot, false);
    if lo == hi {
      PermRefl(s[lo := pivot]);
    } else if s[lo].count < pivot.count {
      FromLeftPermutes(s, lo + 1, hi, pivot);
    } else {
      var u := s[hi := s[lo]];
      FromRightPermutes(u, lo, hi - 1, pivot);
      MoveHole(s, hi, lo, pivot, Partition(u, lo, hi - 1, pivot, true).0);
    }
  }

  lemma PermRefl(s: seq<Tree>)
    ensures Perm(s, s)
  {
  }

  lemma PermTrans(s: seq<Tree>, t: seq<Tree>, u: seq<Tree>)
    requires Perm(s, t) && Perm(t, u)
    ensures Perm(s, u)
  {
  }

  /** The partition pass touches only its range and splits it at the pivot. */
  lemma {:induction false} PartitionSplits(s: seq<Tree>, lo: nat, hi: nat, pivot: Tree, fromRight: bool)
    requires lo <= hi < |s|
    ensures var (t, h) := Partition(s, lo, hi, pivot, fromRight);
            && t[h] == pivot
            && (forall k :: 0 <= k < |s| && !(lo <= k <= hi) ==> t[k] == s[k])
            && (forall k :: lo <= k < h ==> t[k].count <= pivot.count)
            && (forall k :: h < k <= hi ==> t[k].count >= pivot.count)
    decreases hi - lo, fromRight
  {
    if lo < hi {
      if fromRight {
        if s[hi].count > pivot.count {
          PartitionSplits(s, lo, hi - 1, pivot, true);
        } else {
          PartitionSplits(s[lo := s[hi]], lo + 1, hi, pivot, false);
        }
      } else {
        if s[lo].count < pivot.count {
          PartitionSplits(s, lo + 1, hi, pivot, false);
        } else {
          PartitionSplits(s[hi := s[lo]], lo, hi - 1, pivot, true);
        }
      }
    }
  }

  lemma QuickSortStep(s: seq<Tree>, start: nat, end: nat)
    requires start <= end < |s|
    ensures var (t, h) := Partition(s, start, end, s[start], true);
            var u := if h - start > 1 then QuickSort(t, start, h - 1) else t;
            QuickSort(s, start, end) == if end - h > 1 then QuickSort(u, h + 1, end) else u
  {
  }

  lemma {:induction false} QuickSortPermutes(s: seq<Tree>, start: nat, end: nat)
    requires start <= end < |s|
    ensures var r := QuickSort(s, start, end);
            && Perm(r, s)
            && (forall k :: 0 <= k < |s| && !(start <= k <= end) ==> r[k] == s[k])
    decreases end - start
  {
    hide Perm, Partition;
    QuickSortStep(s, start, end);
    hide QuickSort;
    var (t, h) := Partition(s, start, end, s[start], true);
    PartitionPermutes(s, start, end, s[start], true);
    PartitionSplits(s, start, end, s[start], true);
    assert s[start := s[start]] == s;
    var u := if h - start > 1 then QuickSort(t, start, h - 1) else t;
    if h - start > 1 {
      QuickSortPermutes(t, start, h - 1);
      PermTrans(u, t, s);
    }
    if end - h > 1 {
      QuickSortPermutes(u, h + 1, end);
      PermTrans(QuickSort(s, start, end), u, s);
    }
  }

  lemma {:induction false} QuickSortSorts(s: seq<Tree>, start: nat, end: nat)
    requires start <= end < |s|
    ensures SortedRange(QuickSort(s, start, end), start, end + 1)
    decreases end - start
  {
    hide Perm, SortedRange, Partition;
    var (t, h) := Partition(s, start, end, s[start], true);
    PartitionSplits(s, start, end, s[start], true);
    var u := if h - start > 1 then QuickSort(t, start, h - 1) else t;
    if h - start > 1 {
      QuickSortSorts(t, start, h - 1);
    }
    LeftPart(t, start, h);
    var r := if end - h > 1 then QuickSort(u, h + 1, end) else u;
    if end - h > 1 {
      QuickSortSorts(u, h + 1, end);
    }
    assert forall k :: h <= k <= end ==> u[k] == t[k];
    RightPart(u, h, end);
    JoinSorted(u, r, start, h, end + 1);
  }

  lemma LeftPart(t: seq<Tree>, start: nat, h: nat)
    requires start <= h < |t|
    requires forall k :: start <= k < h ==> t[k].count <= t[h].count
    requires h - start > 1 ==> SortedRange(QuickSort(t, start, h - 1), start, h)
    ensures var u := if h - start > 1 then QuickSort(t, start, h - 1) else t;
            && SortedRange(u, start, h)
            && (forall k :: start <= k < h ==> u[k].count <= t[h].count)
            && (forall k :: 0 <= k < |t| && !(start <= k < h) ==> u[k] == t[k])
  {
    hide Perm, SortedRange, QuickSort;
    if h - start > 1 {
      QuickSortPermutes(t, start, h - 1);
      RangeBounds(t, QuickSort(t, start, h - 1), start, h, 0, t[h].count);
    } else {
      ShortIsSorted(t, start, h);
    }
  }

  lemma RightPart(u: seq<Tree>, h: nat, end: nat)
    requires h <= end < |u|
    requires forall k :: h < k <= end ==> u[k].count >= u[h].count
    requires end - h > 1 ==> SortedRange(QuickSort(u, h + 1, end), h + 1, end + 1)
    ensures var r := if end - h > 1 then QuickSort(u, h + 1, end) else u;
            && SortedRange(r, h + 1, end + 1)
            && (forall k :: h < k <= end ==> r[k].count >= u[h].count)
            && (forall k :: 0 <= k < |u| && !(h < k <= end) ==> r[k] == u[k])
  {
    hide Perm, SortedRange, QuickSort;
    if end - h > 1 {
      QuickSortPermutes(u, h + 1, end);
      RangeBounds(u, QuickSort(u, h + 1, end), h + 1, end + 1, u[h].count, MaxCount(u));
    } else {
      ShortIsSorted(u, h + 1, end + 1);
    }
  }

  function MaxCount(s: seq<Tree>): (m: nat)
    ensures forall t <- s :: t.count <= m
  {
    if s == [] then 0
    else
      var m := MaxCount(s[1..]);
      if s[0].count > m then s[0].count else m
  }

  lemma ShortIsSorted(s: seq<Tree>, lo: nat, hi: nat)
    requires hi <= lo + 1
    ensures SortedRange(s, lo, hi)
  {
  }

  lemma JoinSorted(u: seq<Tree>, r: seq<Tree>, lo: nat, h: nat, hi: nat)
    requires lo <= h < hi <= |r| == |u|
    requires forall k :: lo <= k <= h ==> r[k] == u[k]
    requires SortedRange(u, lo, h) && SortedRange(r, h + 1, hi)
    requires forall k :: lo <= k < h ==> u[k].count <= u[h].count
    requires forall k :: h < k < hi ==> r[k].count >= u[h].count
    ensures SortedRange(r, lo, hi)
  {
  }

  /** Same elements overall and the same ones outside a range: bounds on the range survive. */
  lemma RangeBounds(s: seq<Tree>, t: seq<Tree>, lo: nat, hi: nat, least: nat, most: nat)
    requires lo <= hi <= |s| == |t| && Perm(t, s)
    requires forall k :: 0 <= k < |s| && !(lo <= k < hi) ==> t[k] == s[k]
    requires forall k :: lo <= k < hi ==> least <= s[k].count <= most
    ensures forall k :: lo <= k < hi ==> least <= t[k].count <= most
  {
    SameRange(s, t, lo, hi);
    forall k | lo <= k < hi
      ensures least <= t[k].count <= most
    {
      assert t[k] == t[lo..hi][k - lo];
      assert t[k] in multiset(t[lo..hi]);
      assert t[k] in s[lo..hi];
    }
  }

  lemma SameRange(s: seq<Tree>, t: seq<Tree>, lo: nat, hi: nat)
    requires lo <= hi <= |s| == |t| && Perm(t, s)
    requires forall k :: 0 <= k < |s| && !(lo <= k < hi) ==> t[k] == s[k]
    ensures multiset(s[lo..hi]) == multiset(t[lo..hi])
  {
    assert s[..lo] == t[..lo] && s[hi..] == t[hi..];
    SplitMultiset(s, lo, hi);
    SplitMultiset(t, lo, hi);
    Cancel(multiset(s[..lo]), multiset(s[lo..hi]), multiset(t[lo..hi]), multiset(s[hi..]));
  }

  lemma Cancel(p: multiset<Tree>, a: multiset<Tree>, b: multiset<Tree>, q: multiset<Tree>)
    requires p + a + q == p + b + q
    ensures a == b
  {
    forall x
      ensures a[x] == b[x]
    {
      assert (p + a + q)[x] == p[x] + a[x] + q[x];
      assert (p + b + q)[x] == p[x] + b[x] + q[x];
    }
  }

  lemma SplitMultiset(s: seq<Tree>, lo: nat, hi: nat)
    requires lo <= hi <= |s|
    ensures multiset(s) == multiset(s[..lo]) + multiset(s[lo..hi]) + multiset(s[hi..])
  {
    var p, q, r := s[..lo], s[lo..hi], s[hi..];
    assert s == (p + q) + r;
    assert multiset((p + q) + r) == multiset(p + q) + multiset(r);
  }

  method TreeSort(a: array<Tree>, start: nat, end: nat)
    requires start <= end < a.Length
    modifies a
    ensures a[..] == QuickSort(old(a[..]), start, end)
    decreases end - start
  {
    var h := PartitionPass(a, start, end);
    if h - start > 1 {
      TreeSort(a, start, h - 1);
    }
    if end - h > 1 {
      TreeSort(a, h + 1, end);
    }
  }

  /** The loop of the sort, which leaves start == end == h. */
  method PartitionPass(a: array<Tree>, start: nat, end: nat) returns (h: nat)
    requires start <= end < a.Length
    modifies a
    ensures (a[..], h) == Partition(old(a[..]), start, end, old(a[start]), true)
  {
    var lo, hi := start, end;
    var middle := a[start];
    ghost var whole := Partition(a[..], start, end, middle, true);
    while true
      invariant start <= lo <= hi <= end
      invariant Partition(a[..], lo, hi, middle, true) == whole
      decreases hi - lo
    {
      ghost var width := hi - lo;
      hi := ScanRight(a, lo, hi, middle);
      if lo < hi {
        Move(a, lo, hi);
        lo := lo + 1;
      } else {
        break;
      }
      lo := ScanLeft(a, lo, hi, middle);
      if lo < hi {
        Move(a, hi, lo);
        hi := hi - 1;
      } else {
        break;
      }
    }
    ghost var was := a[..];
    a[lo] := middle;
    assert a[..] == was[lo := middle];
    h := lo;
  }

  method Move(a: array<Tree>, i: nat, j: nat)
    requires i < a.Length && j < a.Length
    modifies a
    ensures a[..] == old(a[..])[i := old(a[j])]
  {
    a[i] := a[j];
  }

  method ScanRight(a: array<Tree>, lo: nat, end: nat, middle: Tree) returns (hi: nat)
    requires lo <= end < a.Length
    ensures lo <= hi <= end && (hi > lo ==> a[hi].count <= middle.count)
    ensures Partition(a[..], lo, hi, middle, true) == Partition(a[..], lo, end, middle, true)
  {
    hi := end;
    while a[hi].count > middle.count && lo < hi
      invariant lo <= hi <= end
      decreases hi - lo
      invariant Partition(a[..], lo, hi, middle, true) == Partition(a[..], lo, end, middle, true)
    {
      hi := hi - 1;
    }
  }

  method ScanLeft(a: array<Tree>, start: nat, hi: nat, middle: Tree) returns (lo: nat)
    requires start <= hi < a.Length
    ensures start <= lo <= hi && (lo < hi ==> a[lo].count >= middle.count)
    ensures Partition(a[..], lo, hi, middle, false) == Partition(a[..], start, hi, middle, false)
  {
    lo := start;
    while a[lo].count < middle.count && lo < hi
      invariant start <= lo <= hi
      decreases hi - lo
      invariant Partition(a[..], lo, hi, middle, false) == Partition(a[..], start, hi, middle, false)
    {
      lo := lo + 1;
    }
  }

  // ---- merging ----

  /** Where a weight goes when scanning from the right: behind every node that does not weigh more. */
  function Position(s: seq<Tree>, w: nat): (p: nat)
    ensures p <= |s|
    ensures p > 0 ==> s[p - 1].count <= w
    ensures forall k :: p <= k < |s| ==> s[k].count > w
  {
    if s == [] || s[|s| - 1].count <= w then |s| else Position(s[..|s| - 1], w)
  }

  function Insert(s: seq<Tree>, t: Tree): seq<Tree> {
    var p := Position(s, t.count);
    s[..p] + [t] + s[p..]
  }

  function Merge(live: seq<Tree>): Tree
    requires live != []
    decreases |live|
  {
    if |live| == 1 then live[0] else Merge(Insert(live[2..], Join(live[0], live[1])))
  }

  function Leaves(counts: seq<nat>): seq<Tree>
    requires |counts| == SYMBOLS
  {
    seq(SYMBOLS, i requires 0 <= i < SYMBOLS => Leaf(i, counts[i]))
  }

  function FirstNonZero(s: seq<Tree>): (n: nat)
    ensures n <= |s|
    ensures forall i :: 0 <= i < n ==> s[i].count == 0
    ensures n < |s| ==> s[n].count > 0
  {
    if s == [] || s[0].count > 0 then 0 else 1 + FirstNonZero(s[1..])
  }

  /** The symbols that occur, lightest first, as the quicksort leaves them. */
  function Live(counts: seq<nat>): seq<Tree>
    requires |counts| == SYMBOLS
  {
    var sorted := QuickSort(Leaves(counts), 0, SYMBOLS - 1);
    sorted[FirstNonZero(sorted)..]
  }

  function TreeOf(counts: seq<nat>): Tree
    requires |counts| == SYMBOLS && Live(counts) != []
  {
    Merge(Live(counts))
  }

  lemma LiveIsSorted(counts: seq<nat>)
    requires |counts| == SYMBOLS
    ensures Sorted(Live(counts))
    ensures multiset(Live(counts)) <= multiset(Leaves(counts))
    ensures forall t <- Live(counts) :: t.Leaf? && t.count > 0
  {
    hide QuickSort;
    var sorted := QuickSort(Leaves(counts), 0, SYMBOLS - 1);
    QuickSortSorts(Leaves(counts), 0, SYMBOLS - 1);
    QuickSortPermutes(Leaves(counts), 0, SYMBOLS - 1);
    TailOfSorted(sorted, FirstNonZero(sorted));
    var n := FirstNonZero(sorted);
    forall t | t in sorted[n..]
      ensures t.Leaf? && t.count > 0
    {
      assert t in multiset(sorted[n..]);
      assert t in multiset(Leaves(counts));
      assert t in Leaves(counts);
      var i :| 0 <= i < |sorted[n..]| && sorted[n..][i] == t;
      assert sorted[n..][0] == sorted[n];
    }
  }

  lemma TailOfSorted(s: seq<Tree>, n: nat)
    requires Sorted(s) && n <= |s|
    ensures Sorted(s[n..]) && multiset(s[n..]) <= multiset(s)
  {
    assert s == s[..n] + s[n..];
    assert forall i :: 0 <= i < |s[n..]| ==> s[n..][i] == s[n + i];
  }

  lemma InsertSorts(s: seq<Tree>, t: Tree)
    requires Sorted(s)
    ensures Sorted(Insert(s, t)) && |Insert(s, t)| == |s| + 1
  {
    hide Position;
    var p := Position(s, t.count);
    forall k | 0 <= k < p
      ensures s[k].count <= t.count
    {
      assert k < p - 1 ==> s[k].count <= s[p - 1].count;
    }
    var r := Insert(s, t);
    forall j, k | 0 <= j < k < |r|
      ensures r[j].count <= r[k].count
    {
      assert r[j] == if j < p then s[j] else if j == p then t else s[j - 1];
      assert r[k] == if k < p then s[k] else if k == p then t else s[k - 1];
    }
  }

  /** The insertion loop shifts within (index, root] only: the right child at index is never heavier. */
  method InsertNode(a: array<Tree>, index: nat, root: nat, t: Tree)
    requires 0 < index < root < a.Length && a[index].count <= t.count
    modifies a
    ensures a[index + 1..root + 1] == Insert(old(a[index + 1..root]), t)
    ensures forall k :: 0 <= k < a.Length && !(index < k <= root) ==> a[k] == old(a[..])[k]
  {
    hide Shifted;
    ghost var w := a[..];
    var i := root - 1;
    ShiftedNone(w, root);
    while a[i].count > t.count
      invariant index <= i < root
      invariant a[..] == Shifted(w, i, root)
      invariant forall k :: i < k < root ==> w[k].count > t.count
      decreases i
    {
      ShiftOne(w, i, root);
      assert a[i] == a[..][i];
      a[i + 1] := a[i];
      assert a[..] == Shifted(w, i, root)[i + 1 := w[i]];
      i := i - 1;
    }
    ShiftOne(w, i, root);
    assert a[i] == a[..][i];
    a[i + 1] := t;
    assert a[..] == Shifted(w, i, root)[i + 1 := t];
    ShiftedIsInserted(w, index, i, root, t);
    assert a[index + 1..root + 1] == a[..][index + 1..root + 1];
    assert w[index + 1..root] == old(a[index + 1..root]);
  }

  /** w after the insertion loop has come down to i: the elements in (i, root) stand one place further right. */
  function Shifted(w: seq<Tree>, i: nat, root: nat): seq<Tree>
    requires i < root < |w|
  {
    seq(|w|, k requires 0 <= k < |w| => if i + 1 < k <= root then w[k - 1] else w[k])
  }

  lemma ShiftedNone(w: seq<Tree>, root: nat)
    requires 0 < root < |w|
    ensures Shifted(w, root - 1, root) == w
  {
  }

  lemma ShiftOne(w: seq<Tree>, i: nat, root: nat)
    requires i < root < |w|
    ensures |Shifted(w, i, root)| == |w| && Shifted(w, i, root)[i] == w[i]
    ensures i > 0 ==> Shifted(w, i, root)[i + 1 := w[i]] == Shifted(w, i - 1, root)
  {
  }

  lemma ShiftedIsInserted(w: seq<Tree>, index: nat, i: nat, root: nat, t: Tree)
    requires index <= i < root < |w| && |Shifted(w, i, root)| == |w|
    requires forall k :: i < k < root ==> w[k].count > t.count
    requires w[i].count <= t.count
    ensures var v := Shifted(w, i, root)[i + 1 := t];
            && v[index + 1..root + 1] == Insert(w[index + 1..root], t)
            && forall k :: 0 <= k < |w| && !(index < k <= root) ==> v[k] == w[k]
  {
    InsertAt(w, index, i, root, t);
    hide Insert, Position;
    ShiftedSlice(w, index, i, root, t);
  }

  lemma InsertAt(w: seq<Tree>, index: nat, i: nat, root: nat, t: Tree)
    requires index <= i < root < |w|
    requires forall k :: i < k < root ==> w[k].count > t.count
    requires w[i].count <= t.count
    ensures Insert(w[index + 1..root], t) == w[index + 1..i + 1] + [t] + w[i + 1..root]
  {
    var s, p := w[index + 1..root], i - index;
    assert p > 0 ==> s[p - 1] == w[i];
    assert forall k :: p <= k < |s| ==> s[k] == w[index + 1 + k];
    hide Position;
    assert s[..p] == w[index + 1..i + 1] && s[p..] == w[i + 1..root];
  }

  lemma ShiftedSlice(w: seq<Tree>, index: nat, i: nat, root: nat, t: Tree)
    requires index <= i < root < |w|
    ensures var v := Shifted(w, i, root)[i + 1 := t];
            && v[index + 1..root + 1] == w[index + 1..i + 1] + [t] + w[i + 1..root]
            && forall k :: 0 <= k < |w| && !(index < k <= root) ==> v[k] == w[k]
  {
    var v := Shifted(w, i, root)[i + 1 := t];
    var l, r := v[index + 1..root + 1], w[index + 1..i + 1] + [t] + w[i + 1..root];
    forall k | 0 <= k < |l|
      ensures l[k] == r[k]
    {
      assert l[k] == v[index + 1 + k];
    }
  }

  method BuildTree(counts: seq<nat>) returns (rootNode: Tree)
    requires |counts| == SYMBOLS && Live(counts) != []
    ensures rootNode == TreeOf(counts)
  {
    hide QuickSort;
    var a := new Tree[TREE_SIZE](_ => Leaf(0, 0));
    for i := 0 to SYMBOLS
      invariant forall k :: 0 <= k < i ==> a[k] == Leaf(k, counts[k])
    {
      a[i] := Leaf(i, counts[i]);
    }
    SortLeaves(a, Leaves(counts));
    var index := SkipUnused(a, counts);
    LiveIsSorted(counts);
    rootNode := MergeAll(a, index, Live(counts));
  }

  method SkipUnused(a: array<Tree>, ghost counts: seq<nat>) returns (index: nat)
    requires a.Length == TREE_SIZE && |counts| == SYMBOLS
    requires a[..SYMBOLS] == QuickSort(Leaves(counts), 0, SYMBOLS - 1)
    ensures index <= SYMBOLS && a[index..SYMBOLS] == Live(counts)
  {
    hide QuickSort;
    ghost var sorted := a[..SYMBOLS];
    index := 0;
    while index < SYMBOLS && a[index].count == 0
      invariant 0 <= index <= FirstNonZero(sorted)
    {
      assert a[index] == sorted[index];
      index := index + 1;
    }
    assert index < SYMBOLS ==> a[index] == sorted[index];
    assert index == FirstNonZero(sorted);
    assert sorted[index..] == a[index..SYMBOLS];
  }

  /** The merge loop: the live nodes are the slice from index - 1 to root, lightest first. */
  method MergeAll(a: array<Tree>, first: nat, ghost live: seq<Tree>) returns (rootNode: Tree)
    requires a.Length == TREE_SIZE && first < SYMBOLS && live == a[first..SYMBOLS] && Sorted(live)
    modifies a
    ensures rootNode == Merge(live)
  {
    hide Insert, Sorted;
    rootNode := a[first];
    var root := SYMBOLS;
    var index := first + 1;
    ghost var now := live;
    while index < root
      invariant index - first - 1 == 2 * (root - SYMBOLS) && root <= SYMBOLS + (SYMBOLS - 1 - first)
      invariant 0 < index <= root < TREE_SIZE
      invariant now == a[index - 1..root] && Sorted(now) && Merge(now) == Merge(live)
      invariant index == root ==> rootNode == now[0]
    {
      var left := a[index - 1];
      var right := a[index];
      assert left == now[0] && right == now[1];
      rootNode := Join(left, right);
      assert a[index + 1..root] == now[2..];
      MergeStep(now);
      InsertNode(a, index, root, rootNode);
      now := Insert(now[2..], rootNode);
      index := index + 2;
      root := root + 1;
    }
  }

  lemma MergeStep(now: seq<Tree>)
    requires Sorted(now) && |now| >= 2
    ensures var next := Insert(now[2..], Join(now[0], now[1]));
            Sorted(next) && |next| == |now| - 1 && Merge(next) == Merge(now)
            && (|now| == 2 ==> next == [Join(now[0], now[1])])
    ensures now[1].count <= Join(now[0], now[1]).count
  {
    SortedTail(now);
    InsertSorts(now[2..], Join(now[0], now[1]));
  }

  lemma SortedTail(s: seq<Tree>)
    requires Sorted(s) && |s| >= 2
    ensures Sorted(s[2..]) && forall k :: 0 <= k < |s[2..]| ==> s[2..][k] == s[2 + k]
  {
  }

  method SortLeaves(a: array<Tree>, ghost leaves: seq<Tree>)
    requires a.Length == TREE_SIZE && |leaves| == SYMBOLS && a[..SYMBOLS] == leaves
    modifies a
    ensures a[..SYMBOLS] == QuickSort(leaves, 0, SYMBOLS - 1)
  {
    TreeSort(a, 0, SYMBOLS - 1);
    SortIgnoresTail(old(a[..]), leaves, 0, SYMBOLS - 1);
  }

  lemma {:induction false} PartitionIgnoresTail(s: seq<Tree>, p: seq<Tree>, lo: nat, hi: nat, pivot: Tree,
          fromRight: bool)
    requires lo <= hi < |p| <= |s| && s[..|p|] == p
    ensures var (t, h) := Partition(s, lo, hi, pivot, fromRight);
            Partition(p, lo, hi, pivot, fromRight) == (t[..|p|], h)
    decreases hi - lo, fromRight
  {
    assert forall k :: 0 <= k < |p| ==> s[k] == p[k];
    if lo < hi {
      if fromRight {
        if s[hi].count > pivot.count {
          PartitionIgnoresTail(s, p, lo, hi - 1, pivot, true);
        } else {
          PartitionIgnoresTail(s[lo := s[hi]], p[lo := p[hi]], lo + 1, hi, pivot, false);
        }
      } else {
        if s[lo].count < pivot.count {
          PartitionIgnoresTail(s, p, lo + 1, hi, pivot, false);
        } else {
          PartitionIgnoresTail(s[hi := s[lo]], p[hi := p[lo]], lo, hi - 1, pivot, true);
        }
      }
    }
  }

  lemma {:induction false} SortIgnoresTail(s: seq<Tree>, p: seq<Tree>, start: nat, end: nat)
    requires start <= end < |p| <= |s| && s[..|p|] == p
    ensures QuickSort(s, start, end)[..|p|] == QuickSort(p, start, end)
    decreases end - start
  {
    assert s[start] == p[start];
    PartitionIgnoresTail(s, p, start, end, s[start], true);
    var (t, h) := Partition(s, start, end, s[start], true);
    var (tp, _) := Partition(p, start, end, p[start], true);
    if h - start > 1 {
      SortIgnoresTail(t, tp, start, h - 1);
    }
    if end - h > 1 {
      SortIgnoresTail(if h - start > 1 then QuickSort(t, start, h - 1) else t,
                      if h - start > 1 then QuickSort(tp, start, h - 1) else tp, h + 1, end);
    }
  }
}
