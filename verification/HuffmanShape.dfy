/** What the merge loop (lib/codec.c) gives the finished tree: which leaves it has, how deep it can be, and what it
    costs to write a text with its paths. */
module HuffmanShape {
  import opened Bytes
  import opened HuffmanTree
  import opened HuffmanOptimal

  // ---- symbols and paths ----

  predicate Has(t: Tree, s: u8) {
    match t
    case Leaf(symbol, _) => symbol == s
    case Node(_, l, r) => Has(l, s) || Has(r, s)
  }

  /** No symbol labels two leaves. */
  ghost predicate Distinct(t: Tree) {
    t.Node? ==> Distinct(t.left) && Distinct(t.right) && forall s: u8 :: !(Has(t.left, s) && Has(t.right, s))
  }

  /** Left is 0 and right is 1, from the root down. */
  function Path(t: Tree, s: u8): Bits
    requires Has(t, s)
  {
    match t
    case Leaf(_, _) => []
    case Node(_, l, r) => if Has(l, s) then [false] + Path(l, s) else [true] + Path(r, s)
  }

  /** The paths to two different leaves part ways: the code is prefix-free. */
  lemma {:induction false} PathsApart(t: Tree, a: u8, b: u8)
    requires Distinct(t) && Has(t, a) && Has(t, b) && a != b
    ensures Apart(Path(t, a), Path(t, b))
  {
    if Has(t.left, a) && Has(t.left, b) {
      PathsApart(t.left, a, b);
      ApartHeads(false, Path(t.left, a), Path(t.left, b));
    } else if !Has(t.left, a) && !Has(t.left, b) {
      PathsApart(t.right, a, b);
      ApartHeads(true, Path(t.right, a), Path(t.right, b));
    } else {
      assert Path(t, a)[0] != Path(t, b)[0];
    }
  }

  lemma ApartHeads(h: bool, x: Bits, y: Bits)
    requires Apart(x, y)
    ensures Apart([h] + x, [h] + y)
  {
    assert ([h] + x)[1..] == x && ([h] + y)[1..] == y;
  }

  function Height(t: Tree): nat {
    if t.Leaf? then 0
    else if Height(t.left) >= Height(t.right) then 1 + Height(t.left) else 1 + Height(t.right)
  }

  lemma {:induction false} PathWithinHeight(t: Tree, s: u8)
    requires Has(t, s)
    ensures |Path(t, s)| <= Height(t)
  {
    if t.Node? {
      if Has(t.left, s) {
        PathWithinHeight(t.left, s);
      } else {
        PathWithinHeight(t.right, s);
      }
    }
  }

  // ---- the leaves of the merged tree ----

  function Fringe(t: Tree): multiset<Tree> {
    if t.Leaf? then multiset{t} else Fringe(t.left) + Fringe(t.right)
  }

  function Forest(s: seq<Tree>): multiset<Tree> {
    if s == [] then multiset{} else Fringe(s[0]) + Forest(s[1..])
  }

  lemma {:induction false} ForestConcat(a: seq<Tree>, b: seq<Tree>)
    ensures Forest(a + b) == Forest(a) + Forest(b)
  {
    if a == [] {
      assert a + b == b;
    } else {
      assert (a + b)[1..] == a[1..] + b;
      ForestConcat(a[1..], b);
    }
  }

  lemma ForestInsert(rest: seq<Tree>, j: Tree)
    ensures Forest(Insert(rest, j)) == Fringe(j) + Forest(rest)
  {
    ForestSplit(rest, Position(rest, j.count), j);
  }

  lemma ForestOne(j: Tree)
    ensures Forest([j]) == Fringe(j)
  {
    assert Forest([j]) == Fringe(j) + Forest([]);
  }

  lemma ForestSplit(rest: seq<Tree>, p: nat, j: Tree)
    requires p <= |rest|
    ensures Forest(rest[..p] + [j] + rest[p..]) == Fringe(j) + Forest(rest)
  {
    ForestOne(j);
    hide Fringe, Forest;
    ForestConcat(rest[..p] + [j], rest[p..]);
    ForestConcat(rest[..p], [j]);
    ForestConcat(rest[..p], rest[p..]);
    assert rest[..p] + rest[p..] == rest;
  }

  lemma {:induction false} MergeKeepsLeaves(live: seq<Tree>)
    requires live != []
    ensures Fringe(Merge(live)) == Forest(live)
    decreases |live|
  {
    if |live| == 1 {
      assert live[1..] == [];
    } else {
      var j := Join(live[0], live[1]);
      MergeKeepsLeaves(Insert(live[2..], j));
      ForestInsert(live[2..], j);
      assert live[1..][1..] == live[2..];
    }
  }

  lemma {:induction false} ForestOfLeaves(live: seq<Tree>)
    requires forall t <- live :: t.Leaf?
    ensures Forest(live) == multiset(live)
  {
    if live != [] {
      assert live[0] in live;
      assert forall t <- live[1..] :: t in live;
      ForestOfLeaves(live[1..]);
      assert live == [live[0]] + live[1..];
    }
  }

  /** At most one leaf per symbol, and that one only once. */
  ghost predicate OnePerSymbol(m: multiset<Tree>) {
    forall a, b :: a in m && b in m && a.Leaf? && b.Leaf? && a.symbol == b.symbol ==> a == b && m[a] == 1
  }

  lemma {:induction false} HasIsFringe(t: Tree, s: u8)
    requires Has(t, s)
    ensures exists n :: Leaf(s, n) in Fringe(t)
  {
    if t.Node? {
      if Has(t.left, s) {
        HasIsFringe(t.left, s);
      } else {
        HasIsFringe(t.right, s);
      }
    } else {
      assert Leaf(s, t.count) in Fringe(t);
    }
  }

  lemma {:induction false} FringeIsHas(t: Tree, s: u8, n: nat)
    requires Leaf(s, n) in Fringe(t)
    ensures Has(t, s)
  {
    if t.Node? {
      if Leaf(s, n) in Fringe(t.left) {
        FringeIsHas(t.left, s, n);
      } else {
        FringeIsHas(t.right, s, n);
      }
    }
  }

  lemma {:induction false} OnePerSymbolIsDistinct(t: Tree)
    requires OnePerSymbol(Fringe(t))
    ensures Distinct(t)
  {
    if t.Node? {
      OnePerSymbolIsDistinct(t.left);
      OnePerSymbolIsDistinct(t.right);
      forall s: u8
        ensures !(Has(t.left, s) && Has(t.right, s))
      {
        if Has(t.left, s) && Has(t.right, s) {
          SharedSymbol(t.left, t.right, s);
          assert false;
        }
      }
    }
  }

  lemma SharedSymbol(l: Tree, r: Tree, s: u8)
    requires Has(l, s) && Has(r, s)
    ensures !OnePerSymbol(Fringe(l) + Fringe(r))
  {
    HasIsFringe(l, s);
    HasIsFringe(r, s);
    var a :| Leaf(s, a) in Fringe(l);
    var b :| Leaf(s, b) in Fringe(r);
    var m := Fringe(l) + Fringe(r);
    assert Leaf(s, a) in m && Leaf(s, b) in m;
    assert a == b ==> m[Leaf(s, a)] >= 2;
  }

  lemma LeafMultiplicity(counts: seq<nat>, k: nat)
    requires |counts| == SYMBOLS && k < SYMBOLS
    ensures multiset(Leaves(counts))[Leaf(k, counts[k])] == 1
  {
    var s := Leaves(counts);
    assert s == s[..k] + [s[k]] + s[k + 1..];
    assert Leaf(k, counts[k]) !in s[..k] && Leaf(k, counts[k]) !in s[k + 1..];
  }

  /** The tree of a frequency table has one leaf for every symbol that occurs, and no other. */
  lemma TreeHasTheSymbols(counts: seq<nat>)
    requires |counts| == SYMBOLS && Live(counts) != []
    ensures var t := TreeOf(counts);
            && Distinct(t)
            && Fringe(t) == multiset(Live(counts))
            && forall s: u8 :: Has(t, s) <==> counts[s] > 0
  {
    hide QuickSort, Live, Leaves, Merge;
    var live, t := Live(counts), TreeOf(counts);
    LiveIsSorted(counts);
    MergeKeepsLeaves(live);
    ForestOfLeaves(live);
    LiveOnePerSymbol(counts);
    OnePerSymbolIsDistinct(t);
    forall s: u8
      ensures Has(t, s) <==> counts[s] > 0
    {
      if Has(t, s) {
        HasIsFringe(t, s);
        var n :| Leaf(s, n) in Fringe(t);
        assert Leaf(s, n) in live;
        LiveLeaf(counts, Leaf(s, n));
      }
      if counts[s] > 0 {
        UsedIsLive(counts, s);
        FringeIsHas(t, s, counts[s]);
      }
    }
  }

  lemma LiveLeaf(counts: seq<nat>, t: Tree)
    requires |counts| == SYMBOLS && t in Live(counts)
    ensures t.Leaf? && t.count == counts[t.symbol] > 0
  {
    hide QuickSort, Live;
    LiveIsSorted(counts);
    assert t in multiset(Live(counts));
    assert t in multiset(Leaves(counts)) && t in Leaves(counts);
  }

  lemma LiveOnePerSymbol(counts: seq<nat>)
    requires |counts| == SYMBOLS
    ensures OnePerSymbol(multiset(Live(counts)))
  {
    hide QuickSort, Live;
    LiveIsSorted(counts);
    var m := multiset(Live(counts));
    forall a: Tree, b: Tree | a in m && b in m && a.Leaf? && b.Leaf? && a.symbol == b.symbol
      ensures a == b && m[a] == 1
    {
      LiveLeaf(counts, a);
      LiveLeaf(counts, b);
      LeafMultiplicity(counts, a.symbol);
    }
  }

  lemma UsedIsLive(counts: seq<nat>, s: u8)
    requires |counts| == SYMBOLS && counts[s] > 0
    ensures Leaf(s, counts[s]) in Live(counts)
  {
    hide QuickSort;
    var leaf := Leaf(s, counts[s]);
    var sorted := QuickSort(Leaves(counts), 0, SYMBOLS - 1);
    QuickSortPermutes(Leaves(counts), 0, SYMBOLS - 1);
    assert Leaves(counts)[s] == leaf;
    assert leaf in multiset(Leaves(counts));
    assert leaf in multiset(sorted) && leaf in sorted;
    var n := FirstNonZero(sorted);
    var i :| 0 <= i < |sorted| && sorted[i] == leaf;
    assert i >= n && sorted[n..][i - n] == leaf;
  }

  // ---- the Fibonacci bound on the depth ----

  function Fib(n: nat): nat { if n < 2 then n else Fib(n - 1) + Fib(n - 2) }

  lemma {:induction false} FibGrows(m: nat, n: nat)
    requires m <= n
    ensures Fib(m) <= Fib(n)
    decreases n
  {
    if m < n {
      FibGrows(m, n - 1);
    }
  }

  /** The heavier child. */
  function KidMax(t: Tree): nat {
    if t.Leaf? then 0 else if t.left.count >= t.right.count then t.left.count else t.right.count
  }

  /** Every node weighs the sum of its children, and a node is at least as heavy as the children of its sibling. */
  ghost predicate Balanced(t: Tree) {
    if t.Leaf? then t.count > 0
    else
      && Balanced(t.left) && Balanced(t.right)
      && t.count == t.left.count + t.right.count
      && KidMax(t.left) <= t.right.count && KidMax(t.right) <= t.left.count
  }

  ghost predicate BalancedForest(s: seq<Tree>) {
    && (forall i :: 0 <= i < |s| ==> Balanced(s[i]))
    && (forall i, j :: 0 <= i < |s| && 0 <= j < |s| ==> KidMax(s[i]) <= s[j].count)
  }

  lemma {:induction false} MergeIsBalanced(live: seq<Tree>)
    requires live != [] && Sorted(live) && BalancedForest(live)
    ensures Balanced(Merge(live))
    decreases |live|
  {
    if |live| >= 2 {
      var j := Join(live[0], live[1]);
      SortedTail(live);
      InsertSorts(live[2..], j);
      MergeStepIsBalanced(live, Position(live[2..], j.count));
      MergeIsBalanced(Insert(live[2..], j));
    }
  }

  lemma MergeStepIsBalanced(live: seq<Tree>, p: nat)
    requires |live| >= 2 && Sorted(live) && BalancedForest(live) && p <= |live| - 2
    ensures BalancedForest(live[2..][..p] + [Join(live[0], live[1])] + live[2..][p..])
  {
    var j := Join(live[0], live[1]);
    var r := live[2..][..p] + [j] + live[2..][p..];
    assert forall i :: 0 <= i < p ==> r[i] == live[i + 2];
    assert forall i :: p < i < |r| ==> r[i] == live[i + 1];
    assert KidMax(j) == live[1].count && Balanced(j);
    forall i, k | 0 <= i < |r| && 0 <= k < |r|
      ensures Balanced(r[i]) && KidMax(r[i]) <= r[k].count
    {
      var a := if i < p then i + 2 else if i == p then 1 else i + 1;
      var b := if k < p then k + 2 else if k == p then 1 else k + 1;
      assert KidMax(live[a]) <= live[b].count && live[1].count <= live[b].count;
      assert KidMax(live[a]) <= live[0].count;
    }
  }

  lemma {:induction false} HeightCosts(t: Tree)
    requires Balanced(t)
    ensures t.count >= Fib(Height(t) + 2)
    ensures t.Node? ==> KidMax(t) >= Fib(Height(t) + 1)
  {
    if t.Node? {
      hide Fib;
      HeightCosts(t.left);
      HeightCosts(t.right);
      var h := Height(t);
      FibStep(h);
      FibStep(0);
      if Height(t.left) == h - 1 {
        HasWeight(t.right);
      } else {
        HasWeight(t.left);
      }
    }
  }

  lemma FibStep(n: nat)
    ensures Fib(n + 2) == Fib(n + 1) + Fib(n)
    ensures Fib(0) == 0 && Fib(1) == 1 && Fib(2) == 1
  {
    assert Fib(2) == Fib(1) + Fib(0);
  }

  lemma HasWeight(t: Tree)
    requires Balanced(t)
    ensures t.count >= 1
  {
    if t.Node? {
      HasWeight(t.left);
    }
  }

  lemma LeavesAreBalanced(live: seq<Tree>)
    requires forall t <- live :: t.Leaf? && t.count > 0
    ensures BalancedForest(live)
  {
    assert forall i :: 0 <= i < |live| ==> live[i] in live;
  }

  /** A tree of depth d needs a text of at least Fib(d + 2) symbols. */
  lemma DepthNeedsFibonacci(counts: seq<nat>)
    requires |counts| == SYMBOLS && Live(counts) != []
    ensures TreeOf(counts).count >= Fib(Height(TreeOf(counts)) + 2)
  {
    hide QuickSort, Live, Merge, Fib, Height;
    LiveIsSorted(counts);
    LeavesAreBalanced(Live(counts));
    MergeIsBalanced(Live(counts));
    HeightCosts(TreeOf(counts));
  }

  /** Of two children the left one is never the heavier. */
  ghost predicate LightLeft(t: Tree) {
    t.Leaf? || (t.left.count <= t.right.count && LightLeft(t.left) && LightLeft(t.right))
  }

  lemma {:induction false} MergeIsLightLeft(live: seq<Tree>)
    requires live != [] && Sorted(live) && forall i :: 0 <= i < |live| ==> LightLeft(live[i])
    ensures LightLeft(Merge(live))
    decreases |live|
  {
    if |live| >= 2 {
      var j, rest := Join(live[0], live[1]), live[2..];
      SortedTail(live);
      InsertSorts(rest, j);
      assert LightLeft(j);
      var next := Insert(rest, j);
      hide LightLeft, Position;
      assert forall i :: 0 <= i < |next| ==> next[i] == j || next[i] in rest;
      MergeIsLightLeft(next);
    }
  }

  /** So a zero bit always goes to the lighter side. */
  lemma LeftIsLighter(counts: seq<nat>)
    requires |counts| == SYMBOLS && Live(counts) != []
    ensures LightLeft(TreeOf(counts))
  {
    hide QuickSort, Live, Merge;
    LiveIsSorted(counts);
    MergeIsLightLeft(Live(counts));
  }

  /** So every code of a text shorter than Fib(67) symbols fits the 64-bit code field. */
  lemma CodesFitU64(counts: seq<nat>, s: u8)
    requires |counts| == SYMBOLS && Live(counts) != [] && TreeOf(counts).count < Fib(67)
    requires Has(TreeOf(counts), s)
    ensures |Path(TreeOf(counts), s)| <= Height(TreeOf(counts)) <= 64
  {
    hide QuickSort, Live, Merge, Fib, Height, Path, Has;
    DepthNeedsFibonacci(counts);
    PathWithinHeight(TreeOf(counts), s);
    var h := Height(TreeOf(counts));
    if h >= 65 {
      FibGrows(67, h + 2);
    }
  }

  // ---- texts ----

  /** How often s occurs in x. */
  function Occurs(x: seq<u8>, s: u8): nat {
    if x == [] then 0 else (if x[0] == s then 1 else 0) + Occurs(x[1..], s)
  }

  function Counts(x: seq<u8>): seq<nat> { seq(SYMBOLS, s requires 0 <= s < SYMBOLS => Occurs(x, s)) }

  /** How many symbols of x are in t. */
  function Within(t: Tree, x: seq<u8>): nat {
    if x == [] then 0 else (if Has(t, x[0]) then 1 else 0) + Within(t, x[1..])
  }

  /** The length of the paths in t of those symbols of x that t has. */
  function PathTotal(t: Tree, x: seq<u8>): nat {
    if x == [] then 0 else (if Has(t, x[0]) then |Path(t, x[0])| else 0) + PathTotal(t, x[1..])
  }

  /** The length under another code of those symbols of x that t has. */
  function CodeTotal(t: Tree, c: u8 -> Bits, x: seq<u8>): nat {
    if x == [] then 0 else (if Has(t, x[0]) then |c(x[0])| else 0) + CodeTotal(t, c, x[1..])
  }

  /** Every leaf counts the occurrences of its symbol in x, every inner node sums its children. */
  ghost predicate CountsTextOf(t: Tree, x: seq<u8>) {
    if t.Leaf? then t.count == Occurs(x, t.symbol)
    else CountsTextOf(t.left, x) && CountsTextOf(t.right, x) && t.count == t.left.count + t.right.count
  }

  /** The weight of all inner nodes. */
  function Cost(t: Tree): nat { if t.Leaf? then 0 else t.count + Cost(t.left) + Cost(t.right) }

  /** The total length of a text of the tree's counts under another code. */
  function Weighted(t: Tree, c: u8 -> Bits): nat {
    if t.Leaf? then t.count * |c(t.symbol)| else Weighted(t.left, c) + Weighted(t.right, c)
  }

  lemma {:induction false} LeafTotals(t: Tree, c: u8 -> Bits, x: seq<u8>)
    requires t.Leaf?
    ensures Within(t, x) == Occurs(x, t.symbol) && PathTotal(t, x) == 0
    ensures CodeTotal(t, c, x) == Occurs(x, t.symbol) * |c(t.symbol)|
  {
    if x != [] {
      LeafTotals(t, c, x[1..]);
    }
  }

  lemma {:induction false} NodeTotals(t: Tree, c: u8 -> Bits, x: seq<u8>)
    requires t.Node? && Distinct(t)
    ensures Within(t, x) == Within(t.left, x) + Within(t.right, x)
    ensures PathTotal(t, x) == Within(t, x) + PathTotal(t.left, x) + PathTotal(t.right, x)
    ensures CodeTotal(t, c, x) == CodeTotal(t.left, c, x) + CodeTotal(t.right, c, x)
  {
    if x != [] {
      NodeTotals(t, c, x[1..]);
    }
  }

  lemma {:induction false} TotalsAreCosts(t: Tree, c: u8 -> Bits, x: seq<u8>)
    requires Distinct(t) && CountsTextOf(t, x)
    ensures Within(t, x) == t.count && PathTotal(t, x) == Cost(t) && CodeTotal(t, c, x) == Weighted(t, c)
  {
    if t.Leaf? {
      LeafTotals(t, c, x);
    } else {
      TotalsAreCosts(t.left, c, x);
      TotalsAreCosts(t.right, c, x);
      NodeTotals(t, c, x);
    }
  }

  // ---- sums over the forest survive merging ----

  function Sum(s: seq<Tree>, f: Tree -> nat): nat { if s == [] then 0 else f(s[0]) + Sum(s[1..], f) }

  lemma {:induction false} SumConcat(a: seq<Tree>, b: seq<Tree>, f: Tree -> nat)
    ensures Sum(a + b, f) == Sum(a, f) + Sum(b, f)
  {
    if a == [] {
      assert a + b == b;
    } else {
      assert (a + b)[1..] == a[1..] + b;
      SumConcat(a[1..], b, f);
    }
  }

  lemma SumInsert(rest: seq<Tree>, j: Tree, f: Tree -> nat)
    ensures Sum(Insert(rest, j), f) == f(j) + Sum(rest, f)
  {
    var p := Position(rest, j.count);
    SumConcat(rest[..p] + [j], rest[p..], f);
    SumConcat(rest[..p], [j], f);
    SumConcat(rest[..p], rest[p..], f);
    assert rest[..p] + rest[p..] == rest;
    assert Sum([j], f) == f(j) + Sum([], f);
  }

  lemma {:induction false} MergeKeepsWeighted(live: seq<Tree>, c: u8 -> Bits)
    requires live != []
    ensures Weighted(Merge(live), c) == Sum(live, t => Weighted(t, c))
    decreases |live|
  {
    var f := t => Weighted(t, c);
    if |live| == 1 {
      assert live[1..] == [];
    } else {
      var j := Join(live[0], live[1]);
      MergeKeepsWeighted(Insert(live[2..], j), c);
      SumInsert(live[2..], j, f);
      assert live[1..][1..] == live[2..];
    }
  }

  lemma {:induction false} MergeCosts(live: seq<Tree>)
    requires live != []
    ensures Cost(Merge(live)) == MergeCost(live) + Sum(live, Cost)
    decreases |live|
  {
    if |live| == 1 {
      assert live[1..] == [];
    } else {
      var j := Join(live[0], live[1]);
      MergeCosts(Insert(live[2..], j));
      SumInsert(live[2..], j, Cost);
      assert live[1..][1..] == live[2..];
    }
  }

  lemma {:induction false} LeavesCostNothing(live: seq<Tree>)
    requires forall i :: 0 <= i < |live| ==> live[i].Leaf?
    ensures Sum(live, Cost) == 0
  {
    if live != [] {
      LeavesCostNothing(live[1..]);
    }
  }

  function CodesOf(live: seq<Tree>, c: u8 -> Bits): seq<Bits>
    requires forall i :: 0 <= i < |live| ==> live[i].Leaf?
  {
    seq(|live|, i requires 0 <= i < |live| => c(live[i].symbol))
  }

  lemma {:induction false} WeightedIsDot(live: seq<Tree>, c: u8 -> Bits)
    requires forall i :: 0 <= i < |live| ==> live[i].Leaf?
    ensures Sum(live, t => Weighted(t, c)) == Dot(live, Lengths(CodesOf(live, c)))
  {
    if live != [] {
      WeightedIsDot(live[1..], c);
      assert Lengths(CodesOf(live, c))[1..] == Lengths(CodesOf(live[1..], c));
    }
  }

  /** A code that tells apart any two different symbols of x without looking ahead. */
  ghost predicate PrefixCodeFor(c: u8 -> Bits, x: seq<u8>) {
    forall i, j :: 0 <= i < |x| && 0 <= j < |x| && x[i] != x[j] ==> Apart(c(x[i]), c(x[j]))
  }

  lemma {:induction false} OccursIsIn(x: seq<u8>, s: u8)
    ensures Occurs(x, s) > 0 <==> s in x
  {
    if x != [] {
      OccursIsIn(x[1..], s);
    }
  }

  lemma {:induction false} MergedCounts(live: seq<Tree>, x: seq<u8>)
    requires live != [] && forall i :: 0 <= i < |live| ==> CountsTextOf(live[i], x)
    ensures CountsTextOf(Merge(live), x)
    decreases |live|
  {
    if |live| >= 2 {
      var j := Join(live[0], live[1]);
      var r, p := Insert(live[2..], j), Position(live[2..], j.count);
      assert forall i :: 0 <= i < |r| ==> r[i] == if i < p then live[i + 2] else if i == p then j else live[i + 1];
      MergedCounts(r, x);
    }
  }

  /** The finished tree of a text: a distinct leaf for exactly the symbols of x, counting the text. */
  lemma TreeOfText(x: seq<u8>)
    requires x != []
    ensures Live(Counts(x)) != []
    ensures var t := TreeOf(Counts(x));
            && Distinct(t) && CountsTextOf(t, x) && t.count == |x|
            && forall s: u8 :: Has(t, s) <==> s in x
  {
    hide QuickSort, Live, Leaves, Merge;
    var counts := Counts(x);
    forall s: u8
      ensures counts[s] == Occurs(x, s) && (counts[s] > 0 <==> s in x)
    {
      OccursIsIn(x, s);
    }
    assert x[0] in x;
    UsedIsLive(counts, x[0]);
    TreeHasTheSymbols(counts);
    LiveCounts(counts, x);
    var t := TreeOf(counts);
    MergedCounts(Live(counts), x);
    TotalsAreCosts(t, s => [], x);
    AllWithin(t, x);
  }

  lemma LiveCounts(counts: seq<nat>, x: seq<u8>)
    requires counts == Counts(x)
    ensures var live := Live(counts); forall i :: 0 <= i < |live| ==> CountsTextOf(live[i], x)
  {
    hide QuickSort, Live;
    var live := Live(counts);
    forall i | 0 <= i < |live|
      ensures CountsTextOf(live[i], x)
    {
      LiveLeaf(counts, live[i]);
    }
  }

  lemma {:induction false} AllWithin(t: Tree, x: seq<u8>)
    requires forall i :: 0 <= i < |x| ==> Has(t, x[i])
    ensures Within(t, x) == |x|
  {
    if x != [] {
      AllWithin(t, x[1..]);
    }
  }

  /** Optimality: whatever prefix-free code is used, the paths of the tree write the text in no more bits. */
  lemma HuffmanIsOptimal(x: seq<u8>, c: u8 -> Bits)
    requires x != [] && PrefixCodeFor(c, x)
    ensures Live(Counts(x)) != []
    ensures PathTotal(TreeOf(Counts(x)), x) <= CodeTotal(TreeOf(Counts(x)), c, x)
  {
    var counts := Counts(x);
    TreeOfText(x);
    var live, t := Live(counts), TreeOf(counts);
    LiveIsSorted(counts);
    assert forall i :: 0 <= i < |live| ==> live[i] in live;
    TotalsAreCosts(t, c, x);
    MergeCosts(live);
    LeavesCostNothing(live);
    MergeKeepsWeighted(live, c);
    WeightedIsDot(live, c);
    LiveCodesApart(x, c);
    NoPrefixCodeIsShorter(live, CodesOf(live, c));
  }

  lemma LiveCodesApart(x: seq<u8>, c: u8 -> Bits)
    requires x != [] && PrefixCodeFor(c, x)
    requires forall i :: 0 <= i < |Live(Counts(x))| ==> Live(Counts(x))[i].Leaf?
    ensures PrefixFree(CodesOf(Live(Counts(x)), c))
  {
    var counts := Counts(x);
    var live := Live(counts);
    TreeOfText(x);
    TreeHasTheSymbols(counts);
    LiveIsSorted(counts);
    forall i, j | 0 <= i < j < |live|
      ensures Apart(c(live[i].symbol), c(live[j].symbol))
    {
      LiveSymbol(x, i);
      LiveSymbol(x, j);
      var a :| 0 <= a < |x| && x[a] == live[i].symbol;
      var b :| 0 <= b < |x| && x[b] == live[j].symbol;
      LiveSymbolsDiffer(counts, i, j);
      assert Apart(c(x[a]), c(x[b]));
    }
  }

  lemma LiveSymbol(x: seq<u8>, i: nat)
    requires x != [] && i < |Live(Counts(x))| && Live(Counts(x))[i].Leaf?
    ensures Live(Counts(x))[i].symbol in x
  {
    var counts := Counts(x);
    var live := Live(counts);
    LiveIsSorted(counts);
    assert live[i] in live && live[i] in multiset(live);
    assert live[i] in multiset(Leaves(counts)) && live[i] in Leaves(counts);
    OccursIsIn(x, live[i].symbol);
  }

  lemma LiveSymbolsDiffer(counts: seq<nat>, i: nat, j: nat)
    requires |counts| == SYMBOLS && i < j < |Live(counts)| && Live(counts)[i].Leaf? && Live(counts)[j].Leaf?
    ensures Live(counts)[i].symbol != Live(counts)[j].symbol
  {
    var live := Live(counts);
    LiveOnePerSymbol(counts);
    assert live[i] in multiset(live) && live[j] in multiset(live);
    if live[i] == live[j] {
      Twice(live, i, j);
      assert false;
    }
  }

  lemma Twice<T>(s: seq<T>, i: nat, j: nat)
    requires i < j < |s| && s[i] == s[j]
    ensures multiset(s)[s[i]] >= 2
  {
    assert s == s[..j] + [s[j]] + s[j + 1..];
    assert s[..j][i] == s[i];
  }
}
