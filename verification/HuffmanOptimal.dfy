/** Repeated merging of the two lightest nodes (lib/codec.c) against every assignment of code lengths that satisfies
    Kraft's inequality, and against every prefix-free code. */
module HuffmanOptimal {
  import opened Bytes
  import opened HuffmanTree
  import opened Arithmetic

  // ---- lengths and Kraft's inequality ----

  /** The share of 2^m code words of length m that one code word of length d uses up. */
  function Share(d: nat, m: nat): nat { if d <= m then Pow2(m - d) else 0 }

  function Kraft(ds: seq<nat>, m: nat): nat {
    if ds == [] then 0 else Share(ds[0], m) + Kraft(ds[1..], m)
  }

  ghost predicate KraftOk(ds: seq<nat>, m: nat) {
    (forall i :: 0 <= i < |ds| ==> ds[i] <= m) && Kraft(ds, m) <= Pow2(m)
  }

  /** The total length of a text in which node i occurs live[i].count times with a code of ds[i] bits. */
  function Dot(live: seq<Tree>, ds: seq<nat>): nat
    requires |live| == |ds|
  {
    if live == [] then 0 else live[0].count * ds[0] + Dot(live[1..], ds[1..])
  }

  lemma {:induction false} KraftConcat(a: seq<nat>, b: seq<nat>, m: nat)
    ensures Kraft(a + b, m) == Kraft(a, m) + Kraft(b, m)
  {
    if a == [] {
      assert a + b == b;
    } else {
      assert (a + b)[1..] == a[1..] + b;
      KraftConcat(a[1..], b, m);
    }
  }

  lemma {:induction false} DotConcat(a: seq<Tree>, b: seq<Tree>, ds: seq<nat>, es: seq<nat>)
    requires |a| == |ds| && |b| == |es|
    ensures Dot(a + b, ds + es) == Dot(a, ds) + Dot(b, es)
  {
    if a == [] {
      assert a + b == b && ds + es == es;
    } else {
      assert (a + b)[1..] == a[1..] + b && (ds + es)[1..] == ds[1..] + es;
      DotConcat(a[1..], b, ds[1..], es);
    }
  }

  lemma KraftUpdate(ds: seq<nat>, k: nat, v: nat, m: nat)
    requires k < |ds|
    ensures Kraft(ds[k := v], m) == Kraft(ds, m) - Share(ds[k], m) + Share(v, m)
  {
    KraftAt(ds, k, m);
    KraftAt(ds[k := v], k, m);
    assert ds[k := v][..k] == ds[..k] && ds[k := v][k + 1..] == ds[k + 1..];
  }

  lemma KraftAt(ds: seq<nat>, k: nat, m: nat)
    requires k < |ds|
    ensures Kraft(ds, m) == Kraft(ds[..k], m) + Share(ds[k], m) + Kraft(ds[k + 1..], m)
  {
    assert ds == ds[..k] + ds[k..] && ds[k..][1..] == ds[k + 1..];
    KraftConcat(ds[..k], ds[k..], m);
  }

  lemma DotAt(live: seq<Tree>, ds: seq<nat>, k: nat)
    requires k < |ds| == |live|
    ensures Dot(live, ds) == Dot(live[..k], ds[..k]) + live[k].count * ds[k] + Dot(live[k + 1..], ds[k + 1..])
  {
    assert ds == ds[..k] + ds[k..] && ds[k..][1..] == ds[k + 1..];
    assert live == live[..k] + live[k..] && live[k..][1..] == live[k + 1..];
    DotConcat(live[..k], live[k..], ds[..k], ds[k..]);
  }

  lemma DotUpdate(live: seq<Tree>, ds: seq<nat>, k: nat, v: nat)
    requires k < |ds| == |live|
    ensures Dot(live, ds[k := v]) == Dot(live, ds) - live[k].count * ds[k] + live[k].count * v
  {
    DotAt(live, ds, k);
    DotAt(live, ds[k := v], k);
    assert ds[k := v][..k] == ds[..k] && ds[k := v][k + 1..] == ds[k + 1..];
  }

  lemma {:induction false} DotMonotone(live: seq<Tree>, ds: seq<nat>, es: seq<nat>)
    requires |live| == |ds| == |es| && forall i :: 0 <= i < |ds| ==> ds[i] <= es[i]
    ensures Dot(live, ds) <= Dot(live, es)
  {
    if live != [] {
      DotMonotone(live[1..], ds[1..], es[1..]);
    }
  }

  lemma {:induction false} KraftDouble(ds: seq<nat>, m: nat)
    requires forall i :: 0 <= i < |ds| ==> ds[i] <= m
    ensures Kraft(ds, m + 1) == 2 * Kraft(ds, m)
  {
    if ds != [] {
      KraftDouble(ds[1..], m);
    }
  }

  lemma {:induction false} KraftAtZero(ds: seq<nat>)
    requires forall i :: 0 <= i < |ds| ==> ds[i] == 0
    ensures Kraft(ds, 0) == |ds|
  {
    if ds != [] {
      KraftAtZero(ds[1..]);
    }
  }

  lemma LoneDeepest(ds: seq<nat>, k: nat, m: nat)
    requires m > 0 && KraftOk(ds, m) && k < |ds| && ds[k] == m && forall j :: 0 <= j < |ds| && j != k ==> ds[j] < m
    ensures KraftOk(ds[k := m - 1], m - 1)
  {
    KraftUpdate(ds, k, m - 1, m);
    assert Share(m, m) == 1 && Share(m - 1, m) == 2 * Pow2(0);
    hide Share;
    KraftDouble(ds[k := m - 1], m - 1);
    hide Kraft;
  }

  lemma NoneDeepest(ds: seq<nat>, m: nat)
    requires m > 0 && KraftOk(ds, m) && forall j :: 0 <= j < |ds| ==> ds[j] < m
    ensures KraftOk(ds, m - 1)
  {
    hide Share;
    KraftDouble(ds, m - 1);
    hide Kraft;
  }

  /** Lengths can be shortened until at least two of them share the greatest value, and Kraft's inequality still
      holds: a longest code word without a sibling can lose its last bit. */
  lemma {:induction false} Tighten(ds: seq<nat>, m: nat) returns (es: seq<nat>, top: nat, i: nat, j: nat)
    requires |ds| >= 2 && KraftOk(ds, m)
    ensures |es| == |ds| && (forall k :: 0 <= k < |ds| ==> es[k] <= ds[k])
    ensures top > 0 && KraftOk(es, top) && i < j < |es| && es[i] == es[j] == top
    decreases m
  {
    if m == 0 {
      KraftAtZero(ds);
      assert false;
    }
    hide Kraft, Share, Pow2;
    if i0 :| 0 <= i0 < |ds| && ds[i0] == m {
      if j0 :| 0 <= j0 < |ds| && j0 != i0 && ds[j0] == m {
        es, top, i, j := ds, m, if i0 < j0 then i0 else j0, if i0 < j0 then j0 else i0;
        return;
      }
      LoneDeepest(ds, i0, m);
      es, top, i, j := Tighten(ds[i0 := m - 1], m - 1);
    } else {
      NoneDeepest(ds, m);
      es, top, i, j := Tighten(ds, m - 1);
    }
  }

  /** Exchanging a deeper length towards a lighter node never costs more. */
  lemma Exchange(live: seq<Tree>, ds: seq<nat>, p: nat, q: nat, m: nat) returns (es: seq<nat>)
    requires |live| == |ds| && p <= q < |ds| && live[p].count <= live[q].count && ds[p] <= ds[q] && KraftOk(ds, m)
    ensures es == ds[p := ds[q]][q := ds[p]] && KraftOk(es, m) && Dot(live, es) <= Dot(live, ds)
  {
    es := ds[p := ds[q]][q := ds[p]];
    if p == q {
      assert es == ds;
    } else {
      KraftUpdate(ds, p, ds[q], m);
      KraftUpdate(ds[p := ds[q]], q, ds[p], m);
      DotUpdate(live, ds, p, ds[q]);
      DotUpdate(live, ds[p := ds[q]], q, ds[p]);
      Rearrange(live[p].count, live[q].count, ds[p], ds[q]);
    }
  }

  lemma Rearrange(a: nat, b: nat, x: nat, y: nat)
    requires a <= b && x <= y
    ensures a * y + b * x <= a * x + b * y
  {
    assert (b - a) * (y - x) >= 0;
  }

  /** The two lightest nodes can be given the greatest length, without extra cost. */
  lemma LightestDeepest(live: seq<Tree>, ds: seq<nat>, m: nat) returns (es: seq<nat>, top: nat)
    requires Sorted(live) && |live| == |ds| >= 2 && KraftOk(ds, m)
    ensures |es| == |ds| && top > 0 && es[0] == es[1] == top && KraftOk(es, top) && Dot(live, es) <= Dot(live, ds)
  {
    var fs, i, j;
    fs, top, i, j := Tighten(ds, m);
    DotMonotone(live, fs, ds);
    var gs := Exchange(live, fs, 0, i, top);
    es := Exchange(live, gs, 1, j, top);
  }

  // ---- the merge loop is optimal ----

  /** What the merge loop adds up: the weights of all the nodes it creates. */
  function MergeCost(live: seq<Tree>): nat
    decreases |live|
  {
    if |live| <= 1 then 0
    else
      var j := Join(live[0], live[1]);
      j.count + MergeCost(Insert(live[2..], j))
  }

  lemma {:induction false} MergeIsOptimal(live: seq<Tree>, ds: seq<nat>, m: nat)
    requires live != [] && Sorted(live) && |live| == |ds| && KraftOk(ds, m)
    ensures MergeCost(live) <= Dot(live, ds)
    decreases |live|
  {
    if |live| >= 2 {
      var es, top := LightestDeepest(live, ds, m);
      var j := Join(live[0], live[1]);
      var rest, ls := live[2..], es[2..];
      SortedTail(live);
      InsertSorts(rest, j);
      var p := Position(rest, j.count);
      var fs := ls[..p] + [top - 1] + ls[p..];
      InsertedLength(es, top, p);
      MergeIsOptimal(Insert(rest, j), fs, top);
      InsertedCost(live, es, top, p);
    }
  }

  lemma InsertedLength(es: seq<nat>, top: nat, p: nat)
    requires |es| >= 2 && top > 0 && es[0] == es[1] == top && KraftOk(es, top) && p <= |es| - 2
    ensures KraftOk(es[2..][..p] + [top - 1] + es[2..][p..], top)
  {
    var ls := es[2..];
    KraftConcat(ls[..p] + [top - 1], ls[p..], top);
    KraftConcat(ls[..p], [top - 1], top);
    KraftConcat(ls[..p], ls[p..], top);
    assert ls[..p] + ls[p..] == ls;
    assert Kraft([top - 1], top) == 2 by {
      assert Kraft([top - 1], top) == Share(top - 1, top) + Kraft([], top);
      assert Pow2(1) == 2 * Pow2(0);
    }
    assert es == [top, top] + ls;
    KraftConcat([top, top], ls, top);
    assert Kraft([top, top], top) == 2 by {
      assert [top, top][1..] == [top];
      assert Kraft([top], top) == Share(top, top) + Kraft([], top);
    }
    assert forall k :: 0 <= k < |ls| ==> ls[k] == es[k + 2];
  }

  lemma InsertedCost(live: seq<Tree>, es: seq<nat>, top: nat, p: nat)
    requires |live| == |es| >= 2 && top > 0 && es[0] == es[1] == top
    requires p == Position(live[2..], live[0].count + live[1].count)
    ensures var j := Join(live[0], live[1]);
            Dot(live, es) ==
            j.count + Dot(Insert(live[2..], j), es[2..][..p] + [top - 1] + es[2..][p..])
  {
    hide Position, Dot;
    var j := Join(live[0], live[1]);
    DotTwo(live, es);
    DotOfInsert(live[2..], es[2..], j, top - 1, p);
    Distribute(live[0].count, live[1].count, top);
    assert Insert(live[2..], j) == live[2..][..p] + [j] + live[2..][p..];
  }

  lemma DotTwo(live: seq<Tree>, es: seq<nat>)
    requires |live| == |es| >= 2
    ensures Dot(live, es) == live[0].count * es[0] + live[1].count * es[1] + Dot(live[2..], es[2..])
  {
    assert live[1..][1..] == live[2..] && es[1..][1..] == es[2..];
  }

  lemma Distribute(a: nat, b: nat, top: nat)
    requires top > 0
    ensures a * top + b * top == (a + b) + (a + b) * (top - 1)
  {
  }

  lemma DotOfInsert(rest: seq<Tree>, ls: seq<nat>, j: Tree, d: nat, p: nat)
    requires |rest| == |ls| && p <= |rest|
    ensures Dot(rest[..p] + [j] + rest[p..], ls[..p] + [d] + ls[p..]) == Dot(rest, ls) + j.count * d
  {
    DotConcat(rest[..p] + [j], rest[p..], ls[..p] + [d], ls[p..]);
    DotConcat(rest[..p], [j], ls[..p], [d]);
    DotConcat(rest[..p], rest[p..], ls[..p], ls[p..]);
    assert Dot([j], [d]) == j.count * d + Dot([], []);
    hide Dot;
    assert rest[..p] + rest[p..] == rest && ls[..p] + ls[p..] == ls;
  }

  // ---- prefix-free codes satisfy Kraft's inequality ----

  type Bits = seq<bool>

  ghost predicate Apart(a: Bits, b: Bits) { !(a <= b) && !(b <= a) }

  ghost predicate PrefixFree(codes: seq<Bits>) {
    forall i, j :: 0 <= i < j < |codes| ==> Apart(codes[i], codes[j])
  }

  function Lengths(codes: seq<Bits>): (ds: seq<nat>)
    ensures |ds| == |codes|
  {
    seq(|codes|, i requires 0 <= i < |codes| => |codes[i]|)
  }

  /** The code words that start with b, without that bit. */
  function Tails(codes: seq<Bits>, b: bool): seq<Bits> {
    if codes == [] then []
    else (if codes[0] != [] && codes[0][0] == b then [codes[0][1..]] else []) + Tails(codes[1..], b)
  }

  lemma {:induction false} TailsMembers(codes: seq<Bits>, b: bool)
    ensures forall c <- Tails(codes, b) :: [b] + c in codes
  {
    if codes != [] {
      TailsMembers(codes[1..], b);
      if codes[0] != [] && codes[0][0] == b {
        assert [b] + codes[0][1..] == codes[0];
      }
    }
  }

  lemma {:induction false} TailsPrefixFree(codes: seq<Bits>, b: bool)
    requires PrefixFree(codes)
    ensures PrefixFree(Tails(codes, b))
  {
    if codes != [] {
      TailsPrefixFree(codes[1..], b);
      TailsMembers(codes[1..], b);
      if codes[0] != [] && codes[0][0] == b {
        var rest := Tails(codes[1..], b);
        forall j | 0 <= j < |rest|
          ensures Apart(codes[0][1..], rest[j])
        {
          assert [b] + rest[j] in codes[1..];
          var k :| 0 <= k < |codes[1..]| && codes[1..][k] == [b] + rest[j];
          assert Apart(codes[0], codes[k + 1]);
          assert codes[0] == [b] + codes[0][1..];
          ApartTails(b, codes[0][1..], rest[j]);
        }
        var all := [codes[0][1..]] + rest;
        forall i, j | 0 <= i < j < |all|
          ensures Apart(all[i], all[j])
        {
          if i > 0 {
            assert Apart(rest[i - 1], rest[j - 1]);
          }
        }
      }
    }
  }

  lemma ApartTails(b: bool, x: Bits, y: Bits)
    requires Apart([b] + x, [b] + y)
    ensures Apart(x, y)
  {
    assert x <= y ==> [b] + x <= [b] + y;
    assert y <= x ==> [b] + y <= [b] + x;
  }

  lemma {:induction false} KraftOfTails(codes: seq<Bits>, m: nat)
    requires forall i :: 0 <= i < |codes| ==> 0 < |codes[i]| <= m + 1
    ensures Kraft(Lengths(codes), m + 1) ==
            Kraft(Lengths(Tails(codes, false)), m) + Kraft(Lengths(Tails(codes, true)), m)
  {
    if codes != [] {
      KraftOfTails(codes[1..], m);
      var b := codes[0][0];
      LengthsCons(codes[0], codes[1..], m + 1);
      assert codes == [codes[0]] + codes[1..];
      LengthsCons(codes[0][1..], Tails(codes[1..], b), m);
      assert Tails(codes, b) == [codes[0][1..]] + Tails(codes[1..], b);
      assert Tails(codes, !b) == Tails(codes[1..], !b);
    }
  }

  lemma LengthsCons(c: Bits, codes: seq<Bits>, m: nat)
    ensures Kraft(Lengths([c] + codes), m) == Share(|c|, m) + Kraft(Lengths(codes), m)
  {
    assert Lengths([c] + codes)[1..] == Lengths(codes);
  }

  lemma TailsShorter(codes: seq<Bits>, b: bool, m: nat)
    requires forall i :: 0 <= i < |codes| ==> |codes[i]| <= m + 1
    ensures var t := Tails(codes, b); forall i :: 0 <= i < |t| ==> |t[i]| <= m
  {
    TailsMembers(codes, b);
    var t := Tails(codes, b);
    forall i | 0 <= i < |t|
      ensures |t[i]| <= m
    {
      assert t[i] in t && [b] + t[i] in codes;
    }
  }

  lemma LoneEmptyCode(codes: seq<Bits>, i: nat)
    requires PrefixFree(codes) && i < |codes| && codes[i] == []
    ensures codes == [[]]
  {
    assert forall j :: 0 <= j < |codes| ==> codes[i] <= codes[j];
    assert i > 0 ==> !Apart(codes[0], codes[i]);
    assert i + 1 < |codes| ==> !Apart(codes[i], codes[i + 1]);
  }

  lemma {:induction false} PrefixFreeIsKraft(codes: seq<Bits>, m: nat)
    requires PrefixFree(codes) && forall i :: 0 <= i < |codes| ==> |codes[i]| <= m
    ensures KraftOk(Lengths(codes), m)
    decreases m
  {
    if i :| 0 <= i < |codes| && codes[i] == [] {
      LoneEmptyCode(codes, i);
      LengthsCons([], [], m);
      var none: seq<Bits> := [];
      assert codes == [[]] + none;
    } else if codes != [] {
      assert codes[0] != [];
      hide Lengths, Tails, PrefixFree;
      KraftOfTails(codes, m - 1);
      TailsPrefixFree(codes, false);
      TailsPrefixFree(codes, true);
      TailsShorter(codes, false, m - 1);
      TailsShorter(codes, true, m - 1);
      PrefixFreeIsKraft(Tails(codes, false), m - 1);
      PrefixFreeIsKraft(Tails(codes, true), m - 1);
      assert Kraft(Lengths(codes), m) <= Pow2(m);
    }
    assert forall i :: 0 <= i < |codes| ==> Lengths(codes)[i] == |codes[i]|;
  }

  function Longest(codes: seq<Bits>): (m: nat)
    ensures forall i :: 0 <= i < |codes| ==> |codes[i]| <= m
  {
    if codes == [] then 0
    else
      var m := Longest(codes[1..]);
      if |codes[0]| > m then |codes[0]| else m
  }

  /** No prefix-free code gives the same text fewer bits than the merge loop does. */
  lemma NoPrefixCodeIsShorter(live: seq<Tree>, codes: seq<Bits>)
    requires live != [] && Sorted(live) && |codes| == |live| && PrefixFree(codes)
    ensures MergeCost(live) <= Dot(live, Lengths(codes))
  {
    PrefixFreeIsKraft(codes, Longest(codes));
    MergeIsOptimal(live, Lengths(codes), Longest(codes));
  }
}
