/** What the merge sort of the hash table computes: runs of doubling length are merged pairwise
    until one run is left. */
module UthashOrder {
  import opened Words
  import opened UthashChain

  type Compare = (Node, Node) -> int

  function Merge(p: seq<Node>, q: seq<Node>, cmp: Compare): (m: seq<Node>)
    ensures |m| == |p| + |q| && multiset(m) == multiset(p) + multiset(q)
  {
    if p == [] then q
    else if q == [] then p
    else if cmp(p[0], q[0]) <= 0 then
      assert p == [p[0]] + p[1..]; [p[0]] + Merge(p[1..], q, cmp)
    else
      assert q == [q[0]] + q[1..]; [q[0]] + Merge(p, q[1..], cmp)
  }

  /** One pass over runs of length k. */
  function Pass(list: seq<Node>, k: nat, cmp: Compare): (m: seq<Node>)
    requires k > 0
    ensures |m| == |list| && multiset(m) == multiset(list)
    decreases |list|
  {
    var a, b := Min(k, |list|), Min(2 * k, |list|);
    if list == [] then []
    else
      assert list == list[..a] + list[a..b] + list[b..];
      Merge(list[..a], list[a..b], cmp) + Pass(list[b..], k, cmp)
  }

  function SortFrom(list: seq<Node>, k: nat, cmp: Compare): (m: seq<Node>)
    requires k > 0
    ensures |m| == |list| && multiset(m) == multiset(list)
    decreases |list| - k
  {
    if |list| <= 2 * k then Pass(list, k, cmp) else SortFrom(Pass(list, k, cmp), 2 * k, cmp)
  }

  /** What the caller's comparison has to be: any two elements compare, and consistently. */
  ghost predicate IsOrder(cmp: Compare, nodes: set<Node>) {
    && (forall x, y :: x in nodes && y in nodes ==> cmp(x, y) <= 0 || cmp(y, x) <= 0)
    && forall x, y, z :: x in nodes && y in nodes && z in nodes && cmp(x, y) <= 0 && cmp(y, z) <= 0 ==> cmp(x, z) <= 0
  }

  /** The place of an element in a list. */
  ghost function Pos(list: seq<Node>, x: Node): (i: nat)
    ensures x in list ==> i < |list| && list[i] == x
  {
    if list == [] then 0 else if list[0] == x then 0 else 1 + Pos(list[1..], x)
  }

  /** One element belongs before another: it is less, or equal and was before it. */
  ghost predicate Precedes(x: Node, y: Node, orig: seq<Node>, cmp: Compare) {
    cmp(x, y) <= 0 && (cmp(y, x) <= 0 ==> Pos(orig, x) < Pos(orig, y))
  }

  ghost predicate StableSorted(list: seq<Node>, orig: seq<Node>, cmp: Compare) {
    forall i, j :: 0 <= i < j < |list| ==> Precedes(list[i], list[j], orig, cmp)
  }

  ghost predicate Earlier(a: seq<Node>, b: seq<Node>, orig: seq<Node>) {
    forall x, y :: x in a && y in b ==> Pos(orig, x) < Pos(orig, y)
  }

  /** The list is made of sorted runs of length k that were in this order from the start. */
  ghost predicate Runs(list: seq<Node>, k: nat, orig: seq<Node>, cmp: Compare)
    requires k > 0
    decreases |list|
  {
    if |list| <= k then StableSorted(list, orig, cmp)
    else StableSorted(list[..k], orig, cmp) && Earlier(list[..k], list[k..], orig) && Runs(list[k..], k, orig, cmp)
  }

  lemma MergeMember(p: seq<Node>, q: seq<Node>, cmp: Compare, x: Node)
    ensures x in Merge(p, q, cmp) <==> x in p || x in q
  {
    assert x in Merge(p, q, cmp) <==> x in multiset(Merge(p, q, cmp));
    assert x in p <==> x in multiset(p);
    assert x in q <==> x in multiset(q);
  }

  lemma FirstPrecedes(x: Node, rest: seq<Node>, orig: seq<Node>, cmp: Compare)
    requires StableSorted(rest, orig, cmp) && forall y <- rest :: Precedes(x, y, orig, cmp)
    ensures StableSorted([x] + rest, orig, cmp)
  {
  }

  lemma TailSorted(p: seq<Node>, orig: seq<Node>, cmp: Compare)
    requires StableSorted(p, orig, cmp) && p != []
    ensures StableSorted(p[1..], orig, cmp) && forall y <- p[1..] :: Precedes(p[0], y, orig, cmp)
  {
  }

  /** Merging two sorted runs, the first of which was before the second, is stable. */
  lemma {:induction false} MergeSorted(p: seq<Node>, q: seq<Node>, orig: seq<Node>, cmp: Compare, nodes: set<Node>)
    requires IsOrder(cmp, nodes) && (forall x <- p :: x in nodes) && (forall x <- q :: x in nodes)
    requires StableSorted(p, orig, cmp) && StableSorted(q, orig, cmp) && Earlier(p, q, orig)
    ensures StableSorted(Merge(p, q, cmp), orig, cmp)
  {
    hide StableSorted, IsOrder, Pos;
    if p != [] && q != [] {
      TailSorted(p, orig, cmp);
      TailSorted(q, orig, cmp);
      if cmp(p[0], q[0]) <= 0 {
        MergeSorted(p[1..], q, orig, cmp, nodes);
        forall y | y in Merge(p[1..], q, cmp)
          ensures Precedes(p[0], y, orig, cmp)
        {
          MergeMember(p[1..], q, cmp, y);
          if y !in p[1..] {
            assert y == q[0] || y in q[1..];
            Through(p[0], q[0], y, cmp, nodes);
          }
        }
        FirstPrecedes(p[0], Merge(p[1..], q, cmp), orig, cmp);
      } else {
        MergeSorted(p, q[1..], orig, cmp, nodes);
        forall y | y in Merge(p, q[1..], cmp)
          ensures Precedes(q[0], y, orig, cmp)
        {
          MergeMember(p, q[1..], cmp, y);
          if y !in q[1..] {
            assert y == p[0] || y in p[1..];
            Strictly(q[0], p[0], y, cmp, nodes);
          }
        }
        FirstPrecedes(q[0], Merge(p, q[1..], cmp), orig, cmp);
      }
    }
  }

  lemma Through(x: Node, y: Node, z: Node, cmp: Compare, nodes: set<Node>)
    requires IsOrder(cmp, nodes) && x in nodes && y in nodes && z in nodes && cmp(x, y) <= 0
    requires z == y || cmp(y, z) <= 0
    ensures cmp(x, z) <= 0
  {
  }

  lemma Strictly(x: Node, y: Node, z: Node, cmp: Compare, nodes: set<Node>)
    requires IsOrder(cmp, nodes) && x in nodes && y in nodes && z in nodes && !(cmp(y, x) <= 0)
    requires z == y || cmp(y, z) <= 0
    ensures cmp(x, z) <= 0 && !(cmp(z, x) <= 0)
  {
  }

  /** A pass turns runs of length k into runs of length 2k. */
  lemma {:induction false} PassRuns(list: seq<Node>, k: nat, orig: seq<Node>, cmp: Compare, nodes: set<Node>)
    requires k > 0 && IsOrder(cmp, nodes) && forall x <- list :: x in nodes
    requires Runs(list, k, orig, cmp)
    ensures Runs(Pass(list, k, cmp), 2 * k, orig, cmp)
    decreases |list|
  {
    hide StableSorted, IsOrder, Pos, Precedes, Earlier, Merge;
    var a, b := Min(k, |list|), Min(2 * k, |list|);
    var p, q, rest := list[..a], list[a..b], list[b..];
    if |list| > k {
      TwoRuns(list, k, orig, cmp);
      MergeSorted(p, q, orig, cmp, nodes);
      if |list| > 2 * k {
        PassRuns(rest, k, orig, cmp, nodes);
        PassStaysLater(p, q, rest, k, orig, cmp);
        RunsAhead(Merge(p, q, cmp), Pass(rest, k, cmp), 2 * k, orig, cmp);
      } else {
        assert Pass(list, k, cmp) == Merge(p, q, cmp);
      }
    } else {
      assert q == [] && rest == [];
      MergeNone(p, cmp);
      assert Pass(list, k, cmp) == list;
    }
  }

  lemma MergeNone(p: seq<Node>, cmp: Compare)
    ensures Merge(p, [], cmp) == p
  {
  }

  lemma PassStaysLater(p: seq<Node>, q: seq<Node>, rest: seq<Node>, k: nat, orig: seq<Node>, cmp: Compare)
    requires k > 0 && Earlier(p, rest, orig) && Earlier(q, rest, orig)
    ensures Earlier(Merge(p, q, cmp), Pass(rest, k, cmp), orig)
  {
    hide Pos, Merge, Pass;
    forall x, y | x in Merge(p, q, cmp) && y in Pass(rest, k, cmp)
      ensures Pos(orig, x) < Pos(orig, y)
    {
      MergeMember(p, q, cmp, x);
      PassMember(rest, k, cmp, y);
    }
  }

  lemma RunsAhead(m: seq<Node>, after: seq<Node>, k: nat, orig: seq<Node>, cmp: Compare)
    requires k > 0 && |m| == k && after != []
    requires StableSorted(m, orig, cmp) && Earlier(m, after, orig) && Runs(after, k, orig, cmp)
    ensures Runs(m + after, k, orig, cmp)
  {
    hide StableSorted, Earlier;
    assert (m + after)[..k] == m && (m + after)[k..] == after;
  }

  lemma PassMember(list: seq<Node>, k: nat, cmp: Compare, x: Node)
    requires k > 0
    ensures x in Pass(list, k, cmp) <==> x in list
  {
    assert x in Pass(list, k, cmp) <==> x in multiset(Pass(list, k, cmp));
    assert x in list <==> x in multiset(list);
  }

  lemma TwoRuns(list: seq<Node>, k: nat, orig: seq<Node>, cmp: Compare)
    requires k > 0 && |list| > k && Runs(list, k, orig, cmp)
    ensures var b := Min(2 * k, |list|);
      StableSorted(list[..k], orig, cmp) && StableSorted(list[k..b], orig, cmp) && Earlier(list[..k], list[k..b], orig)
    ensures |list| > 2 * k ==>
      Runs(list[2 * k..], k, orig, cmp) && Earlier(list[..k], list[2 * k..], orig)
        && Earlier(list[k..2 * k], list[2 * k..], orig)
  {
    hide StableSorted, Pos;
    var r := list[k..];
    if |list| > 2 * k {
      assert r[..k] == list[k..2 * k] && r[k..] == list[2 * k..];
      assert forall y <- list[2 * k..] :: y in r[k..] && y in r;
    } else {
      assert list[k..|list|] == r;
    }
  }

  /** The sort is stable, whatever the length of the list. */
  lemma {:induction false} SortFromSorted(list: seq<Node>, k: nat, orig: seq<Node>, cmp: Compare, nodes: set<Node>)
    requires k > 0 && IsOrder(cmp, nodes) && forall x <- list :: x in nodes
    requires Runs(list, k, orig, cmp)
    ensures StableSorted(SortFrom(list, k, cmp), orig, cmp)
    decreases |list| - k
  {
    hide StableSorted, IsOrder, Pos, Precedes;
    PassRuns(list, k, orig, cmp, nodes);
    if |list| > 2 * k {
      forall x | x in Pass(list, k, cmp)
        ensures x in nodes
      {
        PassMember(list, k, cmp, x);
      }
      SortFromSorted(Pass(list, k, cmp), 2 * k, orig, cmp, nodes);
    }
  }

  lemma {:induction false} PosIsIndex(list: seq<Node>, i: nat)
    requires Distinct(list) && i < |list|
    ensures Pos(list, list[i]) == i
  {
    if i > 0 {
      assert list[0] != list[i];
      PosIsIndex(list[1..], i - 1);
    }
  }

  /** Any list of distinct elements starts as runs of length 1. */
  lemma {:induction false} SingleRuns(orig: seq<Node>, i: nat, cmp: Compare)
    requires Distinct(orig) && i <= |orig|
    ensures Runs(orig[i..], 1, orig, cmp)
    decreases |orig| - i
  {
    hide Distinct, Pos;
    if i + 1 < |orig| {
      SingleRuns(orig, i + 1, cmp);
      assert orig[i..][1..] == orig[i + 1..];
      forall x, y | x in orig[i..][..1] && y in orig[i + 1..]
        ensures Pos(orig, x) < Pos(orig, y)
      {
        PosIsIndex(orig, i);
        var j :| 0 <= j < |orig[i + 1..]| && orig[i + 1..][j] == y;
        PosIsIndex(orig, i + 1 + j);
      }
    }
  }

  /** The sort rearranges the elements of a list so that each one precedes all that follow: it is
      less than they are, or equal and was before them. */
  lemma SortIsStable(list: seq<Node>, cmp: Compare, nodes: set<Node>)
    requires Distinct(list) && IsOrder(cmp, nodes) && forall x <- list :: x in nodes
    ensures multiset(SortFrom(list, 1, cmp)) == multiset(list)
    ensures StableSorted(SortFrom(list, 1, cmp), list, cmp)
  {
    SingleRuns(list, 0, cmp);
    assert list[0..] == list;
    SortFromSorted(list, 1, list, cmp, nodes);
  }
}
