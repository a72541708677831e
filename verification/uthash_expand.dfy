/** Doubling the buckets of the hash table. */
module UthashExpand {
  import opened Words
  import opened UthashChain

  /** How many elements of a chain are past the ideal length. */
  function Over(length: nat, ideal: nat): nat {
    if length > ideal then length - ideal else 0
  }

  ghost function Excess(chains: seq<seq<Node>>, ideal: nat): nat {
    if chains == [] then 0 else Excess(chains[..|chains| - 1], ideal) + Over(|chains[|chains| - 1]|, ideal)
  }

  lemma {:induction false} ExcessUpdate(chains: seq<seq<Node>>, b: nat, chain: seq<Node>, ideal: nat)
    requires b < |chains|
    ensures Excess(chains[b := chain], ideal) == Excess(chains, ideal) - Over(|chains[b]|, ideal) + Over(|chain|, ideal)
  {
    var n := |chains| - 1;
    if b < n {
      ExcessUpdate(chains[..n], b, chain, ideal);
      assert chains[b := chain][..n] == chains[..n][b := chain];
    } else {
      assert chains[b := chain][..n] == chains[..n];
    }
  }

  lemma {:induction false} ExcessOfNone(chains: seq<seq<Node>>, ideal: nat)
    requires forall b :: 0 <= b < |chains| ==> chains[b] == []
    ensures Excess(chains, ideal) == 0
  {
    if chains != [] {
      ExcessOfNone(chains[..|chains| - 1], ideal);
    }
  }

  /** The multiplier of a bucket that has received so many elements. */
  function ExpandMult(count: nat, ideal: nat): nat {
    if count == 0 then 0 else NextMult(count, ideal, ExpandMult(count - 1, ideal))
  }

  function NextMult(count: nat, ideal: nat, mult: nat): nat {
    if count > ideal && count > mult * ideal then mult + 1 else mult
  }

  /** A bucket within the ideal length keeps the multiplier 0; a longer one gets a multiplier that
      is within one element of covering its chain. */
  lemma {:induction false} MultBounds(count: nat, ideal: nat)
    requires ideal > 0
    ensures count <= ideal ==> ExpandMult(count, ideal) == 0
    ensures count > ideal ==>
      var m := ExpandMult(count, ideal); m > 0 && (m - 1) * ideal < count <= m * ideal + 1
  {
    if count != 0 {
      MultBounds(count - 1, ideal);
      var m := ExpandMult(count - 1, ideal);
      Distribute(ideal, m, 1);
    }
  }

  /** A list by its forward bucket links only. */
  ghost predicate Forward(head: Node?, list: seq<Node>)
    reads list`hhNext
  {
    && (list == [] <==> head == null)
    && (list != [] ==> head == list[0] && list[|list| - 1].hhNext == null)
    && forall i, j :: 0 <= i < j < |list| && j == i + 1 ==> list[i].hhNext == list[j]
  }

  ghost function Elements(list: seq<Node>): set<Node> {
    set x | x in list
  }

  ghost predicate Measured(buckets: seq<Bucket>, chains: seq<seq<Node>>, ideal: nat, nonideal: nat) {
    && nonideal == Excess(chains, ideal)
    && forall b :: 0 <= b < |buckets| ==> buckets[b].expandMult == ExpandMult(buckets[b].count, ideal)
  }

  /** Moves one element to the front of its new bucket, counting it if it is past the ideal length. */
  method MoveOne(x: Node, buckets: array<Bucket>, ideal: nat, nonideal: nat, ghost chains: seq<seq<Node>>,
                 ghost moved: set<Node>)
    returns (nonideal': nat, ghost chains': seq<seq<Node>>)
    requires BucketsOk(buckets[..], chains, moved) && x !in moved
    requires Measured(buckets[..], chains, ideal, nonideal)
    modifies buckets, x`hhNext, x`hhPrev, moved`hhPrev
    ensures BucketsOk(buckets[..], chains', moved + {x})
    ensures Measured(buckets[..], chains', ideal, nonideal')
  {
    var b := BucketOf(x.hashv, buckets.Length);
    hide BucketOf, Chain, Distinct, Spread, Excess, Over;
    assert BucketOk(buckets[..][b], chains[b], b, buckets.Length);
    var count, mult := buckets[b].count + 1, buckets[b].expandMult;
    nonideal' := nonideal;
    if count > ideal {
      nonideal' := nonideal + 1;
      if count > mult * ideal {
        mult := mult + 1;
      }
    }
    chains' := chains[b := [x] + chains[b]];
    ExcessUpdate(chains, b, [x] + chains[b], ideal);
    assert buckets[..][b] == buckets[b];
    assert mult == ExpandMult(count, ideal);
    hide BucketOk, BucketsOk, ExpandMult;
    ghost var was := buckets[..];
    PushFront(buckets, b, x, mult, chains, moved);
    forall c | 0 <= c < buckets.Length
      ensures buckets[c].expandMult == ExpandMult(buckets[c].count, ideal)
    {
      if c != b { assert buckets[c] == was[c]; }
    }
  }

  /** Moves the elements of one old chain. */
  method MoveChain(head: Node?, ghost chain: seq<Node>, buckets: array<Bucket>, ideal: nat, nonideal: nat,
                   ghost chains: seq<seq<Node>>, ghost moved: set<Node>)
    returns (nonideal': nat, ghost chains': seq<seq<Node>>)
    requires Forward(head, chain) && Distinct(chain) && forall x <- chain :: x !in moved
    requires BucketsOk(buckets[..], chains, moved) && Measured(buckets[..], chains, ideal, nonideal)
    modifies buckets, chain`hhNext, chain`hhPrev, moved`hhPrev
    ensures BucketsOk(buckets[..], chains', moved + Elements(chain))
    ensures Measured(buckets[..], chains', ideal, nonideal')
  {
    hide BucketsOk, Measured, Forward, Distinct;
    StartForward(head, chain, moved);
    var x := head;
    nonideal', chains' := nonideal, chains;
    ghost var j, now := 0, moved;
    while x != null
      invariant 0 <= j <= |chain| && Forward(x, chain[j..])
      invariant now == moved + Elements(chain[..j])
      invariant BucketsOk(buckets[..], chains', now) && Measured(buckets[..], chains', ideal, nonideal')
      decreases |chain| - j
    {
      NextForward(x, chain[j..]);
      OneElementMore(chain, j, moved);
      x, nonideal', chains' := MoveFirst(x, chain[j..], buckets, ideal, nonideal', chains', now);
      now, j := now + {chain[j]}, j + 1;
    }
    EndForward(chain[j..]);
    assert chain[..j] == chain;
  }

  /** Moves the first element of what is left of a chain. */
  method MoveFirst(x: Node, ghost list: seq<Node>, buckets: array<Bucket>, ideal: nat, nonideal: nat,
                   ghost chains: seq<seq<Node>>, ghost moved: set<Node>)
    returns (next: Node?, nonideal': nat, ghost chains': seq<seq<Node>>)
    requires Forward(x, list) && list != [] && x == list[0] && x !in moved
    requires forall y <- list[1..] :: y != x && y !in moved
    requires BucketsOk(buckets[..], chains, moved) && Measured(buckets[..], chains, ideal, nonideal)
    modifies buckets, x`hhNext, x`hhPrev, moved`hhPrev
    ensures Forward(next, list[1..])
    ensures BucketsOk(buckets[..], chains', moved + {x}) && Measured(buckets[..], chains', ideal, nonideal')
  {
    hide BucketsOk, Measured, Forward;
    NextForward(x, list);
    next := x.hhNext;
    nonideal', chains' := MoveOne(x, buckets, ideal, nonideal, chains, moved);
  }

  lemma StartForward(head: Node?, chain: seq<Node>, moved: set<Node>)
    requires Forward(head, chain)
    ensures Forward(head, chain[0..]) && moved == moved + Elements(chain[..0])
  {
    assert chain[0..] == chain;
  }

  lemma EndForward(list: seq<Node>)
    requires Forward(null, list)
    ensures list == []
  {
  }

  lemma OneElementMore(chain: seq<Node>, j: nat, moved: set<Node>)
    requires j < |chain| && Distinct(chain) && forall x <- chain :: x !in moved
    ensures chain[j] == chain[j..][0] && chain[j..][1..] == chain[j + 1..]
    ensures moved + Elements(chain[..j + 1]) == moved + Elements(chain[..j]) + {chain[j]}
    ensures forall y <- chain[j + 1..] :: y != chain[j] && y !in moved + Elements(chain[..j])
    ensures chain[j] !in moved + Elements(chain[..j])
  {
    assert chain[..j + 1] == chain[..j] + [chain[j]];
  }

  lemma NextForward(head: Node, list: seq<Node>)
    requires Forward(head, list)
    ensures list != [] && head == list[0] && Forward(head.hhNext, list[1..])
  {
    if |list| > 1 {
      assert list[0].hhNext == list[1];
      assert list[1..][|list| - 2] == list[|list| - 1];
    }
  }

  /** No element is in two chains. */
  ghost predicate Parted(chains: seq<seq<Node>>, nodes: set<Node>) {
    && (forall b, x :: 0 <= b < |chains| && x in chains[b] ==> x in nodes)
    && forall b, c, x :: 0 <= b < c < |chains| && x in chains[c] ==> x !in chains[b]
  }

  /** The old chains that are still to be moved. */
  ghost predicate Remaining(buckets: seq<Bucket>, chains: seq<seq<Node>>, i: nat, nodes: set<Node>)
    reads nodes`hhNext
  {
    && Parted(chains, nodes) && |buckets| == |chains|
    && forall b :: i <= b < |chains| ==> Forward(buckets[b].head, chains[b]) && Distinct(chains[b])
  }

  /** The elements of the first chains. */
  ghost function Before(chains: seq<seq<Node>>, i: nat): set<Node>
    requires i <= |chains|
  {
    set b, x | 0 <= b < i && x in chains[b] :: x
  }

  lemma AllRemain(buckets: seq<Bucket>, chains: seq<seq<Node>>, nodes: set<Node>)
    requires BucketsOk(buckets, chains, nodes)
    ensures Remaining(buckets, chains, 0, nodes)
  {
    hide BucketOf;
    forall b | 0 <= b < |chains|
      ensures Forward(buckets[b].head, chains[b]) && Distinct(chains[b])
    {
      assert BucketOk(buckets[b], chains[b], b, |chains|);
    }
  }

  /** Every element goes from its old chain to a chain of twice as many. Afterwards the new
      buckets hold the same elements, each where its hash value puts it; the number of elements
      past the ideal length has been counted, and every bucket has its multiplier. */
  method Redistribute(buckets: array<Bucket>, ideal: nat, ghost chains: seq<seq<Node>>, ghost nodes: set<Node>)
    returns (newBuckets: array<Bucket>, nonideal: nat, ghost chains': seq<seq<Node>>)
    requires BucketsOk(buckets[..], chains, nodes)
    modifies nodes`hhNext, nodes`hhPrev
    ensures fresh(newBuckets) && newBuckets.Length == buckets.Length * 2
    ensures BucketsOk(newBuckets[..], chains', nodes)
    ensures Measured(newBuckets[..], chains', ideal, nonideal)
  {
    newBuckets, chains' := NewBuckets(buckets.Length * 2, ideal);
    AllRemain(buckets[..], chains, nodes);
    Partitioned(buckets[..], chains, nodes);
    hide BucketsOk, Measured, Remaining, Before;
    nonideal, chains' := MoveBuckets(buckets, newBuckets, ideal, chains, nodes, chains');
  }

  method MoveBuckets(buckets: array<Bucket>, newBuckets: array<Bucket>, ideal: nat,
                     ghost chains: seq<seq<Node>>, ghost nodes: set<Node>, ghost empty: seq<seq<Node>>)
    returns (nonideal: nat, ghost chains': seq<seq<Node>>)
    requires buckets != newBuckets && buckets.Length == |chains|
    requires Remaining(buckets[..], chains, 0, nodes)
    requires BucketsOk(newBuckets[..], empty, Before(chains, 0)) && Measured(newBuckets[..], empty, ideal, 0)
    modifies newBuckets, nodes`hhNext, nodes`hhPrev
    ensures BucketsOk(newBuckets[..], chains', Before(chains, |chains|))
    ensures Measured(newBuckets[..], chains', ideal, nonideal)
  {
    hide BucketsOk, Measured, Remaining, Before;
    nonideal, chains' := 0, empty;
    ghost var was := buckets[..];
    for i := 0 to buckets.Length
      invariant buckets[..] == was && Remaining(was, chains, i, nodes)
      invariant BucketsOk(newBuckets[..], chains', Before(chains, i))
      invariant Measured(newBuckets[..], chains', ideal, nonideal)
    {
      nonideal, chains' := MoveBucket(was, i, buckets[i].head, newBuckets, ideal, nonideal, chains, nodes, chains');
    }
  }

  method NewBuckets(n: nat, ideal: nat) returns (buckets: array<Bucket>, ghost chains: seq<seq<Node>>)
    requires n > 0
    ensures fresh(buckets) && buckets.Length == n && |chains| == n
    ensures forall b :: 0 <= b < n ==> buckets[b] == Bucket(null, 0, 0)
    ensures BucketsOk(buckets[..], chains, {}) && Measured(buckets[..], chains, ideal, 0)
  {
    buckets := new Bucket[n](_ => Bucket(null, 0, 0));
    chains := seq(n, _ => []);
    ExcessOfNone(chains, ideal);
  }

  /** Moves one old bucket. */
  method MoveBucket(ghost was: seq<Bucket>, i: nat, head: Node?, buckets: array<Bucket>, ideal: nat, nonideal: nat,
                    ghost chains: seq<seq<Node>>, ghost nodes: set<Node>, ghost moved: seq<seq<Node>>)
    returns (nonideal': nat, ghost moved': seq<seq<Node>>)
    requires |was| == |chains| && i < |was| && head == was[i].head && Remaining(was, chains, i, nodes)
    requires BucketsOk(buckets[..], moved, Before(chains, i)) && Measured(buckets[..], moved, ideal, nonideal)
    modifies buckets, nodes`hhNext, nodes`hhPrev
    ensures Remaining(was, chains, i + 1, nodes)
    ensures BucketsOk(buckets[..], moved', Before(chains, i + 1)) && Measured(buckets[..], moved', ideal, nonideal')
  {
    hide BucketsOk, Measured, Forward, Distinct;
    ghost var chain := chains[i];
    assert forall x <- chain :: x !in Before(chains, i);
    nonideal', moved' := MoveChain(head, chain, buckets, ideal, nonideal, moved, Before(chains, i));
    assert Before(chains, i + 1) == Before(chains, i) + Elements(chain);
    forall b | i + 1 <= b < |chains|
      ensures Forward(was[b].head, chains[b]) && Distinct(chains[b])
    {
      assert old(Forward(was[b].head, chains[b])) && Distinct(chains[b]);
      assert forall x <- chains[b] :: x !in chain && x.hhNext == old(x.hhNext);
    }
  }

  lemma Partitioned(buckets: seq<Bucket>, chains: seq<seq<Node>>, nodes: set<Node>)
    requires BucketsOk(buckets, chains, nodes)
    ensures Parted(chains, nodes)
    ensures Before(chains, 0) == {} && Before(chains, |chains|) == nodes
  {
    hide BucketOf, Chain, Distinct;
    forall b, c, x | 0 <= b < c < |chains| && x in chains[c]
      ensures x !in chains[b]
    {
      assert BucketOk(buckets[b], chains[b], b, |chains|) && BucketOk(buckets[c], chains[c], c, |chains|);
    }
  }
}
