/** Elements of an intrusive hash table and the bucket chains that run through them. */
module UthashChain {
  import opened Words

  datatype Key = Key(bytes: seq<uint8>)

  /** A handle inside an element: one pair of links for the order in which elements were added,
      one pair for the bucket chain. */
  class Node {
    const key: Key
    const hashv: uint32
    var prev: Node?
    var next: Node?
    var hhPrev: Node?
    var hhNext: Node?

    constructor (key: Key, hashv: uint32)
      ensures this.key == key && this.hashv == hashv
    {
      this.key, this.hashv := key, hashv;
      prev, next, hhPrev, hhNext := null, null, null, null;
    }
  }

  datatype Bucket = Bucket(head: Node?, count: nat, expandMult: nat)

  /** A list by its bucket links: consistent in both directions, from the head to null. */
  ghost predicate Chain(head: Node?, list: seq<Node>)
    reads list`hhNext, list`hhPrev
  {
    && (list == [] <==> head == null)
    && (list != [] ==> head == list[0] && list[0].hhPrev == null && list[|list| - 1].hhNext == null)
    && forall i, j :: 0 <= i < j < |list| && j == i + 1 ==> list[i].hhNext == list[j] && list[j].hhPrev == list[i]
  }

  function BucketOf(hashv: uint32, n: nat): (b: nat)
    requires n > 0
    ensures b < n
  {
    hashv % n
  }

  /** A bucket: its chain, the count of it, and the hash values that belong there. */
  ghost predicate BucketOk(bucket: Bucket, chain: seq<Node>, b: nat, n: nat)
    requires n > 0
    reads chain`hhNext, chain`hhPrev
  {
    Chain(bucket.head, chain) && Distinct(chain) && bucket.count == |chain|
      && forall x <- chain :: BucketOf(x.hashv, n) == b
  }

  ghost predicate Spread(nodes: set<Node>, chains: seq<seq<Node>>) {
    && (forall b, x :: 0 <= b < |chains| && x in chains[b] ==> x in nodes)
    && |chains| > 0
    && forall x <- nodes :: x in chains[BucketOf(x.hashv, |chains|)]
  }

  ghost predicate BucketsOk(buckets: seq<Bucket>, chains: seq<seq<Node>>, nodes: set<Node>)
    reads nodes`hhNext, nodes`hhPrev
  {
    && |buckets| == |chains| && Spread(nodes, chains)
    && forall b :: 0 <= b < |buckets| ==> BucketOk(buckets[b], chains[b], b, |buckets|)
  }

  /** Puts an element at the front of its bucket. */
  method PushFront(buckets: array<Bucket>, b: nat, x: Node, expandMult: nat, ghost chains: seq<seq<Node>>,
                   ghost nodes: set<Node>)
    requires BucketsOk(buckets[..], chains, nodes) && x !in nodes
    requires b < buckets.Length && b == BucketOf(x.hashv, buckets.Length)
    modifies buckets, x`hhNext, x`hhPrev, nodes`hhPrev
    ensures BucketsOk(buckets[..], chains[b := [x] + chains[b]], nodes + {x})
    ensures buckets[b].expandMult == expandMult && buckets[b].count == old(buckets[b].count) + 1
    ensures forall c :: 0 <= c < buckets.Length && c != b ==> buckets[c] == old(buckets[c])
  {
    hide BucketOf;
    var bucket := buckets[b];
    assert BucketOk(buckets[..][b], chains[b], b, buckets.Length);
    x.hhNext := bucket.head;
    x.hhPrev := null;
    if bucket.head != null {
      bucket.head.hhPrev := x;
    }
    buckets[b] := Bucket(x, bucket.count + 1, expandMult);
  }

  /** The neighbours of an element of a chain. */
  lemma ChainAt(head: Node?, list: seq<Node>, k: nat)
    requires Chain(head, list) && k < |list|
    ensures list[k].hhPrev == if k > 0 then list[k - 1] else null
    ensures list[k].hhNext == if k + 1 < |list| then list[k + 1] else null
    ensures k == 0 <==> list[k].hhPrev == null
  {
  }

  /** Takes an element out of its chain. */
  method Unchain(head: Node?, x: Node, ghost k: nat, ghost chain: seq<Node>) returns (head': Node?)
    requires Chain(head, chain) && Distinct(chain) && k < |chain| && x == chain[k]
    modifies chain`hhNext, chain`hhPrev
    ensures Chain(head', Without(chain, k)) && Distinct(Without(chain, k))
  {
    ChainAt(head, chain, k);
    head' := if head == x then x.hhNext else head;
    if x.hhPrev != null {
      x.hhPrev.hhNext := x.hhNext;
    }
    if x.hhNext != null {
      x.hhNext.hhPrev := x.hhPrev;
    }
    ghost var left := Without(chain, k);
    forall i, j | 0 <= i < j < |left| && j == i + 1
      ensures left[i].hhNext == left[j] && left[j].hhPrev == left[i]
    {
      if i >= k {
        assert left[i] == chain[i + 1] && left[j] == chain[j + 1];
      }
    }
    if k == 0 && left != [] { assert left[0] == chain[1]; }
  }

  /** Takes an element out of its bucket. */
  method DelInBkt(buckets: array<Bucket>, b: nat, x: Node, ghost k: nat, ghost chains: seq<seq<Node>>,
                  ghost nodes: set<Node>)
    requires BucketsOk(buckets[..], chains, nodes)
    requires b < buckets.Length && k < |chains[b]| && x == chains[b][k]
    modifies buckets, chains[b]`hhNext, chains[b]`hhPrev
    ensures BucketsOk(buckets[..], chains[b := Without(chains[b], k)], nodes - {x})
  {
    hide BucketOf;
    var bucket := buckets[b];
    ghost var n, was := buckets.Length, buckets[..];
    assert forall c :: 0 <= c < n ==> BucketOk(was[c], chains[c], c, n);
    Elsewhere(was, chains, nodes, b);
    var head := Unchain(bucket.head, x, k, chains[b]);
    hide Spread, Distinct;
    buckets[b] := Bucket(head, bucket.count - 1, bucket.expandMult);
    forall c | 0 <= c < n
      ensures BucketOk(buckets[c], chains[b := Without(chains[b], k)][c], c, n)
    {
      if c != b {
        assert old(BucketOk(was[c], chains[c], c, n));
        assert old(Chain(was[c].head, chains[c]));
        assert forall x <- chains[c] :: x !in chains[b] && x.hhNext == old(x.hhNext) && x.hhPrev == old(x.hhPrev);
        assert Chain(was[c].head, chains[c]);
      } else {
        assert Chain(buckets[b].head, Without(chains[b], k));
        assert forall x <- Without(chains[b], k) :: BucketOf(x.hashv, n) == b;
      }
    }
    SpreadWithout(nodes, chains, b, k);
  }

  /** The elements of other buckets are not in this one. */
  lemma Elsewhere(buckets: seq<Bucket>, chains: seq<seq<Node>>, nodes: set<Node>, b: nat)
    requires BucketsOk(buckets, chains, nodes) && b < |chains|
    ensures forall c, x :: 0 <= c < |chains| && c != b && x in chains[c] ==> x !in chains[b]
  {
    hide BucketOf, Chain, Distinct;
    forall c, x | 0 <= c < |chains| && c != b && x in chains[c]
      ensures x !in chains[b]
    {
      assert BucketOk(buckets[c], chains[c], c, |chains|) && BucketOk(buckets[b], chains[b], b, |chains|);
    }
  }

  lemma SpreadWithout(nodes: set<Node>, chains: seq<seq<Node>>, b: nat, k: nat)
    requires Spread(nodes, chains) && b < |chains| && k < |chains[b]| && Distinct(chains[b])
    requires forall c, x :: 0 <= c < |chains| && c != b && x in chains[c] ==> x !in chains[b]
    ensures Spread(nodes - {chains[b][k]}, chains[b := Without(chains[b], k)])
  {
    hide BucketOf;
    var left := Without(chains[b], k);
    forall j | 0 <= j < |left|
      ensures left[j] != chains[b][k] && left[j] in chains[b]
    {
      assert left[j] == chains[b][if j < k then j else j + 1];
    }
    var chains' := chains[b := left];
    forall c, x | 0 <= c < |chains'| && x in chains'[c]
      ensures x in nodes - {chains[b][k]}
    {
      if c != b { assert x in chains[c] && x !in chains[b]; }
    }
    forall x | x in nodes && x != chains[b][k]
      ensures x in chains'[BucketOf(x.hashv, |chains'|)]
    {
      var i :| 0 <= i < |chains[BucketOf(x.hashv, |chains|)]| && chains[BucketOf(x.hashv, |chains|)][i] == x;
      if BucketOf(x.hashv, |chains|) == b {
        var j := if i < k then i else i - 1;
        assert Without(chains[b], k)[j] == x;
      }
    }
  }

  /** Walks a bucket for an element with a key. */
  method FindInBkt(buckets: array<Bucket>, key: Key, hashval: uint32, ghost chains: seq<seq<Node>>,
                   ghost nodes: set<Node>)
    returns (out: Node?)
    requires BucketsOk(buckets[..], chains, nodes) && buckets.Length > 0
    ensures out != null ==> out in nodes && out.hashv == hashval && out.key == key
    ensures out == null ==> forall x <- nodes :: x.hashv == hashval ==> x.key != key
  {
    var b := BucketOf(hashval, buckets.Length);
    hide BucketOf;
    ghost var chain := chains[b];
    assert BucketOk(buckets[..][b], chain, b, buckets.Length);
    out := buckets[b].head;
    ghost var k := 0;
    while out != null
      invariant 0 <= k <= |chain| && out == (if k < |chain| then chain[k] else null)
      invariant forall i :: 0 <= i < k ==> !(chain[i].hashv == hashval && chain[i].key == key)
      decreases |chain| - k
    {
      ChainAt(buckets[b].head, chain, k);
      if out.hashv == hashval && |out.key.bytes| == |key.bytes| && out.key == key {
        return;
      }
      out := out.hhNext;
      k := k + 1;
    }
  }
}
