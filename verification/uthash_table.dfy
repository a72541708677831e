/** An intrusive hash table: a list of elements in the order they were added, and buckets of
    chains through the same elements. It refines a finite map from keys to elements. */
module Uthash {
  import opened Words
  import opened UthashChain
  import opened UthashExpand

  const INITIAL_BUCKETS: nat := 32
  const CAPACITY: nat := 10

  /** The elements in the order they were added, linked in both directions. */
  ghost predicate AppList(head: Node?, tail: Node?, items: seq<Node>)
    reads items`next, items`prev
  {
    && items != [] && head == items[0] && tail == items[|items| - 1]
    && items[0].prev == null && items[|items| - 1].next == null
    && forall i, j :: 0 <= i < j < |items| && j == i + 1 ==> items[i].next == items[j] && items[j].prev == items[i]
  }

  ghost predicate UniqueKeys(items: seq<Node>) {
    forall i, j :: 0 <= i < j < |items| ==> items[i].key != items[j].key
  }

  /** The map the table stands for. */
  ghost function MapOf(items: seq<Node>): map<Key, Node> {
    if items == [] then map[] else MapOf(items[..|items| - 1])[items[|items| - 1].key := items[|items| - 1]]
  }

  /** With unique keys the map holds every element under its key, and nothing else. */
  lemma {:induction false} MapHolds(items: seq<Node>)
    requires UniqueKeys(items)
    ensures forall x <- items :: x.key in MapOf(items) && MapOf(items)[x.key] == x
    ensures forall key <- MapOf(items) :: MapOf(items)[key] in items && MapOf(items)[key].key == key
  {
    if items != [] {
      var n := |items| - 1;
      MapHolds(items[..n]);
      assert items == items[..n] + [items[n]];
      forall x | x in items
        ensures x.key in MapOf(items) && MapOf(items)[x.key] == x
      {
        if x != items[n] { assert x in items[..n] && x.key != items[n].key; }
      }
    }
  }

  /** A map is determined by the elements, in whatever order they stand. */
  lemma SameMap(a: seq<Node>, b: seq<Node>)
    requires UniqueKeys(a) && UniqueKeys(b) && forall x :: x in a <==> x in b
    ensures MapOf(a) == MapOf(b)
  {
    MapHolds(a);
    MapHolds(b);
    hide MapOf, UniqueKeys;
    forall key
      ensures key in MapOf(a) <==> key in MapOf(b)
      ensures key in MapOf(a) ==> MapOf(a)[key] == MapOf(b)[key]
    {
      if key in MapOf(a) { assert MapOf(a)[key] in b; }
      if key in MapOf(b) { assert MapOf(b)[key] in a; }
    }
  }

  lemma WithoutOne(items: seq<Node>, k: nat)
    requires UniqueKeys(items) && k < |items|
    ensures UniqueKeys(Without(items, k))
    ensures forall x :: x in Without(items, k) <==> x in items && x != items[k]
  {
    var left := Without(items, k);
    forall i | 0 <= i < |left|
      ensures left[i] == items[if i < k then i else i + 1]
    {
    }
    forall x | x in items && x != items[k]
      ensures x in left
    {
      var i :| 0 <= i < |items| && items[i] == x;
      assert left[if i < k then i else i - 1] == x;
    }
  }

  lemma ElementsWithout(items: seq<Node>, k: nat)
    requires UniqueKeys(items) && k < |items|
    ensures Elements(Without(items, k)) == Elements(items) - {items[k]}
    ensures items[k] in Elements(items)
  {
    WithoutOne(items, k);
  }

  /** Leaving one element out takes its key out of the map. */
  lemma MapWithout(items: seq<Node>, k: nat)
    requires UniqueKeys(items) && k < |items|
    ensures UniqueKeys(Without(items, k))
    ensures MapOf(Without(items, k)) == MapOf(items) - {items[k].key}
  {
    var left := Without(items, k);
    WithoutOne(items, k);
    hide MapOf, UniqueKeys, Without;
    MapLess(items, left, items[k]);
  }

  lemma MapLess(items: seq<Node>, left: seq<Node>, x: Node)
    requires UniqueKeys(items) && UniqueKeys(left) && x in items
    requires forall y :: y in left <==> y in items && y != x
    ensures MapOf(left) == MapOf(items) - {x.key}
  {
    hide MapOf, UniqueKeys;
    var m, l := MapOf(items), MapOf(left);
    forall key
      ensures key in l <==> key in m && key != x.key
      ensures key in l ==> l[key] == m[key]
    {
      MapWithoutAt(items, left, x, key);
    }
  }

  lemma MapWithoutAt(items: seq<Node>, left: seq<Node>, x: Node, key: Key)
    requires UniqueKeys(items) && UniqueKeys(left) && x in items
    requires forall y :: y in left <==> y in items && y != x
    ensures key in MapOf(left) <==> key in MapOf(items) && key != x.key
    ensures key in MapOf(left) ==> MapOf(left)[key] == MapOf(items)[key]
  {
    MapHolds(items);
    MapHolds(left);
    hide MapOf, UniqueKeys;
    if key in MapOf(left) {
      var y := MapOf(left)[key];
      assert y in items && MapOf(items)[y.key] == y;
    }
    if key in MapOf(items) && key != x.key {
      var y := MapOf(items)[key];
      assert y in left && MapOf(left)[y.key] == y;
    }
  }

  lemma DistinctItems(items: seq<Node>)
    requires UniqueKeys(items)
    ensures Distinct(items)
  {
  }

  /** The neighbours of an element of the list. */
  lemma AppAt(head: Node?, tail: Node?, items: seq<Node>, k: nat)
    requires AppList(head, tail, items) && k < |items| && Distinct(items)
    ensures items[k].prev == if k > 0 then items[k - 1] else null
    ensures items[k].next == if k + 1 < |items| then items[k + 1] else null
    ensures items[k] == tail <==> k + 1 == |items|
  {
  }

  lemma {:induction false} ElementsCount(list: seq<Node>)
    requires Distinct(list)
    ensures |Elements(list)| == |list|
  {
    if list != [] {
      var n := |list| - 1;
      ElementsCount(list[..n]);
      assert Elements(list) == Elements(list[..n]) + {list[n]};
      assert list[n] !in list[..n];
    } else {
      assert Elements(list) == {};
    }
  }

  lemma OneChainMore(chains: seq<seq<Node>>, i: nat, nodes: set<Node>)
    requires Parted(chains, nodes) && i < |chains| && Distinct(chains[i])
    ensures |Before(chains, i + 1)| == |Before(chains, i)| + |chains[i]|
  {
    ElementsCount(chains[i]);
    assert Before(chains, i + 1) == Before(chains, i) + Elements(chains[i]);
    assert Before(chains, i) !! Elements(chains[i]);
  }

  /** The least chain length that could hold so many items in so many buckets. */
  ghost predicate IsCeiling(ideal: nat, items: nat, buckets: nat) {
    items <= ideal * buckets && (ideal > 0 ==> (ideal - 1) * buckets < items)
  }

  class Hash {
    const hash: Key -> uint32
    var head: Node?
    // the table proper, which exists while there is a head
    var tail: Node?
    var buckets: array<Bucket>
    var numBuckets: nat
    var log2NumBuckets: nat
    var numItems: nat
    var idealChainMaxlen: nat
    var nonidealItems: nat
    var ineffExpands: nat
    var noexpand: bool
    ghost var items: seq<Node>
    ghost var chains: seq<seq<Node>>

    constructor (hash: Key -> uint32)
      ensures Valid() && items == [] && this.hash == hash
    {
      this.hash := hash;
      head, tail := null, null;
      buckets := new Bucket[0](_ => Bucket(null, 0, 0));
      numBuckets, log2NumBuckets, numItems := 0, 0, 0;
      idealChainMaxlen, nonidealItems, ineffExpands, noexpand := 0, 0, 0, false;
      items, chains := [], [];
    }

    ghost predicate Valid()
      reads this, buckets, items
    {
      if head == null then items == []
      else
        && AppList(head, tail, items) && Keyed() && numItems == |items|
        && TableOk() && BucketsOk(buckets[..], chains, Elements(items))
    }

    ghost predicate Keyed()
      reads this`items
    {
      UniqueKeys(items) && forall x <- items :: x.hashv == hash(x.key)
    }

    ghost predicate TableOk()
      reads this`buckets, this`numBuckets, this`log2NumBuckets
    {
      buckets.Length == numBuckets == Pow2(log2NumBuckets)
    }

    /** The table as a map. */
    ghost function Map(): map<Key, Node>
      reads this`items
    {
      MapOf(items)
    }

    /** Finds the element with a key. */
    method Find(key: Key) returns (out: Node?)
      requires Valid()
      ensures out == null <==> key !in Map()
      ensures out != null ==> out == Map()[key]
    {
      out := null;
      if head != null {
        out := FindInBkt(buckets, key, hash(key), chains, Elements(items));
        MapHolds(items);
      }
    }

    /** Appends an element in the order of addition. */
    method AppendList(x: Node)
      requires AppList(head, tail, items) && x !in items
      modifies this`tail, this`items, x`next, x`prev, items`next
      ensures items == old(items) + [x] && tail == x && AppList(head, tail, items)
    {
      x.next := null;
      x.prev := tail;
      tail.next := x;
      tail := x;
      items := items + [x];
    }

    /** Makes the table for a first element. */
    method MakeTable(x: Node)
      modifies this`tail, this`buckets, this`numBuckets, this`log2NumBuckets, this`numItems, this`idealChainMaxlen,
               this`nonidealItems, this`ineffExpands, this`noexpand, this`chains
      ensures tail == x && numItems == 0 && TableOk() && fresh(buckets) && numBuckets == INITIAL_BUCKETS
      ensures idealChainMaxlen == nonidealItems == ineffExpands == 0 && !noexpand
      ensures BucketsOk(buckets[..], chains, {})
      ensures forall b :: 0 <= b < INITIAL_BUCKETS ==> buckets[b] == Bucket(null, 0, 0)
    {
      hide BucketsOk, Measured, Excess, ExpandMult, Pow2;
      ThirtyTwo();
      tail := x;
      numBuckets, log2NumBuckets := INITIAL_BUCKETS, 5;
      numItems, idealChainMaxlen, nonidealItems, ineffExpands, noexpand := 0, 0, 0, 0, false;
      buckets, chains := NewBuckets(INITIAL_BUCKETS, 0);
    }

    /** Doubles the buckets. Map, order and elements stay as they are; the ideal chain length is
        the ceiling of items per bucket, and the items past it are counted. */
    method ExpandBuckets()
      requires TableOk() && BucketsOk(buckets[..], chains, Elements(items)) && numItems == |items|
      modifies this`buckets, this`numBuckets, this`log2NumBuckets, this`idealChainMaxlen,
               this`nonidealItems, this`ineffExpands, this`noexpand, this`chains, items`hhNext, items`hhPrev
      ensures TableOk() && BucketsOk(buckets[..], chains, Elements(items)) && fresh(buckets)
      ensures numBuckets == 2 * old(numBuckets)
      ensures IsCeiling(idealChainMaxlen, numItems, numBuckets)
      ensures Measured(buckets[..], chains, idealChainMaxlen, nonidealItems)
      ensures ineffExpands == if nonidealItems > numItems / 2 then old(ineffExpands) + 1 else 0
      ensures noexpand == (old(noexpand) || ineffExpands > 1)
    {
      hide BucketsOk, Measured, Excess, ExpandMult, IsCeiling, IdealChain, Pow2;
      DoubleBuckets(log2NumBuckets);
      idealChainMaxlen := IdealChain(numItems, numBuckets, log2NumBuckets);
      nonidealItems := 0;
      buckets, nonidealItems, chains := Redistribute(buckets, idealChainMaxlen, chains, Elements(items));
      numBuckets := numBuckets * 2;
      log2NumBuckets := log2NumBuckets + 1;
      ineffExpands := if nonidealItems > numItems / 2 then ineffExpands + 1 else 0;
      if ineffExpands > 1 {
        noexpand := true;
      }
    }

    /** Puts an element that the list already has into its bucket, and doubles the buckets when
        this one has grown to its limit. */
    method AddToBkt(x: Node)
      requires TableOk() && numItems == |items| && x in items
      requires BucketsOk(buckets[..], chains, Elements(items) - {x})
      modifies this`buckets, this`numBuckets, this`log2NumBuckets, this`idealChainMaxlen, this`nonidealItems,
               this`ineffExpands, this`noexpand, this`chains, buckets, items`hhNext, items`hhPrev
      ensures TableOk() && BucketsOk(buckets[..], chains, Elements(items))
      ensures buckets == old(buckets) || fresh(buckets)
      ensures var b := BucketOf(x.hashv, old(buckets.Length)); var full := old(buckets[b]);
        var doubled := full.count + 1 >= (full.expandMult + 1) * 10 && !old(noexpand);
        numBuckets == (if doubled then 2 else 1) * old(numBuckets)
      ensures numBuckets == old(numBuckets) ==>
        idealChainMaxlen == old(idealChainMaxlen) && nonidealItems == old(nonidealItems)
        && ineffExpands == old(ineffExpands) && noexpand == old(noexpand)
      ensures numBuckets != old(numBuckets) ==>
        IsCeiling(idealChainMaxlen, numItems, numBuckets)
        && Measured(buckets[..], chains, idealChainMaxlen, nonidealItems)
    {
      hide BucketsOk, Measured, IsCeiling, Pow2;
      BucketsNonempty(buckets[..], chains, Elements(items) - {x});
      var b := BucketOf(x.hashv, numBuckets);
      hide BucketOf;
      PushFront(buckets, b, x, buckets[b].expandMult, chains, Elements(items) - {x});
      chains := chains[b := [x] + chains[b]];
      assert Elements(items) - {x} + {x} == Elements(items);
      if buckets[b].count >= (buckets[b].expandMult + 1) * CAPACITY && !noexpand {
        ExpandBuckets();
      }
    }

    lemma BucketsNonempty(buckets: seq<Bucket>, chains: seq<seq<Node>>, nodes: set<Node>)
      requires BucketsOk(buckets, chains, nodes)
      ensures |buckets| == |chains| > 0
    {
    }

    /** Puts a new element on the list, making the table if it is the first. */
    method Enlist(x: Node)
      requires Valid() && x !in items
      modifies this, x`next, x`prev, items`next
      ensures items == old(items) + [x] && numItems == |items| && head != null && AppList(head, tail, items)
      ensures TableOk() && BucketsOk(buckets[..], chains, Elements(items) - {x})
      ensures if old(head) == null then fresh(buckets) && numBuckets == 32 && !noexpand
              else buckets == old(buckets) && numBuckets == old(numBuckets) && noexpand == old(noexpand)
    {
      hide BucketsOk, TableOk, Keyed;
      ghost var was := items;
      if head == null {
        x.next, x.prev := null, null;
        MakeTable(x);
        head := x;
        items := [x];
        assert Elements(was) == {};
      } else {
        AppendList(x);
      }
      assert Elements(items) - {x} == Elements(was);
      numItems := numItems + 1;
    }

    /** Adds an element whose key is not in the table yet. */
    method Add(x: Node)
      requires Valid() && x !in items && x.hashv == hash(x.key) && x.key !in Map()
      modifies this, buckets, x, items
      ensures Valid() && items == old(items) + [x] && Map() == old(Map())[x.key := x]
      ensures buckets == old(buckets) || fresh(buckets)
    {
      hide BucketsOk, Measured, TableOk, IsCeiling, Pow2, UniqueKeys, AppList, MapOf;
      KeyedAppend(x);
      Enlist(x);
      AddToBkt(x);
    }

    lemma KeyedAppend(x: Node)
      requires Valid() && x.hashv == hash(x.key) && x.key !in Map()
      ensures UniqueKeys(items + [x]) && forall y <- items + [x] :: y.hashv == hash(y.key)
      ensures MapOf(items + [x]) == MapOf(items)[x.key := x]
    {
      if head != null { MapHolds(items); }
      assert (items + [x])[..|items|] == items;
    }

    /** Takes an element off the list; it is not the only one. */
    method Delist(x: Node, ghost k: nat)
      requires AppList(head, tail, items) && Distinct(items) && k < |items| && x == items[k] && |items| > 1
      modifies this`head, this`tail, this`items, items`next, items`prev
      ensures items == Without(old(items), k) && AppList(head, tail, items) && head != null
    {
      AppAt(head, tail, items, k);
      if x == tail {
        tail := x.prev;
      }
      if x.prev != null {
        x.prev.next := x.next;
      } else {
        head := x.next;
      }
      if x.next != null {
        x.next.prev := x.prev;
      }
      ghost var left := Without(items, k);
      forall i, j | 0 <= i < j < |left| && j == i + 1
        ensures left[i].next == left[j] && left[j].prev == left[i]
      {
        if i >= k { assert left[i] == items[i + 1] && left[j] == items[j + 1]; }
      }
      if k == 0 { assert left[0] == items[1]; }
      if k + 1 == |items| { assert left[k - 1] == items[k - 1]; }
      items := left;
    }

    /** Deletes an element of the table. The table itself goes with its last element. */
    method Delete(x: Node, ghost k: nat)
      requires Valid() && k < |items| && items[k] == x
      modifies this, buckets, items
      ensures Valid() && items == Without(old(items), k) && Map() == old(Map()) - {x.key}
      ensures buckets == old(buckets)
    {
      hide BucketsOk, TableOk, Pow2, UniqueKeys, MapOf, AppList, Without;
      MapWithout(items, k);
      DistinctItems(items);
      AppAt(head, tail, items, k);
      NothingLeft(items, k);
      if x.prev == null && x.next == null {
        head := null;
        items := [];
      } else {
        Unlist(x, k);
      }
    }

    /** Takes an element off the list and out of its bucket; it is not the only one. */
    method Unlist(x: Node, ghost k: nat)
      requires AppList(head, tail, items) && UniqueKeys(items) && numItems == |items|
      requires TableOk() && BucketsOk(buckets[..], chains, Elements(items))
      requires k < |items| && items[k] == x && |items| > 1
      modifies this`head, this`tail, this`items, this`chains, this`numItems, buckets, items
      ensures items == Without(old(items), k) && AppList(head, tail, items) && head != null && numItems == |items|
      ensures BucketsOk(buckets[..], chains, Elements(items))
    {
      hide BucketsOk, TableOk, UniqueKeys, AppList;
      ghost var nodes := Elements(items);
      DistinctItems(items);
      ElementsWithout(items, k);
      hide Without, Distinct, Elements;
      var b := FindBucket(x, nodes);
      Delist(x, k);
      DropFromBucket(x, b, nodes);
      numItems := numItems - 1;
    }

    lemma NothingLeft(items: seq<Node>, k: nat)
      requires k < |items|
      ensures |items| == 1 ==> Without(items, k) == []
    {
    }

    method FindBucket(x: Node, ghost nodes: set<Node>) returns (b: nat)
      requires TableOk() && BucketsOk(buckets[..], chains, nodes) && x in nodes
      ensures b < |chains| == buckets.Length && b == BucketOf(x.hashv, |chains|)
      ensures x in chains[b] && forall y <- chains[b] :: y in nodes
    {
      BucketsNonempty(buckets[..], chains, nodes);
      b := BucketOf(x.hashv, numBuckets);
    }

    method DropFromBucket(x: Node, b: nat, ghost nodes: set<Node>)
      requires b < |chains| == buckets.Length && x in chains[b] && forall y <- chains[b] :: y in nodes
      requires BucketsOk(buckets[..], chains, nodes)
      modifies this`chains, buckets, nodes`hhNext, nodes`hhPrev
      ensures BucketsOk(buckets[..], chains, nodes - {x})
    {
      hide BucketsOk;
      ghost var c :| 0 <= c < |chains[b]| && chains[b][c] == x;
      DelInBkt(buckets, b, x, c, chains, nodes);
      chains := chains[b := Without(chains[b], c)];
    }

    /** The integrity check finds nothing wrong with a valid table: the links mirror each other,
        every bucket's count is the length of its chain, and the chains and the list hold as many
        elements as the table says. */
    method Fsck() returns (ok: bool)
      requires Valid()
      ensures ok
    {
      ok := true;
      if head != null {
        hide BucketsOk, AppList;
        DistinctItems(items);
        hide Keyed;
        var count;
        ok, count := CheckBuckets();
        ok := ok && count == numItems;
        var links, length := CheckList();
        ok := ok && links && length == numItems;
      }
    }

    method CheckBuckets() returns (ok: bool, count: nat)
      requires BucketsOk(buckets[..], chains, Elements(items)) && Keyed() && TableOk()
      ensures ok && count == |items|
    {
      DistinctItems(items);
      hide Keyed, BucketOf, Distinct, Chain;
      ok, count := true, 0;
      Partitioned(buckets[..], chains, Elements(items));
      for i := 0 to numBuckets
        invariant ok && count == |Before(chains, i)|
      {
        assert BucketOk(buckets[..][i], chains[i], i, |chains|);
        var links, length := CheckChain(buckets[i].head, chains[i]);
        count := count + length;
        ok := ok && links && buckets[i].count == length;
        OneChainMore(chains, i, Elements(items));
      }
      ElementsCount(items);
    }

    static method CheckChain(first: Node?, ghost chain: seq<Node>) returns (ok: bool, length: nat)
      requires Chain(first, chain)
      ensures ok && length == |chain|
    {
      var x, prev: Node? := first, null;
      ok, length := true, 0;
      while x != null
        invariant ok && length <= |chain| && x == (if length < |chain| then chain[length] else null)
        invariant prev == if length > 0 then chain[length - 1] else null
        decreases |chain| - length
      {
        ChainAt(first, chain, length);
        ok := ok && x.hhPrev == prev;
        prev, x, length := x, x.hhNext, length + 1;
      }
    }

    method CheckList() returns (ok: bool, length: nat)
      requires AppList(head, tail, items) && Distinct(items)
      ensures ok && length == |items|
    {
      var x, prev: Node? := head, null;
      ok, length := true, 0;
      while x != null
        invariant ok && length <= |items| && x == (if length < |items| then items[length] else null)
        invariant prev == if length > 0 then items[length - 1] else null
        decreases |items| - length
      {
        AppAt(head, tail, items, length);
        ok := ok && x.prev == prev;
        prev, x, length := x, x.next, length + 1;
      }
    }

    lemma ThirtyTwo()
      ensures Pow2(5) == INITIAL_BUCKETS
    {
    }

    lemma DoubleBuckets(e: nat)
      ensures Pow2(e + 1) == 2 * Pow2(e)
    {
    }
  }

  /** The ideal length after doubling: a shift by the logarithm, and one more unless the masked
      bits are all zero. */
  function IdealChain(items: nat, buckets: nat, log2: nat): (ideal: nat)
    requires buckets == Pow2(log2)
    ensures IsCeiling(ideal, items, buckets * 2)
  {
    Ceiling(items, buckets * 2);
    items / Pow2(log2 + 1) + if items % (buckets * 2) != 0 then 1 else 0
  }

  lemma Ceiling(items: nat, n: nat)
    requires n > 0
    ensures IsCeiling(items / n + if items % n != 0 then 1 else 0, items, n)
  {
    var q, r := items / n, items % n;
    assert items == q * n + r;
    Distribute(n, q, 1);
  }
}
