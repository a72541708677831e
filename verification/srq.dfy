/** The shared receive queue: a first-in first-out list of free slots that is threaded
    through the slots themselves. Slots on the list may be posted by software; slots off the
    list are owned by the hardware until a completion gives them back. */
module Srq {
  import opened Words

  const INVALID_LKEY: uint32 := 0x100

  datatype DataSeg = DataSeg(byteCount: uint32, lkey: uint32, address: nat)

  const TERMINATOR := DataSeg(0, INVALID_LKEY, 0)

  datatype RecvRequest = RecvRequest(wrId: nat, sgList: seq<DataSeg>)

  datatype PostError = Posted | TooManySegments | QueueFull

  /** What the hardware reads of a scatter list: everything up to the first terminator. */
  function ScatterList(row: seq<DataSeg>): (list: seq<DataSeg>)
  {
    if row == [] || row[0].lkey == INVALID_LKEY then [] else [row[0]] + ScatterList(row[1..])
  }

  /** Copying a row up to and including its terminator copies the scatter list. */
  lemma {:induction false} ScatterListCopied(from: seq<DataSeg>, to: seq<DataSeg>, n: nat)
    requires |from| == |to| && n <= |from|
    requires forall k :: 0 <= k < n ==> to[k] == from[k]
    requires n == |from| || (n > 0 && from[n - 1].lkey == INVALID_LKEY)
    ensures ScatterList(to) == ScatterList(from)
  {
    if |from| != 0 && from[0].lkey != INVALID_LKEY {
      ScatterListCopied(from[1..], to[1..], n - 1);
    }
  }

  /** A list written without terminators inside and closed when shorter than the row. */
  lemma {:induction false} ScatterListWritten(row: seq<DataSeg>, list: seq<DataSeg>)
    requires |list| <= |row| && list == row[..|list|]
    requires |list| < |row| ==> row[|list|].lkey == INVALID_LKEY
    requires forall k :: 0 <= k < |list| ==> list[k].lkey != INVALID_LKEY
    ensures ScatterList(row) == list
  {
    if list != [] {
      assert row[0] == list[0];
      assert list[1..] == row[1..][..|list| - 1];
      ScatterListWritten(row[1..], list[1..]);
      assert list == [list[0]] + list[1..];
    }
  }

  ghost function Range(n: nat): (s: seq<nat>)
    ensures |s| == n && forall i :: 0 <= i < n ==> s[i] == i
  {
    seq(n, i requires 0 <= i => i)
  }

  ghost function SlotsOf(s: seq<nat>): set<nat> {
    set x | x in s
  }

  lemma {:induction false} RangeCount(max: nat)
    ensures |SlotsOf(Range(max))| == max
  {
    DistinctCount(Range(max));
  }

  lemma {:induction false} DistinctCount(s: seq<nat>)
    requires Distinct(s)
    ensures |SlotsOf(s)| == |s|
  {
    if s != [] {
      DistinctCount(s[1..]);
      assert SlotsOf(s) == {s[0]} + SlotsOf(s[1..]);
      assert s[0] !in s[1..];
    }
  }

  lemma {:induction false} DistinctOnce(s: seq<nat>, x: nat)
    requires Distinct(s)
    ensures multiset(s)[x] == if x in s then 1 else 0
  {
    if s != [] {
      DistinctOnce(s[1..], x);
      assert s == [s[0]] + s[1..];
      assert s[0] !in s[1..];
    }
  }

  lemma RangeOnce(max: nat, x: nat)
    ensures multiset(Range(max))[x] == if x < max then 1 else 0
    ensures x in Range(max) <==> x < max
  {
    DistinctOnce(Range(max), x);
    if x < max {
      assert Range(max)[x] == x;
    }
  }

  /** The free list runs from head to tail through the links of distinct slots. */
  ghost predicate Chain(next: seq<uint16>, free: seq<nat>, head: nat, tail: nat) {
    && free != [] && Distinct(free)
    && (forall i :: 0 <= i < |free| ==> free[i] < |next|)
    && head == free[0] && tail == free[|free| - 1]
    && (forall i {:trigger next[free[i]]} :: 0 <= i < |free| - 1 ==> next[free[i]] == free[i + 1])
  }

  lemma ChainAppend(next: seq<uint16>, free: seq<nat>, head: nat, tail: nat, ind: uint16)
    requires Chain(next, free, head, tail) && ind < |next| && ind !in free
    ensures Chain(next[tail := ind], free + [ind], head, ind)
  {
    var free', next' := free + [ind], next[tail := ind];
    forall i | 0 <= i < |free'| - 1
      ensures next'[free'[i]] == free'[i + 1]
    {
      assert free'[i] == free[i];
      if i < |free| - 1 {
        assert free[i] != tail && free'[i + 1] == free[i + 1];
      }
    }
  }

  lemma ChainTake(next: seq<uint16>, free: seq<nat>, head: nat, tail: nat)
    requires Chain(next, free, head, tail)
    ensures head != tail <==> |free| > 1
    ensures |free| > 1 ==> Chain(next, free[1..], next[head], tail)
  {
    if |free| > 1 {
      assert free[0] != free[|free| - 1];
      var rest := free[1..];
      forall i | 0 <= i < |rest| - 1
        ensures next[rest[i]] == rest[i + 1]
      {
        assert rest[i] == free[i + 1];
      }
    }
  }

  lemma InitialChain(next: seq<uint16>)
    requires next != [] && forall k :: 0 <= k < |next| ==> next[k] == (k + 1) % |next|
    ensures Chain(next, Range(|next|), 0, |next| - 1)
  {
    var free := Range(|next|);
    forall i | 0 <= i < |free| - 1
      ensures next[free[i]] == free[i + 1]
    {
      assert free[i] == i && free[i + 1] == i + 1;
    }
  }

  class SharedReceiveQueue {
    const max: nat
    const maxGs: nat
    const nextIndex: array<uint16>
    const wrid: array<nat>
    const scatter: array<seq<DataSeg>>
    var head: nat
    var tail: nat
    var counter: nat
    ghost var free: seq<nat>
    // every slot handed to the hardware and every slot given back, in order
    ghost var issued: seq<nat>
    ghost var returned: seq<nat>

    ghost predicate Valid()
      reads this, nextIndex, scatter
    {
      && 0 < max <= 0x1_0000
      && nextIndex.Length == wrid.Length == scatter.Length == max
      && (forall i :: 0 <= i < max ==> |scatter[i]| == maxGs)
      && Chain(nextIndex[..], free, head, tail)
      && issued + free == Range(max) + returned
    }

    /** A slot is posted when it was handed to the hardware more often than it came back. */
    ghost predicate IsPosted(slot: nat)
      reads this
    {
      multiset(issued)[slot] > multiset(returned)[slot]
    }

    ghost function PostedSlots(): set<nat>
      reads this
    {
      set x | x in issued && IsPosted(x)
    }

    /** Every slot of the buffer has come back as often as it was handed out, and is then free, or
        once less, and then it is not. */
    lemma CameBack(x: nat)
      requires Valid()
      ensures x < max && x !in free <==> multiset(issued)[x] == multiset(returned)[x] + 1
      ensures x >= max || x in free <==> multiset(issued)[x] == multiset(returned)[x]
      ensures IsPosted(x) <==> x < max && x !in free
    {
      Occurrences(issued, free, Range(max), returned, x);
      RangeOnce(max, x);
      DistinctOnce(free, x);
      FreeFacts();
    }

    static lemma Occurrences(a: seq<nat>, b: seq<nat>, c: seq<nat>, d: seq<nat>, x: nat)
      requires a + b == c + d
      ensures multiset(a)[x] + multiset(b)[x] == multiset(c)[x] + multiset(d)[x]
    {
      CountBoth(a, b, x);
      CountBoth(c, d, x);
    }

    static lemma CountBoth(a: seq<nat>, b: seq<nat>, x: nat)
      ensures multiset(a + b)[x] == multiset(a)[x] + multiset(b)[x]
    {
      assert multiset(a + b) == multiset(a) + multiset(b);
    }

    /** Free slots and slots that are with the hardware partition the buffer, and at least one slot
        is always free. */
    lemma Partition()
      requires Valid()
      ensures PostedSlots() + SlotsOf(free) == SlotsOf(Range(max)) && PostedSlots() !! SlotsOf(free)
      ensures |PostedSlots()| == max - |free| <= max - 1
    {
      hide SharedReceiveQueue.PostedSlots, Range, SlotsOf, Distinct;
      PostedIsRest();
      RangeCount(max);
      FreeFacts();
      DistinctCount(free);
      FreeInRange(max, free);
      RestCount(SlotsOf(Range(max)), SlotsOf(free));
    }

    static lemma RestCount(all: set<nat>, part: set<nat>)
      requires part <= all
      ensures (all - part) + part == all && (all - part) !! part && |all - part| == |all| - |part|
    {
    }

    lemma PostedIsRest()
      requires Valid()
      ensures PostedSlots() == SlotsOf(Range(max)) - SlotsOf(free)
    {
      hide SharedReceiveQueue.Valid, Range, SharedReceiveQueue.IsPosted;
      forall x: nat
        ensures x in PostedSlots() <==> x in SlotsOf(Range(max)) - SlotsOf(free)
      {
        CameBack(x);
        RangeOnce(max, x);
        if IsPosted(x) {
          PostedIsIssued(x);
        }
      }
    }

    lemma PostedIsIssued(x: nat)
      requires IsPosted(x)
      ensures x in issued
    {
    }

    static lemma FreeInRange(max: nat, free: seq<nat>)
      requires forall x <- free :: x < max
      ensures SlotsOf(free) <= SlotsOf(Range(max))
    {
      forall x | x in SlotsOf(free)
        ensures x in SlotsOf(Range(max))
      {
        assert Range(max)[x] == x;
      }
    }

    /** Slots go to the hardware in the order in which they came back. */
    lemma FirstInFirstOut(k: nat)
      requires Valid() && k < |issued|
      ensures |issued| == max - |free| + |returned|
      ensures issued[k] == if k < max then k else returned[k - max]
    {
      assert |issued + free| == |Range(max) + returned|;
      assert issued[k] == (issued + free)[k];
    }

    constructor (max: nat, maxGs: nat)
      requires 0 < max <= 0x1_0000
      ensures Valid() && this.max == max && this.maxGs == maxGs
      ensures free == Range(max) && issued == [] && returned == []
      ensures fresh(nextIndex) && fresh(wrid) && fresh(scatter)
    {
      this.max := max;
      this.maxGs := maxGs;
      nextIndex := new uint16[max];
      wrid := new nat[max];
      scatter := new seq<DataSeg>[max](_ => seq(maxGs, _ => DataSeg(0, 0, 0)));
      head := 0;
      tail := max - 1;
      counter := 0;
      free := Range(max);
      issued := [];
      returned := [];
      new;
      var i := 0;
      while i < max
        invariant 0 <= i <= max
        invariant forall k :: 0 <= k < i ==> nextIndex[k] == (k + 1) % max
        modifies nextIndex
      {
        nextIndex[i] := (i + 1) % max;
        i := i + 1;
      }
      InitialChain(nextIndex[..]);
    }

    /** Gives a slot back: it goes to the end of the list. */
    method FreeWqe(ind: nat)
      requires Valid() && IsPosted(ind)
      modifies this`tail, this`free, this`returned, nextIndex
      ensures Valid()
      ensures free == old(free) + [ind] && returned == old(returned) + [ind]
    {
      CameBack(ind);
      ChainAppend(nextIndex[..], free, head, tail, ind);
      nextIndex[tail] := ind % 0x1_0000;
      assert nextIndex[..] == old(nextIndex[..])[tail := ind];
      tail := ind;
      free := free + [ind];
      returned := returned + [ind];
      assert issued + free == old(issued + free) + [ind];
    }

    /** Hands a completed slot's request straight back to the hardware in another slot. */
    method Requeue(ind: nat) returns (slot: nat)
      requires Valid() && IsPosted(ind)
      modifies this, nextIndex, wrid, scatter
      ensures Valid() && slot == old(head) && slot != ind
      ensures free == (old(free) + [ind])[1..]
      ensures returned == old(returned) + [ind] && issued == old(issued) + [slot]
      ensures PostedSlots() == old(PostedSlots()) - {ind} + {slot}
      ensures |PostedSlots()| == old(|PostedSlots()|)
      ensures wrid[..] == old(wrid[..])[slot := old(wrid[ind])]
      ensures ScatterList(scatter[slot]) == old(ScatterList(scatter[ind]))
      ensures forall i :: 0 <= i < max && i != slot ==> scatter[i] == old(scatter[i])
      ensures counter == old(counter) + 1
    {
      Partition();
      PostedIsRest();
      CameBack(ind);
      FreeFacts();
      PostedRotated(max, free, ind);
      hide SharedReceiveQueue.Valid, ScatterList, Distinct;
      slot := MoveRequest(ind);
      Partition();
      PostedIsRest();
      assert |free| == |old(free)|;
    }

    method MoveRequest(ind: nat) returns (slot: nat)
      requires Valid() && IsPosted(ind)
      modifies this, nextIndex, wrid, scatter
      ensures Valid() && slot == old(head) == old(free)[0] && slot != ind
      ensures free == (old(free) + [ind])[1..]
      ensures returned == old(returned) + [ind] && issued == old(issued) + [slot]
      ensures wrid[..] == old(wrid[..])[slot := old(wrid[ind])]
      ensures ScatterList(scatter[slot]) == old(ScatterList(scatter[ind]))
      ensures forall i :: 0 <= i < max && i != slot ==> scatter[i] == old(scatter[i])
      ensures counter == old(counter) + 1
    {
      hide Distinct, ScatterList;
      CameBack(ind);
      wrid[head] := wrid[ind];
      slot := Rotate(ind);
      CopyScatter(ind, slot);
      counter := counter + 1;
    }

    lemma FreeFacts()
      requires Valid()
      ensures free != [] && Distinct(free) && forall x <- free :: x < max
    {
    }

    static lemma PostedRotated(max: nat, free: seq<nat>, ind: nat)
      requires free != [] && Distinct(free) && ind !in free && ind < max && forall x <- free :: x < max
      ensures var all := SlotsOf(Range(max));
        all - SlotsOf((free + [ind])[1..]) == all - SlotsOf(free) - {ind} + {free[0]}
    {
      SlotsOfRotated(free, ind);
      assert free[0] in free;
      assert Range(max)[ind] == ind && Range(max)[free[0]] == free[0];
    }

    /** Appends a slot to the list, then takes the head; the list may hold one slot only. */
    method Rotate(ind: nat) returns (slot: nat)
      requires Valid() && IsPosted(ind)
      modifies this`head, this`tail, this`free, this`issued, this`returned, nextIndex
      ensures Valid() && slot == old(head) && slot != ind
      ensures free == (old(free) + [ind])[1..]
      ensures returned == old(returned) + [ind] && issued == old(issued) + [slot]
    {
      CameBack(ind);
      ChainAppend(nextIndex[..], free, head, tail, ind);
      ChainTake(nextIndex[..][tail := ind], free + [ind], head, ind);
      nextIndex[tail] := ind % 0x1_0000;
      assert nextIndex[..] == old(nextIndex[..])[tail := ind];
      tail := ind;
      slot := head;
      head := nextIndex[slot];
      free := (free + [ind])[1..];
      returned := returned + [ind];
      issued := issued + [slot];
      assert issued + free == old(issued + free) + [ind];
    }

    static lemma SlotsOfRotated(free: seq<nat>, ind: nat)
      requires free != [] && Distinct(free) && ind !in free
      ensures SlotsOf((free + [ind])[1..]) == SlotsOf(free) - {free[0]} + {ind}
    {
      var s := (free + [ind])[1..];
      assert s == free[1..] + [ind];
      assert free == [free[0]] + free[1..];
      assert free[0] !in free[1..];
    }

    /** Copies a scatter list up to and including its terminator. */
    method CopyScatter(from: nat, to: nat)
      requires from < scatter.Length && to < scatter.Length && from != to
      requires |scatter[from]| == |scatter[to]| == maxGs
      modifies scatter
      ensures |scatter[to]| == maxGs && ScatterList(scatter[to]) == old(ScatterList(scatter[from]))
      ensures forall i :: 0 <= i < scatter.Length && i != to ==> scatter[i] == old(scatter[i])
    {
      var i := 0;
      while i < maxGs
        invariant 0 <= i <= maxGs && |scatter[to]| == maxGs == |scatter[from]|
        invariant forall k :: 0 <= k < i ==> scatter[to][k] == scatter[from][k]
        invariant forall r :: 0 <= r < scatter.Length && r != to ==> scatter[r] == old(scatter[r])
      {
        scatter[to] := scatter[to][i := scatter[from][i]];
        i := i + 1;
        if scatter[from][i - 1].lkey == INVALID_LKEY {
          break;
        }
      }
      ScatterListCopied(scatter[from], scatter[to], i);
    }

    /** The scatter list of a request as it lies in the slot it was posted to. */
    ghost predicate Holds(slot: nat, wr: RecvRequest)
      reads wrid, scatter
    {
      && slot < wrid.Length == scatter.Length
      && wrid[slot] == wr.wrId
      && ((forall k :: 0 <= k < |wr.sgList| ==> wr.sgList[k].lkey != INVALID_LKEY)
          ==> ScatterList(scatter[slot]) == wr.sgList)
    }

    method WriteScatter(slot: nat, list: seq<DataSeg>)
      requires slot < scatter.Length && |list| <= |scatter[slot]| == maxGs
      modifies scatter
      ensures |scatter[slot]| == maxGs
      ensures (forall k :: 0 <= k < |list| ==> list[k].lkey != INVALID_LKEY) ==> ScatterList(scatter[slot]) == list
      ensures forall i :: 0 <= i < scatter.Length && i != slot ==> scatter[i] == old(scatter[i])
    {
      var i := 0;
      while i < |list|
        invariant 0 <= i <= |list| && |scatter[slot]| == maxGs
        invariant scatter[slot][..i] == list[..i]
        invariant forall r :: 0 <= r < scatter.Length && r != slot ==> scatter[r] == old(scatter[r])
      {
        scatter[slot] := scatter[slot][i := list[i]];
        i := i + 1;
      }
      if i < maxGs {
        scatter[slot] := scatter[slot][i := TERMINATOR];
      }
      if forall k :: 0 <= k < |list| ==> list[k].lkey != INVALID_LKEY {
        ScatterListWritten(scatter[slot], list);
      }
    }

    /** Takes the head of the free list for one request. */
    method PostOne(wr: RecvRequest) returns (err: PostError)
      requires Valid()
      modifies this`head, this`free, this`issued, wrid, scatter
      ensures Valid()
      ensures err == if |wr.sgList| > maxGs then TooManySegments else if |old(free)| == 1 then QueueFull else Posted
      ensures err != Posted ==> unchanged(this, wrid, scatter)
      ensures err == Posted ==>
                && free == old(free)[1..] && issued == old(issued) + [old(free)[0]]
                && Holds(old(free)[0], wr)
                && (forall i :: 0 <= i < max && i != old(free)[0] ==>
                  wrid[i] == old(wrid[i]) && scatter[i] == old(scatter[i]))
    {
      ChainTake(nextIndex[..], free, head, tail);
      if |wr.sgList| > maxGs {
        return TooManySegments;
      }
      var slot := head;
      if slot == tail {
        return QueueFull;
      }
      wrid[slot] := wr.wrId;
      head := nextIndex[slot];
      issued := issued + [slot];
      free := free[1..];
      assert issued + free == old(issued + free);
      WriteScatter(slot, wr.sgList);
      return Posted;
    }

    lemma Lengths()
      requires Valid()
      ensures nextIndex.Length == wrid.Length == scatter.Length == max
    {
    }

    static lemma Apart(free: seq<nat>, n: nat)
      requires Distinct(free) && n < |free|
      ensures free[n] !in free[..n] && forall k :: 0 <= k < n ==> free[k] != free[n] && free[k] in free[..n]
    {
    }

    /** Posts a chain of receive requests, stopping at the first one that cannot be taken. */
    method PostRecv(wrs: seq<RecvRequest>) returns (err: PostError, n: nat)
      requires Valid()
      modifies this`head, this`free, this`issued, this`counter, wrid, scatter
      ensures Valid() && n <= |wrs| && n < |old(free)|
      ensures err == Posted <==> n == |wrs|
      ensures err == TooManySegments <==> n < |wrs| && |wrs[n].sgList| > maxGs
      ensures err == QueueFull <==> n < |wrs| && |wrs[n].sgList| <= maxGs && n == |old(free)| - 1
      ensures forall k :: 0 <= k < n ==> |wrs[k].sgList| <= maxGs
      ensures free == old(free)[n..] && issued == old(issued) + old(free)[..n]
      ensures forall k :: 0 <= k < n ==> Holds(old(free)[k], wrs[k])
      ensures forall i :: 0 <= i < max && i !in old(free)[..n] ==>
              wrid[i] == old(wrid[i]) && scatter[i] == old(scatter[i])
      ensures counter == old(counter) + n
    {
      ghost var was, wrid0, scatter0 := free, wrid[..], scatter[..];
      FreeFacts();
      Lengths();
      hide SharedReceiveQueue.Valid, ScatterList, Distinct, PostedFrom, Holds;
      err, n := PostEach(wrs, was, wrid0, scatter0);
      PostedParts(was, wrs, n, wrid0, scatter0);
      counter := counter + n;
    }

    method PostEach(wrs: seq<RecvRequest>, ghost was: seq<nat>, ghost wrid0: seq<nat>,
                    ghost scatter0: seq<seq<DataSeg>>)
      returns (err: PostError, n: nat)
      requires Valid() && was == free && was != [] && Distinct(was)
      requires wrid[..] == wrid0 && scatter[..] == scatter0 && |wrid0| == |scatter0|
      modifies this`head, this`free, this`issued, wrid, scatter
      ensures Valid() && n <= |wrs| && n < |was|
      ensures err == if n == |wrs| then Posted else if |wrs[n].sgList| > maxGs then TooManySegments else QueueFull
      ensures err == QueueFull ==> n == |was| - 1
      ensures forall k :: 0 <= k < n ==> |wrs[k].sgList| <= maxGs
      ensures free == was[n..] && issued == old(issued) + was[..n]
      ensures PostedFrom(was, wrs, n, wrid0, scatter0)
    {
      hide SharedReceiveQueue.Valid, ScatterList, Distinct, PostedFrom, Holds;
      NonePosted(was, wrs);
      n := 0;
      err := Posted;
      while n < |wrs|
        invariant 0 <= n <= |wrs| && n < |was|
        invariant Valid() && err == Posted
        invariant free == was[n..] && issued == old(issued) + was[..n]
        invariant forall k :: 0 <= k < n ==> |wrs[k].sgList| <= maxGs
        invariant PostedFrom(was, wrs, n, wrid0, scatter0)
      {
        err := PostNext(wrs[n], was, wrs, n, wrid0, scatter0);
        if err != Posted {
          break;
        }
        OneFurther(old(issued), was, n);
        n := n + 1;
      }
    }

    static lemma OneFurther(issued: seq<nat>, was: seq<nat>, n: nat)
      requires n < |was|
      ensures issued + was[..n] + [was[n]] == issued + was[..n + 1]
    {
    }

    lemma NonePosted(was: seq<nat>, wrs: seq<RecvRequest>)
      requires wrid.Length == scatter.Length
      ensures PostedFrom(was, wrs, 0, wrid[..], scatter[..])
    {
    }

    lemma PostedParts(was: seq<nat>, wrs: seq<RecvRequest>, n: nat, wrid0: seq<nat>, scatter0: seq<seq<DataSeg>>)
      requires PostedFrom(was, wrs, n, wrid0, scatter0)
      ensures n <= |was| && n <= |wrs| && wrid.Length == scatter.Length == |wrid0| == |scatter0|
      ensures forall k :: 0 <= k < n ==> Holds(was[k], wrs[k])
      ensures forall i :: 0 <= i < wrid.Length && i !in was[..n] ==> wrid[i] == wrid0[i] && scatter[i] == scatter0[i]
    {
    }

    /** The first requests lie in the first slots that were free, and nothing else has changed. */
    ghost predicate PostedFrom(was: seq<nat>, wrs: seq<RecvRequest>, n: nat, wrid0: seq<nat>,
                               scatter0: seq<seq<DataSeg>>)
      reads wrid, scatter
    {
      && n <= |was| && n <= |wrs| && wrid.Length == scatter.Length == |wrid0| == |scatter0|
      && (forall k :: 0 <= k < n ==> Holds(was[k], wrs[k]))
      && forall i :: 0 <= i < wrid.Length && i !in was[..n] ==> wrid[i] == wrid0[i] && scatter[i] == scatter0[i]
    }

    method PostNext(wr: RecvRequest, ghost was: seq<nat>, ghost wrs: seq<RecvRequest>, ghost n: nat,
                    ghost wrid0: seq<nat>, ghost scatter0: seq<seq<DataSeg>>)
      returns (err: PostError)
      requires Valid() && Distinct(was) && n < |was| && n < |wrs| && wr == wrs[n] && free == was[n..]
      requires PostedFrom(was, wrs, n, wrid0, scatter0)
      modifies this`head, this`free, this`issued, wrid, scatter
      ensures Valid()
      ensures err == if |wr.sgList| > maxGs then TooManySegments else if |old(free)| == 1 then QueueFull else Posted
      ensures err != Posted ==> unchanged(this, wrid, scatter)
      ensures err == Posted ==>
        free == was[n + 1..] && issued == old(issued) + [was[n]] && PostedFrom(was, wrs, n + 1, wrid0, scatter0)
    {
      Lengths();
      Apart(was, n);
      hide SharedReceiveQueue.Valid, ScatterList, Distinct;
      err := PostOne(wr);
      if err == Posted {
        assert was[..n + 1] == was[..n] + [was[n]];
      }
    }
  }
}
