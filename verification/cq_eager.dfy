/** Unpacking a session in place: every entry of the session is written to the slot of its own
    index, over the slots that hold the title and the mini entries. */
module CqEager {
  import opened Words
  import opened Cqe
  import opened CqModel

  /** The entries that unpacking writes for the indices from i on in a ring of n slots. */
  function Unpacked(title: Entry, striding: bool, w: uint16, ms: seq<Mini>, i: nat, n: nat): (es: seq<Entry>)
    requires n > 0
    ensures |es| == |ms|
    decreases |ms|
  {
    if ms == [] then [] else
      [Fill(title, w, ms[0]).(format := 0, owner := Owner(i, n))] +
      Unpacked(title, striding, NextCounter(title, striding, w, ms[0]), ms[1..], i + 1, n)
  }

  /** The counter after a run of mini entries. */
  function CounterAfter(title: Entry, striding: bool, w: uint16, ms: seq<Mini>): uint16
    decreases |ms|
  {
    if ms == [] then w else CounterAfter(title, striding, NextCounter(title, striding, w, ms[0]), ms[1..])
  }

  lemma {:induction false} UnpackedAt(title: Entry, striding: bool, w: uint16, ms: seq<Mini>, i: nat, n: nat, k: nat)
    requires n > 0 && k < |ms|
    ensures var e := Unpacked(title, striding, w, ms, i, n)[k];
            && e.opcode == title.opcode && e.format == 0 && e.owner == Owner(i + k, n)
            && Content(e) == Expand(title, striding, w, ms)[k].(format := 0)
    decreases k
  {
    if k != 0 {
      UnpackedAt(title, striding, NextCounter(title, striding, w, ms[0]), ms[1..], i + 1, n, k - 1);
    }
  }

  /** A compressed title stands for entries without inline data. */
  lemma {:induction false} ExpandFormat(title: Entry, striding: bool, w: uint16, ms: seq<Mini>, k: nat)
    requires k < |ms| && title.format == COMPRESSED
    ensures Expand(title, striding, w, ms)[k].format == 0
    decreases k
  {
    if k != 0 {
      ExpandFormat(title, striding, NextCounter(title, striding, w, ms[0]), ms[1..], k - 1);
    }
  }

  lemma {:induction false} UnpackedConcat(title: Entry, striding: bool, w: uint16, a: seq<Mini>, b: seq<Mini>,
                                          i: nat, n: nat)
    requires n > 0
    ensures Unpacked(title, striding, w, a + b, i, n) ==
            Unpacked(title, striding, w, a, i, n) +
            Unpacked(title, striding, CounterAfter(title, striding, w, a), b, i + |a|, n)
    decreases |a|
  {
    if a == [] {
      assert a + b == b;
    } else {
      assert (a + b)[1..] == a[1..] + b;
      UnpackedConcat(title, striding, NextCounter(title, striding, w, a[0]), a[1..], b, i + 1, n);
    }
  }

  lemma {:induction false} CounterAfterConcat(title: Entry, striding: bool, w: uint16, a: seq<Mini>, b: seq<Mini>)
    ensures CounterAfter(title, striding, w, a + b) ==
            CounterAfter(title, striding, CounterAfter(title, striding, w, a), b)
    decreases |a|
  {
    if a == [] {
      assert a + b == b;
    } else {
      assert (a + b)[1..] == a[1..] + b;
      CounterAfterConcat(title, striding, NextCounter(title, striding, w, a[0]), a[1..], b);
    }
  }

  /** Unpacking over a title that has itself been overwritten gives the same entries. */
  lemma {:induction false} UnpackedSameTitle(a: Entry, b: Entry, striding: bool, w: uint16, ms: seq<Mini>, i: nat,
                                             n: nat)
    requires SameTitle(a, b) && n > 0
    ensures Unpacked(a, striding, w, ms, i, n) == Unpacked(b, striding, w, ms, i, n)
    decreases |ms|
  {
    if ms != [] {
      UnpackedSameTitle(a, b, striding, NextCounter(a, striding, w, ms[0]), ms[1..], i + 1, n);
    }
  }

  /** Writes es to the slots from index i on. */
  function WriteAll(r: Ring, i: nat, es: seq<Entry>): (r': Ring)
    ensures |r'| == |r|
  {
    if es == [] then r
    else Put(WriteAll(r, i, es[..|es| - 1]), i + |es| - 1, es[|es| - 1])
  }

  lemma {:induction false} WriteAllEffect(r: Ring, i: nat, es: seq<Entry>)
    requires |es| <= |r|
    ensures forall k :: 0 <= k < |es| ==> At(WriteAll(r, i, es), i + k) == es[k]
    ensures Agree(r, WriteAll(r, i, es), i + |es|, i + |r|)
  {
    if es != [] {
      var n := |es| - 1;
      WriteAllEffect(r, i, es[..n]);
      var q, r' := WriteAll(r, i, es[..n]), WriteAll(r, i, es);
      PutElsewhere(q, i + n, es[n], i, i + n);
      PutElsewhere(q, i + n, es[n], i + |es|, i + |r|);
      forall k | 0 <= k < |es|
        ensures At(r', i + k) == es[k]
      {
        if k < n {
          assert At(q, i + k) == es[..n][k];
          assert At(r', i + k) == At(q, i + k);
        }
      }
      forall j | i + |es| <= j < i + |r|
        ensures At(r', j) == At(r, j)
      {
        assert At(r', j) == At(q, j);
      }
    }
  }

  lemma {:induction false} WriteAllConcat(r: Ring, i: nat, a: seq<Entry>, b: seq<Entry>)
    ensures WriteAll(r, i, a + b) == WriteAll(WriteAll(r, i, a), i + |a|, b)
    decreases |b|
  {
    if b == [] {
      assert a + b == a;
    } else {
      var n := |b| - 1;
      assert (a + b)[..|a| + n] == a + b[..n];
      WriteAllConcat(r, i, a, b[..n]);
    }
  }

  // ---------------------------------------------------------------- rings without sessions

  ghost predicate Plain(r: Ring, lo: nat, hi: nat) {
    forall i {:trigger At(r, i)} :: lo <= i < hi ==> Fresh(r, i) && At(r, i).format != COMPRESSED
  }

  ghost function Entries(r: Ring, lo: nat, hi: nat): (q: seq<Entry>)
    requires lo <= hi
    ensures |q| == hi - lo
  {
    seq(hi - lo, k requires 0 <= k < hi - lo => Content(At(r, lo + k)))
  }

  lemma EntriesHead(r: Ring, lo: nat, hi: nat)
    requires lo < hi
    ensures Entries(r, lo, hi) == [Content(At(r, lo))] + Entries(r, lo + 1, hi)
  {
  }

  lemma EntriesLast(r: Ring, lo: nat, hi: nat)
    requires lo < hi
    ensures Entries(r, lo, hi) == Entries(r, lo, hi - 1) + [Content(At(r, hi - 1))]
  {
  }

  lemma EntriesAgree(r: Ring, r': Ring, lo: nat, hi: nat)
    requires lo <= hi && Agree(r, r', lo, hi)
    ensures Entries(r', lo, hi) == Entries(r, lo, hi)
  {
    assert forall i :: lo <= i < hi ==> At(r', i) == At(r, i);
  }

  lemma PlainTail(r: Ring, lo: nat, hi: nat)
    requires Plain(r, lo, hi)
    ensures Plain(r, lo + 1, hi)
  {
    forall i | lo + 1 <= i < hi
      ensures Fresh(r, i) && At(r, i).format != COMPRESSED
    {
      assert At(r, i) == At(r, i);
    }
  }

  lemma {:induction false} PlainPending(rs: Resources, r: Ring, lo: nat, hi: nat)
    requires lo <= hi && Plain(r, lo, hi)
    ensures Holds(r, lo, hi) && Pending(rs, r, lo, hi) == Entries(r, lo, hi)
    decreases hi - lo
  {
    hide Minis, SessionQueue;
    if lo < hi {
      assert Fresh(r, lo) && At(r, lo).format != COMPRESSED by { assert At(r, lo) == At(r, lo); }
      PlainTail(r, lo, hi);
      PlainPending(rs, r, lo + 1, hi);
      EntriesHead(r, lo, hi);
    }
  }

  // ---------------------------------------------------------------- the session at hand

  /** The state after the rest of the session at hand has been unpacked in place. */
  function ExpandCurrent(s: State): (s': State)
    requires s.cur.idx <= |s.cur.minis| == MINI_ARR_SIZE
  {
    s.(cur := s.cur.(left := 0),
       ring := WriteAll(s.ring, s.cons,
                        Unpacked(s.cur.title, s.cur.striding, s.cur.wqeCnt, Stream(s), s.cons, |s.ring|)))
  }

  /** Entries written over the indices from p up to p + n stand for what the session stood for. */
  lemma WrittenSession(r: Ring, title: Entry, striding: bool, w: uint16, ms: seq<Mini>, p: nat)
    requires title.opcode != INVALID && title.format == COMPRESSED && |ms| <= |r|
    ensures var r' := WriteAll(r, p, Unpacked(title, striding, w, ms, p, |r|));
            && Plain(r', p, p + |ms|) && Entries(r', p, p + |ms|) == Expand(title, striding, w, ms)
            && Agree(r, r', p + |ms|, p + |r|)
  {
    hide Minis, Unpacked, Expand, WriteAll, Fill;
    var es := Unpacked(title, striding, w, ms, p, |r|);
    var r' := WriteAll(r, p, es);
    WriteAllEffect(r, p, es);
    forall i | p <= i < p + |ms|
      ensures Fresh(r', i) && At(r', i).format != COMPRESSED
      ensures Content(At(r', i)) == Expand(title, striding, w, ms)[i - p]
    {
      var k := i - p;
      assert At(r', p + k) == es[k];
      UnpackedAt(title, striding, w, ms, p, |r|, k);
      ExpandFormat(title, striding, w, ms, k);
    }
  }

  /** Unpacking the rest of a session in place keeps every completion and its place in the
      queue, and leaves only plain entries for the indices of the session. */
  lemma ExpandCurrentKeeps(s: State)
    requires Valid(s)
    ensures var s' := ExpandCurrent(s);
            && Valid(s') && Queue(s') == Queue(s)
            && Plain(s'.ring, s.cons, s.cons + s.cur.left)
            && Entries(s'.ring, s.cons, s.cons + s.cur.left) == CurrentQueue(s)
  {
    hide Minis, Unpacked, Expand, WriteAll, Holds, Pending, MiniStream;
    var s', mid := ExpandCurrent(s), s.cons + s.cur.left;
    if s.cur.left == 0 {
      assert Stream(s) == [];
      NothingToWrite(s.ring, s.cons, s.cur.title, s.cur.striding, s.cur.wqeCnt);
      assert s'.ring == s.ring;
      assert s' == s;
      assert Entries(s'.ring, s.cons, mid) == CurrentQueue(s);
    } else {
      WrittenSession(s.ring, s.cur.title, s.cur.striding, s.cur.wqeCnt, Stream(s), s.cons);
      KeepBeyond(s.ring, s'.ring, s.cons, mid, s.prod);
      PendingAgree(s.rs, s.ring, s'.ring, mid, s.prod);
      PlainPending(s.rs, s'.ring, s.cons, mid);
      PendingConcat(s.rs, s'.ring, s.cons, mid, s.prod);
      assert Valid(s');
      assert CurrentQueue(s') == [];
    }
  }

  lemma NothingToWrite(r: Ring, p: nat, title: Entry, striding: bool, w: uint16)
    ensures WriteAll(r, p, Unpacked(title, striding, w, [], p, |r|)) == r
  {
  }

  // ---------------------------------------------------------------- sessions further on

  /** The ring after the session with its title at index p has been unpacked in place. */
  function ExpandAt(rs: Resources, r: Ring, p: nat): (r': Ring)
    ensures |r'| == |r|
  {
    var t := At(r, p);
    WriteAll(r, p, Unpacked(t, IsStriding(rs, t), t.wqeCounter, SessionMinis(r, p, t.byteCnt), p, |r|))
  }

  /** Unpacking a session ahead of the consumer keeps every completion and its place. */
  lemma ExpandAtKeeps(s: State, p: nat)
    requires Valid(s) && s.cur.left == 0 && s.cons <= p < s.prod
    requires Plain(s.ring, s.cons, p) && Holds(s.ring, p, s.prod) && At(s.ring, p).format == COMPRESSED
    ensures var s', mid := s.(ring := ExpandAt(s.rs, s.ring, p)), p + At(s.ring, p).byteCnt;
            && p + 2 <= mid <= s.prod
            && Valid(s') && Queue(s') == Queue(s)
            && Plain(s'.ring, s.cons, mid) && Holds(s'.ring, mid, s.prod)
  {
    hide Minis, Unpacked, Expand, WriteAll, MiniStream;
    var t, r := At(s.ring, p), s.ring;
    var n := t.byteCnt;
    var s', mid := s.(ring := ExpandAt(s.rs, r, p)), p + n;
    assert Holds(r, mid, s.prod);
    WrittenSession(r, t, IsStriding(s.rs, t), t.wqeCounter, SessionMinis(r, p, n), p);
    ExpandAtRest(s, p, mid);
  }

  lemma ExpandAtRest(s: State, p: nat, mid: nat)
    requires Valid(s) && s.cur.left == 0 && s.cons <= p < mid <= s.prod
    requires Plain(s.ring, s.cons, p) && Holds(s.ring, p, s.prod) && At(s.ring, p).format == COMPRESSED
    requires mid == p + At(s.ring, p).byteCnt && Holds(s.ring, mid, s.prod)
    requires var r' := ExpandAt(s.rs, s.ring, p);
             && Plain(r', p, mid) && Entries(r', p, mid) == SessionQueue(s.rs, s.ring, p)
             && Agree(s.ring, r', mid, p + |s.ring|)
    ensures var s' := s.(ring := ExpandAt(s.rs, s.ring, p));
            && Valid(s') && Queue(s') == Queue(s)
            && Plain(s'.ring, s.cons, mid) && Holds(s'.ring, mid, s.prod)
  {
    hide Minis, Unpacked, Expand, WriteAll, Holds, MiniStream, ExpandAt, SessionQueue, Pending;
    var r, r' := s.ring, ExpandAt(s.rs, s.ring, p);
    var s' := s.(ring := r');
    AgreeEarlier(r, r', s.cons, p, mid);
    KeepBeyond(r, r', s.cons, mid, s.prod);
    PendingAgree(s.rs, r, r', mid, s.prod);
    PlainAgree(r, r', s.cons, p, mid);
    PlainPending(s.rs, r', s.cons, mid);
    PendingConcat(s.rs, r', s.cons, mid, s.prod);
    QueueBeforeSession(s, p, mid);
    assert Entries(r', s.cons, mid) == Entries(r, s.cons, p) + Entries(r', p, mid);
    assert CurrentQueue(s') == [];
    assert Queue(s') == Entries(r', s.cons, mid) + Pending(s.rs, r, mid, s.prod);
  }

  lemma QueueBeforeSession(s: State, p: nat, mid: nat)
    requires Valid(s) && s.cur.left == 0 && s.cons <= p < mid <= s.prod
    requires Plain(s.ring, s.cons, p) && Holds(s.ring, p, s.prod) && At(s.ring, p).format == COMPRESSED
    requires mid == p + At(s.ring, p).byteCnt && Holds(s.ring, mid, s.prod)
    ensures Queue(s) == Entries(s.ring, s.cons, p) + SessionQueue(s.rs, s.ring, p) + Pending(s.rs, s.ring, mid, s.prod)
  {
    hide Minis, Expand, Holds, MiniStream, SessionQueue, Pending, CurrentQueue, Plain, NothingBeyond;
    PlainPending(s.rs, s.ring, s.cons, p);
    PendingConcat(s.rs, s.ring, s.cons, p, s.prod);
    NoneCurrent(s);
    PendingSession(s.rs, s.ring, p, s.prod);
  }

  lemma NoneCurrent(s: State)
    requires CurrentValid(s) && s.cur.left == 0
    ensures CurrentQueue(s) == []
  {
  }

  lemma PendingSession(rs: Resources, r: Ring, p: nat, prod: nat)
    requires p < prod && Holds(r, p, prod) && At(r, p).format == COMPRESSED
    ensures Holds(r, p + At(r, p).byteCnt, prod)
    ensures Pending(rs, r, p, prod) == SessionQueue(rs, r, p) + Pending(rs, r, p + At(r, p).byteCnt, prod)
  {
    hide SessionQueue, Minis;
  }

  lemma PlainAgree(r: Ring, r': Ring, lo: nat, p: nat, hi: nat)
    requires Plain(r, lo, p) && Agree(r, r', lo, p) && Plain(r', p, hi)
    ensures Plain(r', lo, hi)
    ensures lo <= p ==> Entries(r', lo, p) == Entries(r, lo, p)
  {
    forall i | lo <= i < hi
      ensures Fresh(r', i) && At(r', i).format != COMPRESSED
    {
      if i < p { assert At(r', i) == At(r, i); } else { assert At(r', i) == At(r', i); }
    }
    if lo <= p {
      EntriesAgree(r, r', lo, p);
    }
  }

  // ---------------------------------------------------------------- lazy and eager agree

  /** The state and the contents delivered after n polls. */
  ghost function Polls(s: State, n: nat): (p: (State, seq<Entry>))
    requires Valid(s) && n <= s.prod - s.cons
    ensures Valid(p.0) && p.0.cons == s.cons + n && p.0.prod == s.prod && |p.1| == n
    decreases n
  {
    if n == 0 then (s, [])
    else
      PollIsDequeue(s);
      var (s1, d) := Poll(s);
      var (s2, rest) := Polls(s1, n - 1);
      (s2, [Content(d.value)] + rest)
  }

  lemma {:induction false} PollsAreDequeues(s: State, n: nat)
    requires Valid(s) && n <= s.prod - s.cons
    ensures var (s', d) := Polls(s, n);
            && Valid(s') && s'.cons == s.cons + n && s'.prod == s.prod && |s'.ring| == |s.ring|
            && d == Queue(s)[..n] && Queue(s') == Queue(s)[n..]
    decreases n
  {
    hide Minis, Expand, MiniStream, Holds, Pending, Poll, Queue;
    if n == 0 {
      assert Queue(s)[..0] == [] && Queue(s)[0..] == Queue(s);
    } else {
      PollIsDequeue(s);
      PollsAreDequeues(Poll(s).0, n - 1);
      var q := Queue(s);
      assert q[1..][..n - 1] == q[1..n] && q[1..][n - 1..] == q[n..];
      assert [q[0]] + q[1..n] == q[..n];
    }
  }

  /** After any number of lazy polls, unpacking the rest of the session in place leaves, in
      order, the completions that further lazy polls would deliver. */
  lemma LazyAndEagerAgree(s: State, n: nat)
    requires Valid(s) && n <= s.prod - s.cons
    ensures var s1 := Polls(s, n).0;
            var k := s1.cur.left;
            && Valid(s1) && k <= s1.prod - s1.cons
            && Entries(ExpandCurrent(s1).ring, s1.cons, s1.cons + k) == Polls(s1, k).1
            && Polls(s, n).1 + Polls(s1, k).1 == Queue(s)[..n + k]
  {
    hide Minis, Expand, MiniStream, Holds, Pending, Poll, Unpacked, WriteAll, Polls, ExpandCurrent;
    PollsAreDequeues(s, n);
    var s1 := Polls(s, n).0;
    var k := s1.cur.left;
    PollsAreDequeues(s1, k);
    ExpandCurrentKeeps(s1);
    assert Queue(s1)[..k] == CurrentQueue(s1);
    var q := Queue(s);
    assert q[n..][..k] == q[n..n + k] && q[..n] + q[n..n + k] == q[..n + k];
  }
}
