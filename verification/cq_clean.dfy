/** Removing the entries of one resource: a backward sweep over a ring without sessions that
    moves the entries to be kept towards the producer, over the entries to be removed. */
module CqClean {
  import opened Words
  import opened Cqe
  import opened CqModel
  import opened CqEager

  predicate Matches(rs: Resources, id: nat, e: Entry) {
    ResourceOf(rs, e) == id
  }

  /** Whether a removed entry stands for a receive request of the shared queue. */
  predicate ReturnsWqe(rs: Resources, e: Entry) {
    if rs.cqeVersion then IsResponder(e.opcode) else e.srqnUidx % 0x100_0000 != 0
  }

  /** The completions of other resources, in order. */
  function Keep(rs: Resources, id: nat, q: seq<Entry>): (k: seq<Entry>)
    ensures |k| <= |q|
  {
    if q == [] then [] else (if Matches(rs, id, q[0]) then [] else [q[0]]) + Keep(rs, id, q[1..])
  }

  /** The receive requests that removed completions give back, last one first. */
  function Freed(rs: Resources, id: nat, q: seq<Entry>): seq<nat> {
    if q == [] then []
    else Freed(rs, id, q[1..]) + if Matches(rs, id, q[0]) && ReturnsWqe(rs, q[0]) then [q[0].wqeCounter as nat] else []
  }

  /** After the indices from i up to hi have been swept and f of their entries removed. */
  ghost predicate Swept(rs: Resources, id: nat, r0: Ring, r: Ring, lo: nat, i: nat, hi: nat, f: nat) {
    && lo <= i && i + f <= hi <= lo + |r0| && |r| == |r0|
    && Agree(r0, r, lo, i)
    && Agree(r0, r, hi, lo + |r0|)
    && Marked(r, i, i + f)
    && Plain(r, i + f, hi)
    && Entries(r, i + f, hi) == Keep(rs, id, Entries(r0, i, hi))
  }

  lemma SweepStart(rs: Resources, id: nat, r: Ring, lo: nat, hi: nat)
    requires lo <= hi <= lo + |r|
    ensures Swept(rs, id, r, r, lo, hi, hi, 0)
  {
  }

  /** One step of the sweep: index i is removed, or its entry moves f slots on. */
  function SweepStep(rs: Resources, id: nat, r: Ring, i: nat, f: nat): (Ring, nat) {
    var e := At(r, i);
    if Matches(rs, id, e) then (r, f + 1)
    else if f > 0 then (Put(r, i + f, e.(owner := At(r, i + f).owner)), f)
    else (r, f)
  }

  lemma SweepStepKeeps(rs: Resources, id: nat, r0: Ring, r: Ring, lo: nat, i: nat, hi: nat, f: nat)
    requires Swept(rs, id, r0, r, lo, i + 1, hi, f) && lo <= i && Plain(r0, lo, hi)
    ensures var (r', f') := SweepStep(rs, id, r, i, f);
            Swept(rs, id, r0, r', lo, i, hi, f')
  {
    hide Minis, Matches;
    var (r', f') := SweepStep(rs, id, r, i, f);
    var e := At(r, i);
    assert e == At(r0, i);
    assert Fresh(r0, i) && e.format != COMPRESSED;
    EntriesHead(r0, i, hi);
    assert Matches(rs, id, Content(e)) == Matches(rs, id, e) by { MatchesContent(rs, id, e); }
    if Matches(rs, id, e) || f == 0 {
      SweepInPlace(rs, id, r0, r, lo, i, hi, f);
    } else {
      SweepMoved(rs, id, r0, r, lo, i, hi, f);
    }
  }

  /** Moving an entry over a slot that keeps its own owner bit. */
  lemma MovedEntry(r0: Ring, r: Ring, lo: nat, i: nat, hi: nat, f: nat)
    requires lo <= i && i + 1 + f <= hi <= lo + |r0| && |r| == |r0| && f > 0
    requires Agree(r0, r, lo, i + 1) && Agree(r0, r, hi, lo + |r0|)
    requires Marked(r, i + 1, i + 1 + f) && Plain(r, i + 1 + f, hi) && Plain(r0, lo, hi)
    ensures var t := i + f;
            var r' := Put(r, t, At(r, i).(owner := At(r, t).owner));
            && Agree(r0, r', lo, i) && Agree(r0, r', hi, lo + |r0|)
            && Marked(r', i, t) && Plain(r', t, hi)
            && Agree(r, r', t + 1, hi) && Content(At(r', t)) == Content(At(r, i))
  {
    hide Minis;
    var e, t := At(r, i), i + f;
    var e' := e.(owner := At(r, t).owner);
    var r' := Put(r, t, e');
    assert e == At(r0, i);
    assert Fresh(r0, i) && e.format != COMPRESSED;
    assert At(r, t).owner == Owner(t, |r|);
    PutElsewhere(r, t, e', lo, t);
    PutElsewhere(r, t, e', t + 1, lo + |r|);
    assert At(r', t) == e';
    forall j | lo <= j < i ensures At(r', j) == At(r0, j) { assert At(r', j) == At(r, j) == At(r0, j); }
    forall j | hi <= j < lo + |r0| ensures At(r', j) == At(r0, j) { assert At(r', j) == At(r, j) == At(r0, j); }
    forall j | i <= j < i + f
      ensures At(r', j).owner == Owner(j, |r'|)
    {
      assert At(r', j) == At(r, j);
    }
    forall j | t <= j < hi
      ensures Fresh(r', j) && At(r', j).format != COMPRESSED
    {
      if j > t { assert At(r', j) == At(r, j); }
    }
  }

  lemma MatchesContent(rs: Resources, id: nat, e: Entry)
    ensures Matches(rs, id, Content(e)) == Matches(rs, id, e)
    ensures ReturnsWqe(rs, Content(e)) == ReturnsWqe(rs, e)
  {
  }

  lemma SweepInPlace(rs: Resources, id: nat, r0: Ring, r: Ring, lo: nat, i: nat, hi: nat, f: nat)
    requires Swept(rs, id, r0, r, lo, i + 1, hi, f) && lo <= i && Plain(r0, lo, hi)
    requires Matches(rs, id, At(r, i)) || f == 0
    requires Entries(r0, i, hi) == [Content(At(r, i))] + Entries(r0, i + 1, hi)
    requires Matches(rs, id, Content(At(r, i))) == Matches(rs, id, At(r, i))
    ensures Swept(rs, id, r0, r, lo, i, hi, if Matches(rs, id, At(r, i)) then f + 1 else f)
  {
    hide Minis, Matches;
    assert At(r, i) == At(r0, i);
    assert Fresh(r0, i) && At(r0, i).format != COMPRESSED;
    if Matches(rs, id, At(r, i)) {
      forall j | i <= j < i + 1 + f
        ensures At(r, j).owner == Owner(j, |r|)
      {
        if j > i { assert At(r, j) == At(r, j); }
      }
    } else {
      forall j | i <= j < hi
        ensures Fresh(r, j) && At(r, j).format != COMPRESSED
      {
        if j > i { assert At(r, j) == At(r, j); }
      }
      EntriesHead(r, i, hi);
    }
  }

  lemma SweepMoved(rs: Resources, id: nat, r0: Ring, r: Ring, lo: nat, i: nat, hi: nat, f: nat)
    requires Swept(rs, id, r0, r, lo, i + 1, hi, f) && lo <= i && Plain(r0, lo, hi)
    requires !Matches(rs, id, At(r, i)) && f > 0
    requires Entries(r0, i, hi) == [Content(At(r, i))] + Entries(r0, i + 1, hi)
    requires Matches(rs, id, Content(At(r, i))) == Matches(rs, id, At(r, i))
    ensures Swept(rs, id, r0, SweepStep(rs, id, r, i, f).0, lo, i, hi, f)
  {
    hide Minis, Matches, Keep;
    var e, t := At(r, i), i + f;
    MovedEntry(r0, r, lo, i, hi, f);
    var r' := Put(r, t, e.(owner := At(r, t).owner));
    EntriesHead(r', t, hi);
    EntriesAgree(r, r', t + 1, hi);
    KeepStep(rs, id, Content(e), Entries(r0, i + 1, hi));
  }

  lemma KeepStep(rs: Resources, id: nat, e: Entry, q: seq<Entry>)
    ensures Keep(rs, id, [e] + q) == (if Matches(rs, id, e) then [] else [e]) + Keep(rs, id, q)
  {
    assert ([e] + q)[1..] == q;
  }

  lemma FreedStep(rs: Resources, id: nat, e: Entry, q: seq<Entry>)
    ensures Freed(rs, id, [e] + q) ==
            Freed(rs, id, q) + if Matches(rs, id, e) && ReturnsWqe(rs, e) then [e.wqeCounter as nat] else []
  {
    assert ([e] + q)[1..] == q;
  }

  /** When the sweep has reached the consumer index, the queue is the old one without the
      removed entries among those that were scanned, and the ring is in order again. */
  lemma SweepResult(s: State, id: nat, r: Ring, hi: nat, f: nat)
    requires Valid(s) && s.cur.left == 0 && s.cons <= hi <= s.prod
    requires Plain(s.ring, s.cons, hi) && Holds(s.ring, hi, s.prod)
    requires Swept(s.rs, id, s.ring, r, s.cons, s.cons, hi, f)
    ensures var s' := s.(ring := r, cons := s.cons + f);
            && Valid(s')
            && Queue(s') == Keep(s.rs, id, Queue(s)[..hi - s.cons]) + Queue(s)[hi - s.cons..]
  {
    hide Minis, Expand, MiniStream, Holds, Pending, Matches, Keep, CurrentQueue;
    var s' := s.(ring := r, cons := s.cons + f);
    PendingAgree(s.rs, s.ring, r, hi, s.prod);
    PlainPending(s.rs, s.ring, s.cons, hi);
    PendingConcat(s.rs, s.ring, s.cons, hi, s.prod);
    PlainPending(s.rs, r, s'.cons, hi);
    PendingConcat(s.rs, r, s'.cons, hi, s.prod);
    SweptBeyond(s, id, r, hi, f);
    NoneCurrent(s);
    NoneCurrent(s');
    assert Queue(s) == Entries(s.ring, s.cons, hi) + Pending(s.rs, s.ring, hi, s.prod);
  }

  lemma SweptBeyond(s: State, id: nat, r: Ring, hi: nat, f: nat)
    requires Valid(s) && s.cons <= hi <= s.prod
    requires Swept(s.rs, id, s.ring, r, s.cons, s.cons, hi, f)
    ensures NothingBeyond(r, s.cons + f, s.prod)
  {
    hide Minis, Expand, MiniStream, Holds, Pending, Matches, Keep;
    forall i | s.prod <= i < s.cons + f + |r|
      ensures !Fresh(r, i)
    {
      if i < s.cons + |r| {
        assert At(r, i) == At(s.ring, i);
      } else {
        assert At(r, i - |r|).owner == Owner(i - |r|, |r|);
        StaleNextLap(r, i - |r|);
      }
    }
  }

  // ---------------------------------------------------------------- when cleaning is a filter

  /** The queue after cleaning a ring of n slots: the scan covers at most n - 1 entries. */
  function Cleaned(rs: Resources, id: nat, q: seq<Entry>, n: nat): seq<Entry>
    requires n > 0
  {
    var k := Min(|q|, n - 1);
    Keep(rs, id, q[..k]) + q[k..]
  }

  lemma {:induction false} KeepConcat(rs: Resources, id: nat, a: seq<Entry>, b: seq<Entry>)
    ensures Keep(rs, id, a + b) == Keep(rs, id, a) + Keep(rs, id, b)
  {
    if a == [] {
      assert a + b == b;
    } else {
      assert (a + b)[1..] == a[1..] + b;
      KeepConcat(rs, id, a[1..], b);
    }
  }

  /** Cleaning removes every entry of the resource if and only if the ring is not full or its
      last entry belongs to another resource. */
  lemma CleaningIsFilterExactly(rs: Resources, id: nat, q: seq<Entry>, n: nat)
    requires |q| <= n && n > 0
    ensures Cleaned(rs, id, q, n) == Keep(rs, id, q) <==> |q| < n || !Matches(rs, id, q[n - 1])
  {
    var k := Min(|q|, n - 1);
    assert q == q[..k] + q[k..];
    KeepConcat(rs, id, q[..k], q[k..]);
    if |q| < n {
      assert q[k..] == [];
    } else {
      assert q[k..] == [q[k]];
      KeepStep(rs, id, q[k], []);
    }
  }

  // ---------------------------------------------------------------- in the fields of the entries

  ghost predicate Within(f: seq<nat>, n: nat) {
    forall j :: 0 <= j < |f| ==> f[j] < n
  }

  /** The entries at these places, in this order. */
  function Picked(q: seq<Entry>, f: seq<nat>): (p: seq<Entry>)
    requires Within(f, |q|)
    ensures |p| == |f| && forall j :: 0 <= j < |f| ==> p[j] == q[f[j]]
  {
    seq(|f|, j requires 0 <= j < |f| => q[f[j]])
  }

  function Counters(es: seq<Entry>): (p: seq<nat>)
    ensures |p| == |es| && forall j :: 0 <= j < |es| ==> p[j] == es[j].wqeCounter
  {
    seq(|es|, j requires 0 <= j < |es| => es[j].wqeCounter as nat)
  }

  ghost predicate Rising(f: seq<nat>) {
    forall i, j :: 0 <= i < j < |f| ==> f[i] < f[j]
  }

  ghost predicate Falling(f: seq<nat>) {
    forall i, j :: 0 <= i < j < |f| ==> f[i] > f[j]
  }

  /** Of the first n entries those of a resource are gone and all others are left in order: the
      resource is named by the user index under version 1, by the queue pair under version 0. */
  ghost predicate LeavesOthers(version: bool, id: nat, q: seq<Entry>, n: nat, q': seq<Entry>)
    requires n <= |q|
  {
    exists f: seq<nat> ::
      && Rising(f) && Within(f, n)
      && (forall i: nat :: i < n ==>
            (i in f <==> if version then q[i].srqnUidx % 0x100_0000 != id else q[i].qpn != id))
      && q' == Picked(q, f) + q[n..]
  }

  /** The receive slots of the gone entries, last one first: of the responses under version 1,
      of the entries that name a shared queue under version 0. */
  ghost predicate ReturnsSlots(version: bool, id: nat, q: seq<Entry>, n: nat, ws: seq<nat>)
    requires n <= |q|
  {
    exists f: seq<nat> ::
      && Falling(f) && Within(f, n)
      && (forall i: nat :: i < n ==>
            (i in f <==>
               if version then q[i].srqnUidx % 0x100_0000 == id && q[i].opcode in {1, 2, 3, 4, 6, 14}
               else q[i].qpn == id && q[i].srqnUidx % 0x100_0000 != 0))
      && ws == Counters(Picked(q, f))
  }

  lemma {:induction false} KeptPlaces(rs: Resources, id: nat, q: seq<Entry>, n: nat) returns (f: seq<nat>)
    requires n <= |q|
    ensures Rising(f) && Within(f, n) && forall i: nat :: i < n ==> (i in f <==> !Matches(rs, id, q[i]))
    ensures Keep(rs, id, q[..n]) == Picked(q, f)
  {
    hide Matches, Keep;
    if n == 0 {
      f := [];
      KeepNothing(rs, id);
      assert q[..0] == [];
    } else {
      var before := KeptPlaces(rs, id, q, n - 1);
      OneLonger(q, n);
      KeepConcat(rs, id, q[..n - 1], [q[n - 1]]);
      KeepOne(rs, id, q[n - 1]);
      if Matches(rs, id, q[n - 1]) {
        f := before;
      } else {
        f := before + [n - 1];
        assert Picked(q, f) == Picked(q, before) + [q[n - 1]];
      }
    }
  }

  lemma KeepNothing(rs: Resources, id: nat)
    ensures Keep(rs, id, []) == [] && Freed(rs, id, []) == []
  {
  }

  lemma OneLonger(q: seq<Entry>, n: nat)
    requires 0 < n <= |q|
    ensures q[..n] == q[..n - 1] + [q[n - 1]]
  {
  }

  lemma KeepOne(rs: Resources, id: nat, e: Entry)
    ensures Keep(rs, id, [e]) == if Matches(rs, id, e) then [] else [e]
    ensures Freed(rs, id, [e]) == if Matches(rs, id, e) && ReturnsWqe(rs, e) then [e.wqeCounter as nat] else []
  {
    hide Matches, ReturnsWqe;
    KeepStep(rs, id, e, []);
    FreedStep(rs, id, e, []);
    assert [e] + [] == [e];
  }

  lemma {:induction false} FreedConcat(rs: Resources, id: nat, a: seq<Entry>, b: seq<Entry>)
    ensures Freed(rs, id, a + b) == Freed(rs, id, b) + Freed(rs, id, a)
  {
    hide Matches, ReturnsWqe;
    if a == [] {
      assert a + b == b;
    } else {
      assert (a + b)[1..] == a[1..] + b;
      FreedConcat(rs, id, a[1..], b);
    }
  }

  lemma OneInFront(q: seq<Entry>, f: seq<nat>, i: nat)
    requires i < |q| && Falling(f) && Within(f, i)
    ensures Falling([i] + f) && Within([i] + f, i + 1)
    ensures Counters(Picked(q, [i] + f)) == [q[i].wqeCounter as nat] + Counters(Picked(q, f))
    ensures forall j: nat :: j in [i] + f <==> j == i || j in f
  {
  }

  lemma {:induction false} FreedPlaces(rs: Resources, id: nat, q: seq<Entry>, n: nat) returns (f: seq<nat>)
    requires n <= |q|
    ensures Falling(f) && Within(f, n)
    ensures forall i: nat :: i < n ==> (i in f <==> Matches(rs, id, q[i]) && ReturnsWqe(rs, q[i]))
    ensures Freed(rs, id, q[..n]) == Counters(Picked(q, f))
  {
    hide Matches, Freed, ReturnsWqe, Counters, Picked;
    if n == 0 {
      f := [];
      assert Counters(Picked(q, f)) == [];
      KeepNothing(rs, id);
      assert q[..0] == [];
    } else {
      var before := FreedPlaces(rs, id, q, n - 1);
      OneLonger(q, n);
      FreedConcat(rs, id, q[..n - 1], [q[n - 1]]);
      KeepOne(rs, id, q[n - 1]);
      if Matches(rs, id, q[n - 1]) && ReturnsWqe(rs, q[n - 1]) {
        f := [n - 1] + before;
        OneInFront(q, before, n - 1);
      } else {
        f := before;
      }
    }
  }

  /** What cleaning leaves and gives back, in the fields of the entries. */
  lemma CleanedByFields(rs: Resources, id: nat, q: seq<Entry>, size: nat)
    requires size > 0
    ensures var n := Min(|q|, size - 1);
            && LeavesOthers(rs.cqeVersion, id, q, n, Cleaned(rs, id, q, size))
            && ReturnsSlots(rs.cqeVersion, id, q, n, Freed(rs, id, q[..n]))
  {
    hide Keep, Freed;
    var n := Min(|q|, size - 1);
    var f := KeptPlaces(rs, id, q, n);
    var g := FreedPlaces(rs, id, q, n);
  }

  function Copies(e: Entry, n: nat): (q: seq<Entry>)
    ensures |q| == n && forall i :: 0 <= i < n ==> q[i] == e
  {
    seq(n, _ => e)
  }

  lemma {:induction false} NoneKept(rs: Resources, id: nat, e: Entry, n: nat)
    requires Matches(rs, id, e)
    ensures Keep(rs, id, Copies(e, n)) == []
  {
    if n != 0 {
      assert Copies(e, n) == [e] + Copies(e, n - 1);
      KeepStep(rs, id, e, Copies(e, n - 1));
      NoneKept(rs, id, e, n - 1);
    }
  }

  /** A ring of any size reaches a state where it is full of completions of one resource: the
      device writes n of them into the new ring. Cleaning that resource then leaves the last. */
  lemma FullRingKeepsOne(e: Entry, n: nat) returns (states: seq<State>, events: seq<Event>)
    requires n > 0 && e.opcode != INVALID && e.format != COMPRESSED
    ensures Run(states, events)
    ensures var s, id := states[|events|], ResourceOf(states[|events|].rs, e);
            && |s.ring| == n && Valid(s) && Queue(s) == Copies(Content(e), n)
            && Keep(s.rs, id, Queue(s)) == [] && Cleaned(s.rs, id, Queue(s), n) == [Content(e)]
  {
    hide Minis, Holds, Pending, Expand, MiniStream, Matches, Content, Keep, Fresh, Poll, ResourceOf;
    var rs := Resources(true, {});
    var cur := Current(e, 0, 0, false, Minis(e), 0);
    var s0 := State(rs, Copies(e.(opcode := INVALID), n), 0, 0, cur);
    var s := State(rs, Copies(e.(owner := false), n), 0, n, cur);
    FullRing(rs, e, n);
    InitValid(s0);
    states, events := [s0, s], [Wrote(Pending(rs, s.ring, 0, n))];
    DeviceEnqueues(s0, s);
    assert Queue(s) == Copies(Content(e), n);
    var id := ResourceOf(rs, e);
    assert Matches(rs, id, Content(e)) by { OwnResource(rs, e); }
    NoneKept(rs, id, Content(e), n);
    NoneKept(rs, id, Content(e), n - 1);
    assert Queue(s)[..n - 1] == Copies(Content(e), n - 1) && Queue(s)[n - 1..] == [Content(e)];
  }

  lemma OwnResource(rs: Resources, e: Entry)
    ensures Matches(rs, ResourceOf(rs, e), Content(e))
  {
  }

  lemma FullRing(rs: Resources, e: Entry, n: nat)
    requires n > 0 && e.opcode != INVALID && e.format != COMPRESSED
    ensures var r := Copies(e.(owner := false), n);
            Holds(r, 0, n) && Pending(rs, r, 0, n) == Copies(Content(e), n)
  {
    hide Minis, Holds, Pending;
    var r: Ring := Copies(e.(owner := false), n);
    forall i | 0 <= i < n
      ensures Fresh(r, i) && At(r, i).format != COMPRESSED && Content(At(r, i)) == Content(e)
    {
      FirstLap(i, n);
    }
    PlainPending(rs, r, 0, n);
    assert Entries(r, 0, n) == Copies(Content(e), n);
  }

  lemma FirstLap(i: nat, n: nat)
    requires i < n
    ensures Slot(i, n) == i && !Owner(i, n)
  {
  }

  /** What is kept is a subsequence in which no entry of the resource is left. */
  lemma {:induction false} KeepHasNone(rs: Resources, id: nat, q: seq<Entry>)
    ensures forall e :: e in Keep(rs, id, q) <==> e in q && !Matches(rs, id, e)
  {
    if q != [] {
      KeepHasNone(rs, id, q[1..]);
      assert q == [q[0]] + q[1..];
    }
  }

  /** What the entries from some point on give back comes first. */
  lemma {:induction false} FreedOfSuffix(rs: Resources, id: nat, q: seq<Entry>, k: nat)
    requires k <= |q|
    ensures Freed(rs, id, q[k..]) <= Freed(rs, id, q)
  {
    if k != 0 {
      assert q[1..][k - 1..] == q[k..];
      FreedOfSuffix(rs, id, q[1..], k - 1);
    } else {
      assert q[0..] == q;
    }
  }
}
