/** Moving the pending entries of a ring without sessions to a ring of another size. Each entry
    moves one index up, so that the marker at the end of the old ring drops out. */
module CqResize {
  import opened Words
  import opened Cqe
  import opened CqModel
  import opened CqEager

  /** Ring d after the n entries of r from index lo on have been copied one index up. */
  function CopyUp(r: Ring, d: Ring, lo: nat, n: nat): (d': Ring)
    ensures |d'| == |d|
  {
    if n == 0 then d
    else Put(CopyUp(r, d, lo, n - 1), lo + n, At(r, lo + n - 1).(owner := Owner(lo + n, |d|)))
  }

  lemma {:induction false} CopyUpEffect(r: Ring, d: Ring, lo: nat, n: nat)
    requires n <= |d| && Plain(r, lo, lo + n)
    ensures Plain(CopyUp(r, d, lo, n), lo + 1, lo + 1 + n)
    ensures Entries(CopyUp(r, d, lo, n), lo + 1, lo + 1 + n) == Entries(r, lo, lo + n)
    ensures Agree(d, CopyUp(r, d, lo, n), lo + 1 + n, lo + 1 + |d|)
  {
    if n != 0 {
      forall i | lo <= i < lo + n - 1
        ensures Fresh(r, i) && At(r, i).format != COMPRESSED
      {
        assert At(r, i) == At(r, i);
      }
      CopyUpEffect(r, d, lo, n - 1);
      CopyUpOne(r, d, lo, n);
    }
  }

  lemma CopyUpOne(r: Ring, d: Ring, lo: nat, n: nat)
    requires 0 < n <= |d| && Plain(r, lo, lo + n)
    requires var q := CopyUp(r, d, lo, n - 1);
             && Plain(q, lo + 1, lo + n) && Entries(q, lo + 1, lo + n) == Entries(r, lo, lo + n - 1)
             && Agree(d, q, lo + n, lo + 1 + |d|)
    ensures var d' := CopyUp(r, d, lo, n);
            && Plain(d', lo + 1, lo + 1 + n) && Entries(d', lo + 1, lo + 1 + n) == Entries(r, lo, lo + n)
            && Agree(d, d', lo + 1 + n, lo + 1 + |d|)
  {
    hide Minis;
    var q, d' := CopyUp(r, d, lo, n - 1), CopyUp(r, d, lo, n);
    var t := lo + n;
    var e := At(r, t - 1).(owner := Owner(t, |d|));
    assert d' == Put(q, t, e) && At(d', t) == e;
    assert Fresh(r, t - 1);
    PutElsewhere(q, t, e, lo + 1, t);
    PutElsewhere(q, t, e, t + 1, lo + 1 + |d|);
    forall j | lo + 1 <= j < lo + 1 + n
      ensures Fresh(d', j) && At(d', j).format != COMPRESSED
    {
      if j < t { assert At(d', j) == At(q, j); }
    }
    EntriesLast(d', lo + 1, t + 1);
    EntriesLast(r, lo, t);
    EntriesAgree(q, d', lo + 1, t);
    forall j | t + 1 <= j < lo + 1 + |d|
      ensures At(d', j) == At(d, j)
    {
      assert At(d', j) == At(q, j);
    }
  }

  /** A new ring in which the device has so far produced the indices from first up to prod. */
  ghost predicate ReadyFrom(d: Ring, cons: nat, first: nat, prod: nat) {
    && first <= prod <= cons + |d|
    && Holds(d, first, prod)
    && NothingBeyond(d, cons, prod)
  }

  /** A ring as it is allocated is ready from any index on. */
  lemma NewRingReady(d: Ring, cons: nat, first: nat)
    requires first <= cons + |d|
    requires forall i :: 0 <= i < |d| ==> d[i].opcode == INVALID
    ensures ReadyFrom(d, cons, first, first)
  {
    forall i | first <= i < cons + |d|
      ensures !Fresh(d, i)
    {
      assert At(d, i) == d[Slot(i, |d|)];
    }
  }

  /** Read from the advanced consumer index under its own size and owner bits, the new ring
      holds exactly the entries before the marker, followed by what the device put there. */
  lemma ResizeKeeps(s: State, d: Ring, mark: nat, prod': nat)
    requires Valid(s) && s.cur.left == 0 && s.cons <= mark < s.prod
    requires Plain(s.ring, s.cons, mark)
    requires ReadyFrom(d, s.cons + 1, mark + 1, prod')
    ensures var s' := s.(ring := CopyUp(s.ring, d, s.cons, mark - s.cons), cons := s.cons + 1, prod := prod');
            && Valid(s')
            && Queue(s') == Queue(s)[..mark - s.cons] + Pending(s.rs, d, mark + 1, prod')
  {
    hide Minis, Expand, MiniStream, Holds, Pending, CopyUp;
    var n := mark - s.cons;
    var d' := CopyUp(s.ring, d, s.cons, n);
    var s' := s.(ring := d', cons := s.cons + 1, prod := prod');
    CopyUpEffect(s.ring, d, s.cons, n);
    KeepBeyond(d, d', s.cons + 1, mark + 1, prod');
    PendingAgree(s.rs, d, d', mark + 1, prod');
    PlainPending(s.rs, d', s.cons + 1, mark + 1);
    PendingConcat(s.rs, d', s.cons + 1, mark + 1, prod');
    QueueBefore(s, mark);
    assert CurrentQueue(s') == [];
  }

  lemma QueueBefore(s: State, mark: nat)
    requires Valid(s) && s.cur.left == 0 && s.cons <= mark <= s.prod
    requires Plain(s.ring, s.cons, mark)
    ensures Queue(s)[..mark - s.cons] == Entries(s.ring, s.cons, mark)
  {
    hide Minis, Expand, MiniStream;
    PlainPending(s.rs, s.ring, s.cons, mark);
    HoldsRest(s.ring, s.cons, mark, s.prod);
    PendingConcat(s.rs, s.ring, s.cons, mark, s.prod);
    assert CurrentQueue(s) == [];
  }

  lemma {:induction false} HoldsRest(r: Ring, lo: nat, mid: nat, hi: nat)
    requires lo <= mid <= hi && Plain(r, lo, mid) && Holds(r, lo, hi)
    ensures Holds(r, mid, hi)
    decreases mid - lo
  {
    if lo < mid {
      assert At(r, lo).format != COMPRESSED;
      PlainTail(r, lo, mid);
      HoldsRest(r, lo + 1, mid, hi);
    }
  }

  /** The place of the first resize marker, or the length when there is none. */
  function FirstMarker(q: seq<Entry>): (m: nat)
    ensures m <= |q|
    ensures m < |q| ==> q[m].opcode == 5
    ensures forall k :: 0 <= k < m ==> q[k].opcode != 5
  {
    if q == [] || q[0].opcode == RESIZE_CQ then 0 else 1 + FirstMarker(q[1..])
  }

  /** A ring without sessions up to its last produced index has none at that index either. */
  lemma PlainToTheEnd(s: State, hi: nat)
    requires Valid(s) && s.cur.left == 0 && s.cons <= hi <= s.prod <= hi + 1
    requires Plain(s.ring, s.cons, hi) && Holds(s.ring, hi, s.prod)
    ensures Plain(s.ring, s.cons, s.prod)
    ensures forall k :: 0 <= k < s.prod - s.cons ==> Queue(s)[k] == Content(At(s.ring, s.cons + k))
  {
    hide Minis;
    forall i | s.cons <= i < s.prod
      ensures Fresh(s.ring, i) && At(s.ring, i).format != COMPRESSED
    {
      if i < hi { assert At(s.ring, i) == At(s.ring, i); }
    }
    QueueBefore(s, s.prod);
    assert Queue(s) == Queue(s)[..s.prod - s.cons];
  }
}
