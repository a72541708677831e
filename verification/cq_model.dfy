/** The completion ring as a protocol between the device and the consumer.

    Producer and consumer indices are counted without bound here; CqDriver keeps the 32-bit
    indices of the driver. An entry is fresh for an index when its opcode is valid and its
    owner bit is the owner bit of that index. */
module CqModel {
  import opened Words
  import opened Cqe

  type Ring = r: seq<Entry> | |r| > 0
    witness [Entry(OtherWords(0, 0, 0, 0, 0, 0, 0, 0, 0, 0, 0), 0, 0, 0, 0, 0, 0, 0, 0, 0, false, false)]

  function At(r: Ring, i: nat): Entry {
    r[Slot(i, |r|)]
  }

  function Put(r: Ring, i: nat, e: Entry): (r': Ring)
    ensures |r'| == |r|
  {
    r[Slot(i, |r|) := e]
  }

  predicate Fresh(r: Ring, i: nat) {
    At(r, i).opcode != INVALID && At(r, i).owner == Owner(i, |r|)
  }

  /** The two rings hold the same bytes for the indices from lo up to hi. */
  ghost predicate Agree(r: Ring, r': Ring, lo: nat, hi: nat) {
    |r| == |r'| && forall i :: lo <= i < hi ==> At(r', i) == At(r, i)
  }

  lemma PutElsewhere(r: Ring, i: nat, e: Entry, lo: nat, hi: nat)
    requires (i < lo && hi <= i + |r|) || (hi <= i && i < lo + |r|)
    ensures Agree(r, Put(r, i, e), lo, hi)
  {
    forall j | lo <= j < hi
      ensures At(Put(r, i, e), j) == At(r, j)
    {
      if i < j { SlotsDistinct(i, j, |r|); } else { SlotsDistinct(j, i, |r|); }
    }
  }

  // ---------------------------------------------------------------- compressed sessions

  /** The next n mini entries: first those at hand, then those of every eighth slot from at. */
  function MiniStream(r: Ring, head: seq<Mini>, at: nat, n: nat): (ms: seq<Mini>)
    ensures |ms| == n
    decreases n, if head == [] then 1 else 0
  {
    if n <= |head| then head[..n]
    else head + MiniStream(r, Minis(At(r, at)), at + MINI_ARR_SIZE, n - |head|)
  }

  lemma {:induction false} MiniStreamAgree(r: Ring, r': Ring, head: seq<Mini>, at: nat, n: nat)
    requires n > |head| ==> Agree(r, r', at, at + n - |head|)
    ensures MiniStream(r', head, at, n) == MiniStream(r, head, at, n)
    decreases n, if head == [] then 1 else 0
  {
    if n > |head| {
      MiniStreamAgree(r, r', Minis(At(r, at)), at + MINI_ARR_SIZE, n - |head|);
    }
  }

  lemma MiniStreamNext(r: Ring, head: seq<Mini>, at: nat, n: nat)
    requires head != [] && n > 0
    ensures MiniStream(r, head, at, n) == [head[0]] + MiniStream(r, head[1..], at, n - 1)
  {
    hide MiniStream, Minis;
    if n <= |head| {
      MiniStreamAtHand(r, head, at, n);
      MiniStreamAtHand(r, head[1..], at, n - 1);
      assert head[..n] == [head[0]] + head[1..][..n - 1];
    } else {
      MiniStreamBeyond(r, head, at, n);
      MiniStreamBeyond(r, head[1..], at, n - 1);
      assert head == [head[0]] + head[1..];
    }
  }

  lemma MiniStreamAtHand(r: Ring, head: seq<Mini>, at: nat, n: nat)
    requires n <= |head|
    ensures MiniStream(r, head, at, n) == head[..n]
  {
  }

  lemma MiniStreamBeyond(r: Ring, head: seq<Mini>, at: nat, n: nat)
    requires n > |head|
    ensures MiniStream(r, head, at, n) == head + MiniStream(r, Minis(At(r, at)), at + MINI_ARR_SIZE, n - |head|)
  {
  }

  /** The mini entries of a session whose title has index p. */
  function SessionMinis(r: Ring, p: nat, n: nat): seq<Mini> {
    MiniStream(r, Minis(At(r, p + 1)), p + MINI_ARR_SIZE, n)
  }

  function SessionQueue(rs: Resources, r: Ring, p: nat): (q: seq<Entry>)
    ensures |q| == At(r, p).byteCnt
  {
    var t := At(r, p);
    Expand(t, IsStriding(rs, t), t.wqeCounter, SessionMinis(r, p, t.byteCnt))
  }

  lemma SessionAgree(rs: Resources, r: Ring, r': Ring, p: nat)
    requires At(r, p).byteCnt >= 2 && Agree(r, r', p, p + At(r, p).byteCnt)
    ensures At(r', p) == At(r, p) && SessionQueue(rs, r', p) == SessionQueue(rs, r, p)
  {
    var n := At(r, p).byteCnt;
    assert At(r', p + 1) == At(r, p + 1);
    MiniStreamAgree(r, r', Minis(At(r, p + 1)), p + MINI_ARR_SIZE, n);
  }

  // ---------------------------------------------------------------- what the ring holds

  /** The ring holds well-formed entries and sessions for the indices from at up to prod. */
  ghost predicate Holds(r: Ring, at: nat, prod: nat)
    decreases prod - at
  {
    at == prod ||
    (at < prod && Fresh(r, at) &&
     if At(r, at).format != COMPRESSED then Holds(r, at + 1, prod)
     else
       var n := At(r, at).byteCnt;
       2 <= n < 0x1_0000 && at + n <= prod && Holds(r, at + n, prod))
  }

  /** The completions that the ring holds for the indices from at up to prod, in order. */
  ghost function Pending(rs: Resources, r: Ring, at: nat, prod: nat): (q: seq<Entry>)
    requires Holds(r, at, prod)
    ensures |q| == prod - at
    decreases prod - at
  {
    if at == prod then []
    else if At(r, at).format != COMPRESSED then [Content(At(r, at))] + Pending(rs, r, at + 1, prod)
    else SessionQueue(rs, r, at) + Pending(rs, r, at + At(r, at).byteCnt, prod)
  }

  lemma {:induction false} PendingAgree(rs: Resources, r: Ring, r': Ring, at: nat, prod: nat)
    requires Holds(r, at, prod) && Agree(r, r', at, prod)
    ensures Holds(r', at, prod) && Pending(rs, r', at, prod) == Pending(rs, r, at, prod)
    decreases prod - at
  {
    if at < prod {
      assert At(r', at) == At(r, at);
      if At(r, at).format != COMPRESSED {
        PendingAgree(rs, r, r', at + 1, prod);
      } else {
        SessionAgree(rs, r, r', at);
        PendingAgree(rs, r, r', at + At(r, at).byteCnt, prod);
      }
    }
  }

  lemma {:induction false} PendingConcat(rs: Resources, r: Ring, at: nat, mid: nat, prod: nat)
    requires mid <= prod && Holds(r, at, mid) && Holds(r, mid, prod)
    ensures Holds(r, at, prod)
    ensures Pending(rs, r, at, prod) == Pending(rs, r, at, mid) + Pending(rs, r, mid, prod)
    decreases mid - at
  {
    hide Minis, SessionQueue, Fresh, Content, At;
    if at < mid {
      var next := at + if At(r, at).format != COMPRESSED then 1 else At(r, at).byteCnt;
      PendingConcat(rs, r, next, mid, prod);
    }
  }

  /** No slot looks fresh for an index the device has not produced yet. */
  ghost predicate NothingBeyond(r: Ring, cons: nat, prod: nat) {
    forall i {:trigger At(r, i)} :: prod <= i < cons + |r| ==> !Fresh(r, i)
  }

  // ---------------------------------------------------------------- the consumer

  /** The session that is being unpacked one entry per poll. */
  datatype Current = Current(title: Entry, left: uint16, wqeCnt: uint16, striding: bool, minis: seq<Mini>, idx: nat)

  datatype State = State(rs: Resources, ring: Ring, cons: nat, prod: nat, cur: Current)

  /** Slots of the current session up to the end of the chunk at hand carry the owner bit of
      their index, so that they will not look fresh one lap later. */
  ghost predicate Marked(r: Ring, lo: nat, hi: nat) {
    forall i {:trigger At(r, i)} :: lo <= i < hi ==> At(r, i).owner == Owner(i, |r|)
  }

  ghost predicate CurrentValid(s: State) {
    && |s.cur.minis| == MINI_ARR_SIZE
    && s.cur.idx <= MINI_ARR_SIZE
    && (s.cur.left > 0 ==>
          && s.cur.title.opcode != INVALID
          && s.cur.title.format == COMPRESSED
          && Marked(s.ring, s.cons, s.cons + Min(s.cur.left, MINI_ARR_SIZE - s.cur.idx)))
  }

  ghost predicate Valid(s: State) {
    && s.cons + s.cur.left <= s.prod <= s.cons + |s.ring|
    && CurrentValid(s)
    && Holds(s.ring, s.cons + s.cur.left, s.prod)
    && NothingBeyond(s.ring, s.cons, s.prod)
  }

  /** The mini entries of the current session that are still to be unpacked. */
  function Stream(s: State): seq<Mini>
    requires s.cur.idx <= |s.cur.minis| == MINI_ARR_SIZE
  {
    MiniStream(s.ring, s.cur.minis[s.cur.idx..], s.cons + MINI_ARR_SIZE - s.cur.idx, s.cur.left)
  }

  ghost function CurrentQueue(s: State): (q: seq<Entry>)
    requires CurrentValid(s)
    ensures |q| == s.cur.left
  {
    Expand(s.cur.title, s.cur.striding, s.cur.wqeCnt, Stream(s))
  }

  /** All completions produced and not yet consumed, in the order they were produced. */
  ghost function Queue(s: State): (q: seq<Entry>)
    requires Valid(s)
    ensures |q| == s.prod - s.cons
  {
    CurrentQueue(s) + Pending(s.rs, s.ring, s.cons + s.cur.left, s.prod)
  }

  /** Stores a bare owner byte into cnt slots from index i on. */
  function MarkOwned(r: Ring, i: nat, cnt: nat): (r': Ring)
    ensures |r'| == |r|
  {
    if cnt == 0 then r
    else
      var q := MarkOwned(r, i, cnt - 1);
      Put(q, i + cnt - 1, OwnerByteOnly(At(q, i + cnt - 1), Owner(i + cnt - 1, |r|)))
  }

  lemma {:induction false} MarkOwnedEffect(r: Ring, i: nat, cnt: nat)
    requires cnt <= |r|
    ensures Marked(MarkOwned(r, i, cnt), i, i + cnt)
    ensures Agree(r, MarkOwned(r, i, cnt), i + cnt, i + |r|)
    ensures forall j {:trigger At(MarkOwned(r, i, cnt), j)} :: i <= j < i + cnt ==>
              At(MarkOwned(r, i, cnt), j) ==
              At(r, j).(opcode := 0, format := 0, se := false, owner := Owner(j, |r|))
  {
    if cnt != 0 {
      MarkOwnedEffect(r, i, cnt - 1);
      var q := MarkOwned(r, i, cnt - 1);
      var e := OwnerByteOnly(At(q, i + cnt - 1), Owner(i + cnt - 1, |r|));
      PutElsewhere(q, i + cnt - 1, e, i, i + cnt - 1);
      PutElsewhere(q, i + cnt - 1, e, i + cnt, i + |r|);
      var m := MarkOwned(r, i, cnt);
      forall j | i <= j < i + cnt
        ensures At(m, j) == At(r, j).(opcode := 0, format := 0, se := false, owner := Owner(j, |r|))
      {
        if j < i + cnt - 1 { assert At(m, j) == At(q, j); } else { assert At(q, j) == At(r, j); }
      }
      forall j | i + cnt <= j < i + |r|
        ensures At(m, j) == At(r, j)
      {
        assert At(m, j) == At(q, j);
      }
    }
  }

  /** Reads the mini entries of a slot and marks the slots that they stand for. */
  function SaveMinis(s: State, i: nat): (s': State)
    ensures s' == s.(ring := s'.ring, cur := s'.cur) && |s'.ring| == |s.ring|
  {
    s.(cur := s.cur.(minis := Minis(At(s.ring, i)), idx := 0),
       ring := MarkOwned(s.ring, s.cons, Min(s.cur.left, MINI_ARR_SIZE)))
  }

  /** Starts the session whose title is at the consumer index. */
  function SaveTitle(s: State): (s': State)
    ensures s' == s.(cur := s'.cur)
  {
    var t := At(s.ring, s.cons);
    s.(cur := s.cur.(title := t, left := t.byteCnt % 0x1_0000, wqeCnt := t.wqeCounter, striding := IsStriding(s.rs, t)))
  }

  /** The 16-bit count of entries left, one down. */
  function OneLess(left: uint16): uint16 {
    if left == 0 then 0xffff else left - 1
  }

  /** Unpacks one entry of the current session. */
  function DecompressNext(s: State): (s': State)
    requires s.cur.idx <= |s.cur.minis| == MINI_ARR_SIZE
    ensures s'.cur.idx <= |s'.cur.minis| == MINI_ARR_SIZE
  {
    var s1 := if s.cur.idx == MINI_ARR_SIZE then SaveMinis(s, s.cons) else s;
    var c, m := s1.cur, s1.cur.minis[s1.cur.idx];
    s1.(cons := s1.cons + 1,
        cur := c.(title := Fill(c.title, c.wqeCnt, m),
                  wqeCnt := NextCounter(c.title, c.striding, c.wqeCnt, m),
                  idx := c.idx + 1, left := OneLess(c.left)))
  }

  /** One poll: the next state, and the entry delivered, if any. */
  function Poll(s: State): (State, Option<Entry>)
    requires s.cur.idx <= |s.cur.minis| == MINI_ARR_SIZE
  {
    if s.cur.left > 0 then
      var s' := DecompressNext(s);
      (s', Some(s'.cur.title))
    else if !Fresh(s.ring, s.cons) then
      (s, None)
    else if At(s.ring, s.cons).format == COMPRESSED then
      var s' := DecompressNext(SaveMinis(SaveTitle(s), s.cons + 1));
      (s', Some(s'.cur.title))
    else
      (s.(cons := s.cons + 1), Some(At(s.ring, s.cons)))
  }

  /** The state after so many entries have been unpacked. */
  function UnpackMany(s: State, k: nat): (s': State)
    requires s.cur.idx <= |s.cur.minis| == MINI_ARR_SIZE
    ensures s'.cur.idx <= |s'.cur.minis| == MINI_ARR_SIZE
  {
    if k == 0 then s else DecompressNext(UnpackMany(s, k - 1))
  }

  /** The entries that polls deliver of a session that announces n. */
  function LazyLength(n: nat): nat {
    if n % 0x1_0000 == 0 then 0x1_0000 else n % 0x1_0000
  }

  /** Polls take the entries of a session up to its lazy length, where none are left for the first
      time. That is as many as are announced, and as unpacking in place writes, if and only if the
      session has from one to 65536 entries. */
  lemma {:induction false} LazyLengthExactly(s: State, k: nat)
    requires s.cur.idx <= |s.cur.minis| == MINI_ARR_SIZE && 0 < k <= LazyLength(At(s.ring, s.cons).byteCnt)
    ensures var n := At(s.ring, s.cons).byteCnt;
            && UnpackMany(SaveMinis(SaveTitle(s), s.cons + 1), k).cur.left == LazyLength(n) - k
            && (LazyLength(n) == n <==> 1 <= n <= 0x1_0000)
  {
    hide MarkOwned, Minis;
    var s1 := SaveMinis(SaveTitle(s), s.cons + 1);
    if k > 1 {
      LazyLengthExactly(s, k - 1);
    } else {
      assert UnpackMany(s1, 0) == s1;
    }
  }

  /** Of a session that announces 65537 entries polls take one. */
  lemma LongSession()
    ensures LazyLength(0x1_0001) == 1
  {
  }

  // ---------------------------------------------------------------- one poll is one dequeue

  /** The owner bit of a consumed index is not the owner bit that index needs one lap later. */
  lemma StaleNextLap(r: Ring, i: nat)
    requires At(r, i).owner == Owner(i, |r|)
    ensures !Fresh(r, i + |r|)
  {
    NextLap(i, |r|);
  }

  /** Marking the slots of the chunk at hand leaves the rest of the ring as it was. */
  lemma MarkingKeeps(rs: Resources, r: Ring, cons: nat, left: nat, prod: nat)
    requires cons + left <= prod <= cons + |r| && Holds(r, cons + left, prod) && NothingBeyond(r, cons, prod)
    ensures var k := Min(left, MINI_ARR_SIZE);
            var r' := MarkOwned(r, cons, k);
            && Marked(r', cons, cons + k) && NothingBeyond(r', cons, prod)
            && Holds(r', cons + left, prod) && Pending(rs, r', cons + left, prod) == Pending(rs, r, cons + left, prod)
    ensures forall head :: |head| == MINI_ARR_SIZE ==>
              MiniStream(MarkOwned(r, cons, Min(left, MINI_ARR_SIZE)), head, cons + MINI_ARR_SIZE, left)
              == MiniStream(r, head, cons + MINI_ARR_SIZE, left)
  {
    hide Expand, Pending, Minis, Holds, MarkOwned, MiniStream;
    var k := Min(left, MINI_ARR_SIZE);
    var r' := MarkOwned(r, cons, k);
    MarkOwnedEffect(r, cons, k);
    KeepBeyond(r, r', cons, cons + k, prod);
    PendingAgree(rs, r, r', cons + left, prod);
    forall head: seq<Mini> | |head| == MINI_ARR_SIZE
      ensures MiniStream(r', head, cons + MINI_ARR_SIZE, left) == MiniStream(r, head, cons + MINI_ARR_SIZE, left)
    {
      MiniStreamAgree(r, r', head, cons + MINI_ARR_SIZE, left);
    }
  }

  /** Refilling the mini entries at hand changes nothing that is still to be delivered. */
  lemma RefillKeeps(s: State)
    requires Valid(s) && s.cur.left > 0 && s.cur.idx == MINI_ARR_SIZE
    ensures Valid(SaveMinis(s, s.cons)) && Queue(SaveMinis(s, s.cons)) == Queue(s)
  {
    hide Expand, Pending, Minis, Holds, MarkOwned, MiniStream;
    var s' := SaveMinis(s, s.cons);
    MarkingKeeps(s.rs, s.ring, s.cons, s.cur.left, s.prod);
    RefillStream(s.ring, s.cons, s.cur.left, s.cur.minis);
    assert s'.cur.minis[0..] == s'.cur.minis;
    assert Valid(s');
    assert Stream(s') == Stream(s);
    SameQueue(s, s');
  }

  lemma SameQueue(s: State, s': State)
    requires Valid(s) && Valid(s') && s'.rs == s.rs && s'.cons == s.cons && s'.prod == s.prod
    requires s'.cur.left == s.cur.left && s'.cur.title == s.cur.title
    requires s'.cur.striding == s.cur.striding && s'.cur.wqeCnt == s.cur.wqeCnt
    requires Stream(s') == Stream(s)
    requires Pending(s.rs, s'.ring, s.cons + s.cur.left, s.prod) == Pending(s.rs, s.ring, s.cons + s.cur.left, s.prod)
    ensures Queue(s') == Queue(s)
  {
    hide Expand, Pending, Minis, Holds;
  }

  lemma RefillStream(r: Ring, cons: nat, n: nat, minis: seq<Mini>)
    requires n > 0 && |minis| == MINI_ARR_SIZE
    ensures MiniStream(r, minis[MINI_ARR_SIZE..], cons, n) == MiniStream(r, Minis(At(r, cons)), cons + MINI_ARR_SIZE, n)
  {
    var none: seq<Mini> := [];
    assert minis[MINI_ARR_SIZE..] == none;
    var ms := MiniStream(r, Minis(At(r, cons)), cons + MINI_ARR_SIZE, n);
    assert none + ms == ms;
  }

  lemma KeepBeyond(r: Ring, r': Ring, cons: nat, mid: nat, prod: nat)
    requires NothingBeyond(r, cons, prod) && Agree(r, r', mid, cons + |r|) && mid <= prod
    ensures NothingBeyond(r', cons, prod)
  {
    forall i | prod <= i < cons + |r|
      ensures !Fresh(r', i)
    {
      assert At(r', i) == At(r, i);
    }
  }

  lemma StartSessionValid(s: State)
    requires Valid(s) && s.cur.left == 0 && Fresh(s.ring, s.cons) && s.cons < s.prod
    requires At(s.ring, s.cons).format == COMPRESSED
    ensures var n := At(s.ring, s.cons).byteCnt;
            && 2 <= n < 0x1_0000 && s.cons + n <= s.prod && Holds(s.ring, s.cons + n, s.prod)
            && Queue(s) == SessionQueue(s.rs, s.ring, s.cons) + Pending(s.rs, s.ring, s.cons + n, s.prod)
  {
    hide Minis, MarkOwned, MiniStream, SessionQueue;
    assert CurrentQueue(s) == [];
    assert Queue(s) == Pending(s.rs, s.ring, s.cons, s.prod);
  }

  /** Starting a session moves its completions from the ring to the session at hand. */
  lemma StartSession(s: State)
    requires Valid(s) && s.cur.left == 0 && Fresh(s.ring, s.cons) && s.cons < s.prod
    requires At(s.ring, s.cons).format == COMPRESSED
    ensures var s' := SaveMinis(SaveTitle(s), s.cons + 1);
            Valid(s') && Queue(s') == Queue(s) && s'.cur.left > 0
  {
    hide Expand, Minis, MarkOwned, MiniStream, Holds, Pending;
    StartSessionValid(s);
    var s1 := SaveTitle(s);
    var s' := SaveMinis(s1, s.cons + 1);
    MarkingKeeps(s.rs, s.ring, s.cons, s1.cur.left, s.prod);
    assert s'.cur.minis[0..] == s'.cur.minis;
    assert Valid(s');
    assert CurrentQueue(s') == SessionQueue(s.rs, s.ring, s.cons);
  }

  /** Taking an entry that is not compressed delivers the head of the queue. */
  lemma TakeSingle(s: State)
    requires Valid(s) && s.cur.left == 0 && s.cons < s.prod && At(s.ring, s.cons).format != COMPRESSED
    ensures var s' := s.(cons := s.cons + 1);
            Valid(s') && Content(At(s.ring, s.cons)) == Queue(s)[0] && Queue(s') == Queue(s)[1..]
  {
    hide Minis, Expand, MiniStream, SessionQueue;
    ConsumeOne(s.ring, s.cons, s.prod);
    var s' := s.(cons := s.cons + 1);
    assert CurrentQueue(s) == [] && CurrentQueue(s') == [];
    assert Queue(s) == [Content(At(s.ring, s.cons))] + Queue(s');
  }

  /** Unpacking one entry delivers the head of the queue. */
  lemma DecompressDelivers(s: State)
    requires Valid(s) && s.cur.left > 0
    ensures var s' := DecompressNext(s);
            && Valid(s') && s'.rs == s.rs && s'.cons == s.cons + 1 && s'.prod == s.prod && |s'.ring| == |s.ring|
            && Queue(s) != [] && Content(s'.cur.title) == Queue(s)[0] && Queue(s') == Queue(s)[1..]
  {
    hide Expand, Pending, Minis, Holds, MarkOwned, MiniStream;
    if s.cur.idx == MINI_ARR_SIZE {
      RefillKeeps(s);
      DecompressFromHand(SaveMinis(s, s.cons));
    } else {
      DecompressFromHand(s);
    }
  }

  lemma DecompressFromHand(s: State)
    requires Valid(s) && s.cur.left > 0 && s.cur.idx < MINI_ARR_SIZE
    ensures var s' := DecompressNext(s);
            && Valid(s') && s'.rs == s.rs && s'.cons == s.cons + 1 && s'.prod == s.prod && |s'.ring| == |s.ring|
            && Queue(s) != [] && Content(s'.cur.title) == Queue(s)[0] && Queue(s') == Queue(s)[1..]
  {
    hide Holds, Pending, Minis, MarkOwned, MiniStream;
    var s', c := DecompressNext(s), s.cur;
    var head, at := c.minis[c.idx..], s.cons + MINI_ARR_SIZE - c.idx;
    MiniStreamNext(s.ring, head, at, c.left);
    var rest := MiniStream(s.ring, head[1..], at, c.left - 1);
    assert head[1..] == c.minis[c.idx + 1..];
    ExpandSameTitle(c.title, s'.cur.title, c.striding, s'.cur.wqeCnt, rest);
    assert CurrentQueue(s) == [Content(s'.cur.title)] + Expand(c.title, c.striding, s'.cur.wqeCnt, rest);
    ConsumeOne(s.ring, s.cons, s.prod);
    assert Queue(s')  == Queue(s)[1..];
  }

  lemma ConsumeOne(r: Ring, cons: nat, prod: nat)
    requires cons < prod <= cons + |r|
    requires NothingBeyond(r, cons, prod) && At(r, cons).owner == Owner(cons, |r|)
    ensures NothingBeyond(r, cons + 1, prod)
  {
    forall i | prod <= i < cons + 1 + |r|
      ensures !Fresh(r, i)
    {
      if i == cons + |r| { StaleNextLap(r, cons); } else { assert At(r, i) == At(r, i); }
    }
  }

  /** In every valid state a poll delivers exactly the oldest completion that was produced and
      not yet consumed, and nothing when there is none. */
  lemma PollIsDequeue(s: State)
    requires Valid(s)
    ensures var (s', d) := Poll(s);
            && Valid(s') && s'.rs == s.rs && s'.prod == s.prod && |s'.ring| == |s.ring|
            && (d.Some? <==> s.cons < s.prod)
            && (s.cons == s.prod ==> s' == s)
            && (s.cons < s.prod ==>
                  s'.cons == s.cons + 1 && Content(d.value) == Queue(s)[0] && Queue(s') == Queue(s)[1..])
  {
    hide Minis, Expand, MarkOwned, MiniStream, Pending, DecompressNext;
    if s.cur.left > 0 {
      DecompressDelivers(s);
    } else if s.cons < s.prod {
      if At(s.ring, s.cons).format == COMPRESSED {
        StartSession(s);
        DecompressDelivers(SaveMinis(SaveTitle(s), s.cons + 1));
      } else {
        TakeSingle(s);
      }
    } else {
      assert !Fresh(s.ring, s.cons);
    }
  }

  // ---------------------------------------------------------------- the device and whole runs

  /** A new ring: no slot has ever been written. */
  ghost predicate Init(s: State) {
    && s.cons == 0 && s.prod == 0 && s.cur.left == 0
    && s.cur.idx <= |s.cur.minis| == MINI_ARR_SIZE
    && forall i :: 0 <= i < |s.ring| ==> s.ring[i].opcode == INVALID
  }

  lemma InitValid(s: State)
    requires Init(s)
    ensures Valid(s) && Queue(s) == []
  {
    hide Minis, Expand, MiniStream;
    assert CurrentQueue(s) == [];
    forall i | 0 <= i < |s.ring|
      ensures !Fresh(s.ring, i)
    {
      assert At(s.ring, i) == s.ring[i];
    }
  }

  /** The device produces any number of entries and sessions into slots that are not in use.
      Inside a session it may write or skip whatever slot it likes, so those slots may hold
      stale entries of earlier laps; outside the indices it produces it writes nothing. */
  ghost predicate DeviceWrites(s: State, s': State) {
    && s' == s.(ring := s'.ring, prod := s'.prod)
    && s.prod <= s'.prod <= s.cons + |s.ring|
    && Agree(s.ring, s'.ring, s'.prod, s.prod + |s.ring|)
    && Holds(s'.ring, s.prod, s'.prod)
  }

  lemma AgreeEarlier(r: Ring, r': Ring, cons: nat, prod: nat, prod': nat)
    requires prod' <= cons + |r| && Agree(r, r', prod', prod + |r|)
    ensures Agree(r, r', cons, prod)
  {
    forall i | cons <= i < prod
      ensures At(r', i) == At(r, i)
    {
      NextLap(i, |r|);
      assert At(r', i + |r|) == At(r, i + |r|);
    }
  }

  /** What the device produces goes to the end of the queue and disturbs nothing before it. */
  lemma DeviceEnqueues(s: State, s': State)
    requires Valid(s) && DeviceWrites(s, s')
    ensures Valid(s') && Queue(s') == Queue(s) + Pending(s.rs, s'.ring, s.prod, s'.prod)
  {
    hide Expand, Minis, MiniStream, Holds, Pending, Stream;
    var at := s.cons + s.cur.left;
    AgreeEarlier(s.ring, s'.ring, s.cons, s.prod, s'.prod);
    PendingAgree(s.rs, s.ring, s'.ring, at, s.prod);
    PendingConcat(s.rs, s'.ring, at, s.prod, s'.prod);
    forall i | s'.prod <= i < s.cons + |s.ring|
      ensures !Fresh(s'.ring, i)
    {
      assert At(s'.ring, i) == At(s.ring, i);
    }
    if s.cur.left > 0 {
      forall i | s.cons <= i < s.cons + Min(s.cur.left, MINI_ARR_SIZE - s.cur.idx)
        ensures At(s'.ring, i).owner == Owner(i, |s.ring|)
      {
        assert At(s'.ring, i) == At(s.ring, i);
      }
    }
    SameStream(s, s');
  }

  lemma SameStream(s: State, s': State)
    requires s' == s.(ring := s'.ring, prod := s'.prod) && s.cur.idx <= |s.cur.minis| == MINI_ARR_SIZE
    requires Agree(s.ring, s'.ring, s.cons, s.prod) && s.cons + s.cur.left <= s.prod
    ensures Stream(s') == Stream(s)
  {
    hide Minis, MiniStream, At;
    var head := s.cur.minis[s.cur.idx..];
    MiniStreamAgree(s.ring, s'.ring, head, s.cons + MINI_ARR_SIZE - s.cur.idx, s.cur.left);
  }

  datatype Event = Wrote(batch: seq<Entry>) | Polled(result: Option<Entry>)

  ghost predicate Step(s: State, e: Event, s': State) {
    match e
    case Wrote(batch) => DeviceWrites(s, s') && batch == Pending(s.rs, s'.ring, s.prod, s'.prod)
    case Polled(result) => s.cur.idx <= |s.cur.minis| == MINI_ARR_SIZE && Poll(s) == (s', result)
  }

  ghost predicate Run(states: seq<State>, events: seq<Event>) {
    && |states| == |events| + 1
    && Init(states[0])
    && forall k :: 0 <= k < |events| ==> Step(states[k], events[k], states[k + 1])
  }

  ghost function Produced(events: seq<Event>): seq<Entry> {
    if events == [] then []
    else
      var last := events[|events| - 1];
      Produced(events[..|events| - 1]) + if last.Wrote? then last.batch else []
  }

  ghost function Delivered(events: seq<Event>): seq<Entry> {
    if events == [] then []
    else
      var last := events[|events| - 1];
      Delivered(events[..|events| - 1]) + if last.Polled? && last.result.Some? then [Content(last.result.value)] else []
  }

  /** What one step of the device or of the consumer does to the queue. */
  lemma StepKeeps(s: State, e: Event, s': State)
    requires Valid(s) && Step(s, e, s')
    ensures Valid(s')
    ensures e.Wrote? ==> Queue(s') == Queue(s) + e.batch
    ensures e.Polled? && e.result.Some? ==> Queue(s) == [Content(e.result.value)] + Queue(s')
    ensures e.Polled? && e.result.None? ==> Queue(s') == Queue(s)
  {
    hide Minis, Expand, MiniStream, Holds, Pending, Poll, Queue, DeviceWrites, Content;
    if e.Wrote? {
      DeviceEnqueues(s, s');
    } else {
      PollIsDequeue(s);
      if s.cons < s.prod {
        assert Queue(s) == [Queue(s)[0]] + Queue(s');
      } else {
        assert s' == s;
      }
    }
  }

  /** In every run, what was delivered followed by what is still queued is exactly what the
      device produced: every completion is delivered once and in order. */
  lemma {:induction false} ExactlyOnceInOrder(states: seq<State>, events: seq<Event>)
    requires Run(states, events)
    ensures Valid(states[|events|])
    ensures Delivered(events) + Queue(states[|events|]) == Produced(events)
    decreases |events|
  {
    hide Minis, Expand, MiniStream, Holds, Pending, Poll, Queue, Step, Valid, Content, Run;
    hide Produced, Delivered;
    LastEvent(events);
    if events == [] {
      RunStarts(states, events);
      InitValid(states[0]);
    } else {
      var n := |events| - 1;
      RunPrefix(states, events);
      ExactlyOnceInOrder(states[..n + 1], events[..n]);
      StepKeeps(states[n], events[n], states[n + 1]);
    }
  }

  lemma LastEvent(events: seq<Event>)
    ensures events == [] ==> Produced(events) == [] && Delivered(events) == []
    ensures events != [] ==>
              var n := |events| - 1;
              && Produced(events) == Produced(events[..n]) + (if events[n].Wrote? then events[n].batch else [])
              && Delivered(events) == Delivered(events[..n]) +
                   if events[n].Polled? && events[n].result.Some? then [Content(events[n].result.value)] else []
  {
    hide Content;
  }

  lemma RunStarts(states: seq<State>, events: seq<Event>)
    requires Run(states, events)
    ensures |states| == |events| + 1 && Init(states[0])
  {
  }

  lemma RunPrefix(states: seq<State>, events: seq<Event>)
    requires Run(states, events) && events != []
    ensures var n := |events| - 1;
            && |states| == n + 2 && Run(states[..n + 1], events[..n]) && states[..n + 1][n] == states[n]
            && Step(states[n], events[n], states[n + 1])
  {
    hide Step, Init;
  }

  /** In every run, a poll accepts an entry exactly when the device has produced the consumer
      index and it has not been consumed, and it accepts the completion of that index. */
  lemma AcceptedExactlyWhenProduced(states: seq<State>, events: seq<Event>, k: nat)
    requires Run(states, events) && k < |events| && events[k].Polled?
    ensures var result := events[k].result;
            && (result.Some? <==> |Delivered(events[..k])| < |Produced(events[..k])|)
            && (result.Some? ==> Content(result.value) == Produced(events[..k])[|Delivered(events[..k])|])
  {
    hide Minis, Expand, MiniStream, Holds, Pending, Poll;
    ExactlyOnceInOrder(states[..k + 1], events[..k]);
    assert Step(states[k], events[k], states[k + 1]);
    assert states[..k + 1][k] == states[k];
    PollIsDequeue(states[k]);
  }
}
