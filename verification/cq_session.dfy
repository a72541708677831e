/** What the entries of a compressed session are, field by field, however they are unpacked. */
module CqSession {
  import opened Words
  import opened Cqe
  import opened CqModel
  import opened CqEager

  /** The mini entries of the session whose title has index p: eight to a slot, the first eight in
      the slot after the title, the others in every eighth slot after the title's. */
  function MiniAt(r: Ring, p: nat, k: nat): Mini {
    Minis(At(r, p + if k < 8 then 1 else k / 8 * 8))[k % 8]
  }

  /** The strides that the first k messages of a session take up. */
  function Strides(r: Ring, p: nat, k: nat): nat {
    if k == 0 then 0 else Strides(r, p, k - 1) + MiniAt(r, p, k - 1).byteCnt / 0x1_0000 % 0x4000
  }

  /** Entry k of the session whose title has index p, field by field. */
  ghost predicate IsEntry(rs: Resources, r: Ring, p: nat, k: nat, e: Entry) {
    var title, m := At(r, p), MiniAt(r, p, k);
    var striding := (if rs.cqeVersion then title.srqnUidx % 0x100_0000 else title.qpn) in rs.striding;
    && e.byteCnt == m.byteCnt
    && (if title.opcode == 0 || title.opcode == 13 then
          e.wqeCounter == m.info / 0x1_0000 && e.sop == m.info / 0x100 % 0x100 && e.rxHash == title.rxHash
        else
          && e.wqeCounter == (title.wqeCounter + if striding then Strides(r, p, k) else k) % 0x1_0000
          && e.rxHash == m.info && e.sop == title.sop)
    && e.other == title.other && e.srqnUidx == title.srqnUidx && e.qpn == title.qpn
    && e.signature == title.signature && e.opcode == title.opcode && e.se == title.se
  }

  // ---------------------------------------------------------------- where the mini entries lie

  lemma {:induction false} StreamAt(r: Ring, head: seq<Mini>, at: nat, n: nat, k: nat)
    requires k < n
    ensures MiniStream(r, head, at, n)[k] ==
            if k < |head| then head[k] else Minis(At(r, at + (k - |head|) / 8 * 8))[(k - |head|) % 8]
    decreases k, if head == [] then 1 else 0
  {
    hide MiniStream, Minis, At;
    if n <= |head| {
      MiniStreamAtHand(r, head, at, n);
    } else {
      MiniStreamBeyond(r, head, at, n);
      if k >= |head| {
        var j := k - |head|;
        if j < 8 {
          FirstOfStream(r, at, n - |head|, j);
        } else {
          StreamAt(r, Minis(At(r, at)), at + MINI_ARR_SIZE, n - |head|, j);
          EightLess(j);
        }
      }
    }
  }

  lemma EightLess(j: nat)
    requires j >= 8
    ensures (j - 8) / 8 * 8 + 8 == j / 8 * 8 && (j - 8) % 8 == j % 8
  {
  }

  lemma FirstOfStream(r: Ring, at: nat, n: nat, j: nat)
    requires j < n && j < 8
    ensures MiniStream(r, Minis(At(r, at)), at + MINI_ARR_SIZE, n)[j] == Minis(At(r, at + j / 8 * 8))[j % 8]
  {
    hide MiniStream, At;
    var head := Minis(At(r, at));
    hide Minis;
    if n <= 8 {
      MiniStreamAtHand(r, head, at + MINI_ARR_SIZE, n);
    } else {
      MiniStreamBeyond(r, head, at + MINI_ARR_SIZE, n);
    }
  }

  lemma SessionLength(r: Ring, p: nat, n: nat)
    ensures |SessionMinis(r, p, n)| == n
  {
  }

  lemma SessionMini(r: Ring, p: nat, n: nat, k: nat)
    requires k < n
    ensures SessionMinis(r, p, n)[k] == MiniAt(r, p, k)
  {
    hide Minis, At, MiniStream;
    StreamAt(r, Minis(At(r, p + 1)), p + MINI_ARR_SIZE, n, k);
    if k >= 8 {
      EightLess(k);
    }
  }

  // ---------------------------------------------------------------- unpacking, field by field

  /** The counter before mini entry k, when it starts from w. */
  function Counted(striding: bool, w: nat, ms: seq<Mini>, k: nat): nat
    requires k <= |ms|
  {
    w + if !striding then k else if k == 0 then 0
        else Counted(true, 0, ms, k - 1) + ms[k - 1].byteCnt / 0x1_0000 % 0x4000
  }

  lemma {:induction false} CountedTail(ms: seq<Mini>, k: nat)
    requires 0 < k <= |ms|
    ensures Counted(true, 0, ms, k) == ms[0].byteCnt / 0x1_0000 % 0x4000 + Counted(true, 0, ms[1..], k - 1)
    decreases k
  {
    if k > 1 {
      CountedTail(ms, k - 1);
    }
  }

  /** Entry k that a title with counter w and mini entries ms stand for. */
  ghost predicate Unpacks(title: Entry, striding: bool, w: uint16, ms: seq<Mini>, k: nat, e: Entry)
    requires k < |ms|
  {
    && e.byteCnt == ms[k].byteCnt
    && (if title.opcode == 0 || title.opcode == 13 then
          e.wqeCounter == ms[k].info / 0x1_0000 && e.sop == ms[k].info / 0x100 % 0x100 && e.rxHash == title.rxHash
        else
          e.wqeCounter == Counted(striding, w, ms, k) % 0x1_0000 && e.rxHash == ms[k].info && e.sop == title.sop)
    && e.other == title.other && e.srqnUidx == title.srqnUidx && e.qpn == title.qpn
    && e.signature == title.signature && e.opcode == title.opcode && e.se == title.se
  }

  lemma {:induction false} ExpandUnpacks(title: Entry, striding: bool, w: uint16, ms: seq<Mini>, k: nat)
    requires k < |ms|
    ensures Unpacks(title, striding, w, ms, k, Expand(title, striding, w, ms)[k])
    decreases k
  {
    if k > 0 {
      var w' := NextCounter(title, striding, w, ms[0]);
      ExpandUnpacks(title, striding, w', ms[1..], k - 1);
      if !IsRequestor(title.opcode) {
        CountOn(striding, w, w', ms, k);
      }
    }
  }

  lemma CountOn(striding: bool, w: uint16, w': uint16, ms: seq<Mini>, k: nat)
    requires 0 < k <= |ms|
    requires w' == (w + if striding then ms[0].byteCnt / 0x1_0000 % 0x4000 else 1) % 0x1_0000
    ensures Counted(striding, w', ms[1..], k - 1) % 0x1_0000 == Counted(striding, w, ms, k) % 0x1_0000
  {
    if striding {
      CountedTail(ms, k);
      Wrapped(w, ms[0].byteCnt / 0x1_0000 % 0x4000, Counted(true, 0, ms[1..], k - 1));
    } else {
      Wrapped(w, 1, k - 1);
    }
  }

  lemma Wrapped(a: nat, b: nat, c: nat)
    ensures ((a + b) % 0x1_0000 + c) % 0x1_0000 == (a + b + c) % 0x1_0000
  {
  }

  lemma {:induction false} CountedStrides(r: Ring, p: nat, n: nat, k: nat)
    requires k <= n
    ensures Counted(true, 0, SessionMinis(r, p, n), k) == Strides(r, p, k)
    decreases k
  {
    hide Minis, SessionMinis, MiniAt;
    if k > 0 {
      CountedStrides(r, p, n, k - 1);
      SessionMini(r, p, n, k - 1);
    }
  }

  /** An entry that unpacks a session is an entry of it. */
  lemma UnpacksSession(rs: Resources, r: Ring, p: nat, k: nat, e: Entry)
    requires var t := At(r, p);
             k < t.byteCnt && Unpacks(t, IsStriding(rs, t), t.wqeCounter, SessionMinis(r, p, t.byteCnt), k, e)
    ensures IsEntry(rs, r, p, k, e)
  {
    hide Minis, SessionMinis, MiniAt, At;
    var n := At(r, p).byteCnt;
    SessionMini(r, p, n, k);
    CountedStrides(r, p, n, k);
  }

  lemma SameFields(title: Entry, striding: bool, w: uint16, ms: seq<Mini>, k: nat, e: Entry)
    requires k < |ms| && Unpacks(title, striding, w, ms, k, Content(e))
    ensures Unpacks(title, striding, w, ms, k, e)
  {
    hide Counted;
  }

  // ---------------------------------------------------------------- polls

  /** Outside a session a poll takes the entry at the consumer index, as it is unless it is a title,
      exactly when its opcode is valid and its owner bit is the parity of the lap. */
  lemma PollByFields(s: State)
    requires s.cur.idx <= |s.cur.minis| == MINI_ARR_SIZE && s.cur.left == 0
    ensures var e, (s', d) := s.ring[s.cons % |s.ring|], Poll(s);
            && (d == None <==> e.opcode == 15 || e.owner != (s.cons / |s.ring| % 2 == 1))
            && (d.Some? && e.format != 3 ==> d == Some(e) && s' == s.(cons := s.cons + 1))
  {
    hide DecompressNext, SaveMinis, SaveTitle;
    SlotIsRemainder(s.cons, |s.ring|);
  }

  /** The content of an entry is all of it but the owner bit and whether it is compressed. */
  lemma SameContent(a: Entry, b: Entry)
    ensures Content(a) == Content(b) <==>
              && (a.format == b.format || (a.format == 0 && b.format == 3) || (a.format == 3 && b.format == 0))
              && a.(owner := b.owner, format := b.format) == b
  {
  }

  /** From the start of a session on, poll k delivers entry k of it. */
  lemma PollDeliversEntry(s: State, k: nat)
    requires Valid(s) && s.cur.left == 0 && s.cons < s.prod && At(s.ring, s.cons).format == COMPRESSED
    requires k < At(s.ring, s.cons).byteCnt
    ensures k < s.prod - s.cons
    ensures var (s', d) := Poll(Polls(s, k).0);
            d.Some? && s'.cons == s.cons + k + 1 && IsEntry(s.rs, s.ring, s.cons, k, d.value)
  {
    hide Minis, Expand, MiniStream, Holds, Pending, Poll, Polls, SessionMinis, IsEntry, Unpacks, Content, At;
    var t := At(s.ring, s.cons);
    SessionIsNext(s);
    PollsAreDequeues(s, k);
    var s1 := Polls(s, k).0;
    PollIsDequeue(s1);
    var (s', d) := Poll(s1);
    assert Content(d.value) == Queue(s)[k..][0] == Queue(s)[k];
    var ms := SessionMinis(s.ring, s.cons, t.byteCnt);
    SessionLength(s.ring, s.cons, t.byteCnt);
    ExpandUnpacks(t, IsStriding(s.rs, t), t.wqeCounter, ms, k);
    SameFields(t, IsStriding(s.rs, t), t.wqeCounter, ms, k, d.value);
    UnpacksSession(s.rs, s.ring, s.cons, k, d.value);
  }

  /** The completions of the session come first in the queue. */
  lemma SessionIsNext(s: State)
    requires Valid(s) && s.cur.left == 0 && s.cons < s.prod && At(s.ring, s.cons).format == COMPRESSED
    ensures var t := At(s.ring, s.cons);
            var q := Expand(t, IsStriding(s.rs, t), t.wqeCounter, SessionMinis(s.ring, s.cons, t.byteCnt));
            t.byteCnt <= s.prod - s.cons && forall k :: 0 <= k < t.byteCnt ==> Queue(s)[k] == q[k]
  {
    hide Minis, Expand, MiniStream, SessionMinis, At;
    NoneCurrent(s);
  }

  // ---------------------------------------------------------------- unpacking in place

  /** Entry k as it is written in place. */
  ghost predicate IsWritten(rs: Resources, r: Ring, p: nat, k: nat, e: Entry) {
    IsEntry(rs, r, p, k, e) && e.format == 0 && e.owner == Owner(p + k, |r|)
  }

  lemma {:induction false} UnpackedIsExpanded(title: Entry, striding: bool, w: uint16, ms: seq<Mini>, i: nat, n: nat,
                                              k: nat)
    requires n > 0 && k < |ms|
    ensures Unpacks(title, striding, w, ms, k, Unpacked(title, striding, w, ms, i, n)[k])
  {
    UnpackedAt(title, striding, w, ms, i, n, k);
    ExpandUnpacks(title, striding, w, ms, k);
    hide Unpacked, Expand, Counted;
  }

  /** A session that no poll has started: slot k holds entry k of it afterwards. */
  lemma ExpandAtWritesEntries(rs: Resources, r: Ring, p: nat, k: nat)
    requires k < At(r, p).byteCnt <= |r|
    ensures IsWritten(rs, r, p, k, At(ExpandAt(rs, r, p), p + k))
  {
    hide Minis, SessionMinis, Unpacked, WriteAll, At, Unpacks, IsEntry;
    var t := At(r, p);
    var striding, ms := IsStriding(rs, t), SessionMinis(r, p, t.byteCnt);
    var es := Unpacked(t, striding, t.wqeCounter, ms, p, |r|);
    SessionLength(r, p, t.byteCnt);
    WriteAllEffect(r, p, es);
    UnpackedIsExpanded(t, striding, t.wqeCounter, ms, p, |r|, k);
    UnpackedAt(t, striding, t.wqeCounter, ms, p, |r|, k);
    assert At(WriteAll(r, p, es), p + k) == es[k];
    UnpacksSession(rs, r, p, k, es[k]);
  }

  /** A session of which polls have delivered n entries: slot k holds entry k of it afterwards. */
  lemma ExpandCurrentWritesEntries(s: State, n: nat, k: nat)
    requires Valid(s) && s.cur.left == 0 && s.cons < s.prod && At(s.ring, s.cons).format == COMPRESSED
    requires 0 < n <= k < At(s.ring, s.cons).byteCnt
    ensures n <= s.prod - s.cons
    ensures IsWritten(s.rs, s.ring, s.cons, k, At(ExpandCurrent(Polls(s, n).0).ring, s.cons + k))
  {
    hide Minis, Expand, MiniStream, Holds, Pending, Poll, Polls, SessionMinis, IsEntry, Unpacks, Content, At;
    hide ExpandCurrent, CurrentQueue;
    var t := At(s.ring, s.cons);
    SessionIsNext(s);
    PollsAreDequeues(s, n);
    LeftAfter(s, n);
    var s1 := Polls(s, n).0;
    ExpandCurrentKeeps(s1);
    var r := ExpandCurrent(s1).ring;
    WrittenAt(s1, k - n);
    CurrentIsNext(s1, k - n);
    assert Content(At(r, s.cons + k)) == Entries(r, s1.cons, s1.cons + s1.cur.left)[k - n];
    assert Queue(s1)[k - n] == Queue(s)[k];
    var ms := SessionMinis(s.ring, s.cons, t.byteCnt);
    SessionLength(s.ring, s.cons, t.byteCnt);
    ExpandUnpacks(t, IsStriding(s.rs, t), t.wqeCounter, ms, k);
    SameFields(t, IsStriding(s.rs, t), t.wqeCounter, ms, k, At(r, s.cons + k));
    UnpacksSession(s.rs, s.ring, s.cons, k, At(r, s.cons + k));
  }

  lemma CurrentIsNext(s: State, j: nat)
    requires Valid(s) && j < s.cur.left
    ensures Queue(s)[j] == CurrentQueue(s)[j]
  {
  }

  lemma WrittenAt(s: State, j: nat)
    requires Valid(s) && j < s.cur.left
    ensures var e := At(ExpandCurrent(s).ring, s.cons + j);
            e.format == 0 && e.owner == Owner(s.cons + j, |s.ring|) && |ExpandCurrent(s).ring| == |s.ring|
  {
    hide Minis, MiniStream, Unpacked, WriteAll, Holds, NothingBeyond, At;
    var es := Unpacked(s.cur.title, s.cur.striding, s.cur.wqeCnt, Stream(s), s.cons, |s.ring|);
    WriteAllEffect(s.ring, s.cons, es);
    UnpackedAt(s.cur.title, s.cur.striding, s.cur.wqeCnt, Stream(s), s.cons, |s.ring|, j);
    assert At(WriteAll(s.ring, s.cons, es), s.cons + j) == es[j];
  }

  /** How much of the session is left after n polls. */
  lemma LeftAfter(s: State, n: nat)
    requires Valid(s) && s.cur.left == 0 && s.cons < s.prod && At(s.ring, s.cons).format == COMPRESSED
    requires 0 < n <= At(s.ring, s.cons).byteCnt <= s.prod - s.cons
    ensures Polls(s, n).0.cur.left == At(s.ring, s.cons).byteCnt - n
  {
    hide Minis, MiniStream, Pending, SaveMinis, DecompressNext;
    PollIsDequeue(s);
    FirstPoll(s);
    LeftWithin(Poll(s).0, n - 1);
  }

  lemma FirstPoll(s: State)
    requires Valid(s) && s.cur.left == 0 && s.cons < s.prod && At(s.ring, s.cons).format == COMPRESSED
    ensures Poll(s).0.cur.left == At(s.ring, s.cons).byteCnt - 1
  {
    hide Minis, MiniStream, MarkOwned, Pending;
  }

  lemma {:induction false} LeftWithin(s: State, n: nat)
    requires Valid(s) && n <= s.cur.left <= s.prod - s.cons
    ensures Polls(s, n).0.cur.left == s.cur.left - n
    decreases n
  {
    hide Minis, MiniStream, MarkOwned, Pending, Holds;
    if n > 0 {
      PollIsDequeue(s);
      LeftWithin(Poll(s).0, n - 1);
    }
  }
}
