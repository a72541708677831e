/** A second producer counter, kept beside the driver's by a library that cannot see it. */
module SendShadow {
  import opened Words
  import opened SendSize
  import opened SendRing

  class Shadow {
    const wqeCnt: nat
    const sqWrid: array<nat>
    var scurPost: uint32

    constructor (wqeCnt: nat, wrids: array<nat>)
      requires wrids.Length == wqeCnt
      ensures scurPost == 0 && this.wqeCnt == wqeCnt && sqWrid == wrids
    {
      this.wqeCnt := wqeCnt;
      sqWrid := wrids;
      scurPost := 0;
    }

    /** Records a request that is about to be posted and advances by the blocks it is expected
        to take; inline data is not taken into account. */
    method UpdateScurPost(r: Request)
      requires IsRingSize(wqeCnt) && sqWrid.Length == wqeCnt
      modifies this`scurPost, sqWrid
      ensures scurPost == Low32(old(scurPost) + Blocks(r.(isInline := false)))
      ensures wqeCnt > 0 && sqWrid[..] == old(sqWrid[..])[old(scurPost) % wqeCnt := r.wrId]
    {
      hide IsRingSize;
      WrapIsHarmless(0, wqeCnt);
      var idx := scurPost % wqeCnt;
      sqWrid[idx] := r.wrId;
      var size := CTRL / 16;
      match r.opcode {
        case RdmaRead => size := size + RADDR / 16;
        case RdmaWrite => size := size + RADDR / 16;
        case RdmaWriteImm => size := size + RADDR / 16;
        case AtomicCmpSwap => size := size + (RADDR + ATOMIC) / 16;
        case AtomicFetchAdd => size := size + (RADDR + ATOMIC) / 16;
        case CqeWait => size := size + WAIT_EN / 16;
        case SendEnable => size := size + WAIT_EN / 16;
        case RecvEnable => size := size + WAIT_EN / 16;
        case _ =>
      }
      var i := 0;
      while i < |r.lengths|
        invariant 0 <= i <= |r.lengths| && size == HeaderUnits(r.opcode) + NonEmpty(r.lengths[..i])
      {
        assert r.lengths[..i + 1][..i] == r.lengths[..i];
        if r.lengths[i] > 0 {
          size := size + DATA / 16;
        }
        i := i + 1;
      }
      assert r.lengths[..i] == r.lengths;
      scurPost := Low32(scurPost + DivRoundUp(size * 16, SEND_WQE_BB));
    }
  }

  /** The shadow counter is the driver's, and its table names the identifier of every request
      that is not retired at the block where the driver put it. */
  ghost predicate InSync<W>(sq: SendQueue<W>, sh: Shadow)
    reads sq, sh, sh.sqWrid
  {
    && sh.wqeCnt == sq.size.wqeCnt == sh.sqWrid.Length && sh.wqeCnt > 0
    && sh.scurPost == sq.scurPost
    && forall i :: 0 <= sq.retired <= i < |sq.log| ==> sh.sqWrid[Slot(sq.log[i].start, sh.wqeCnt)] == sq.log[i].wrId
  }

  ghost predicate TablesSeparate<W>(sq: SendQueue<W>, sh: Shadow) {
    (sh.sqWrid as object) != sq.ring && (sh.sqWrid as object) != sq.wrid && (sh.sqWrid as object) != sq.wqeHead
  }

  /** Posts one request through both. A request that is posted keeps the two in step exactly
      when the shadow expects the right number of blocks, as it does for every request that is
      not inline; one that the driver refuses leaves the shadow ahead by what it expected. */
  method PostThrough<W>(sq: SendQueue<W>, sh: Shadow, w: WorkRequest<W>) returns (err: PostError)
    requires sq.Valid() && Acceptable(sq.q, sq.size, w) && InSync(sq, sh) && TablesSeparate(sq, sh)
    modifies sq`scurPost, sq`scur, sq`log, sq`head, sq.ring, sq.wrid, sq.wqeHead, sh`scurPost, sh.sqWrid
    ensures sq.Valid() && err == Verdict(sq.q, sq.size, |old(sq.log)| - sq.retired, w.r)
    ensures err == Ok ==> sq.log == old(sq.log) + [Posted(old(sq.scur), w.wqe, w.r.wrId)]
    ensures err == Ok ==> (InSync(sq, sh) <==> Blocks(w.r) == Blocks(w.r.(isInline := false)))
    ensures err == Ok && !w.r.isInline ==> InSync(sq, sh)
    ensures err != Ok ==> sq.log == old(sq.log) && sh.scurPost == Low32(sq.scurPost + Blocks(w.r.(isInline := false)))
    ensures err != Ok && |w.r.lengths| < 0x8000_0000 ==> !InSync(sq, sh)
  {
    hide WellSized, IsRingSize, Window, Contiguous, AllRecorded, Laid, AllLaid, Low32, Blocks;
    hide WrittenBlocks, HasRoom, Overlaid;
    ghost var log0, scur0, post0 := sq.log, sq.scur, sq.scurPost;
    sh.UpdateScurPost(w.r);
    Room(sq, sh, log0, scur0);
    err := sq.PostOne(w, 0);
    var n := if err == Ok then 1 else 0;
    sq.Advance(|sq.log| - n, sq.head, n);
    sq.head := Low32(sq.head + n);
    if err == Ok {
      sq.Advance(scur0, post0, Blocks(w.r));
      ShadowFits(sq, w);
      SameStep(post0, Blocks(w.r), Blocks(w.r.(isInline := false)));
      assert !w.r.isInline ==> w.r.(isInline := false) == w.r;
    } else if |w.r.lengths| < 0x8000_0000 {
      RefusedDiverges(post0, w.r.(isInline := false));
    }
  }

  lemma ShadowFits<W>(sq: SendQueue<W>, w: WorkRequest<W>)
    requires sq.Shape() && Acceptable(sq.q, sq.size, w) && PassesChecks(sq.size, w.r)
    requires sq.retired < |sq.log| && Supported(sq.q, w.r.opcode)
    ensures Blocks(w.r) <= 0x1_0000 && Blocks(w.r.(isInline := false)) <= 0x1_0000
  {
    hide WellSized, IsRingSize, Blocks, WrittenBlocks, HasRoom;
    WrittenIsAccounted(sq.size, w.r);
    sq.RoomBounds(w.r);
    sq.BlocksFit();
    FewEntries(sq.q, sq.d, sq.size, w.r.(isInline := false));
  }

  /** Not counting inline data a request is short, because it has few gather entries. */
  lemma FewEntries(q: QpInit, d: Device, s: SqSize, r: Request)
    requires WellSized(q, d, s) && |r.lengths| <= s.maxGs && !r.isInline
    ensures Blocks(r) <= 9
  {
    hide SqOverhead, NonEmpty, IsPowerOfTwo;
  }

  lemma SameStep(a: nat, x: nat, y: nat)
    requires x <= 0x1_0000 && y <= 0x1_0000
    ensures Low32(a + x) == Low32(a + y) <==> x == y
  {
  }

  /** The entries of a request are counted in a signed 32-bit number: the shadow moves off. */
  lemma RefusedDiverges(a: uint32, r: Request)
    requires !r.isInline && |r.lengths| < 0x8000_0000
    ensures Low32(a + Blocks(r)) != a
  {
    hide NonEmpty;
  }

  /** A queue for a single request that still waits for it refuses the next one, which the shadow
      has counted. */
  lemma RefusedInput(a: uint32)
    ensures var r := Request(Send, false, [8], 0);
            Verdict(SMALL, SMALL_SIZE, 1, r) == Overflow && Low32(a + Blocks(r)) == Low32(a + 1) != a
  {
    hide NonEmpty;
    Single(8);
  }

  /** The block of the next request is not the first block of one that is not retired. */
  lemma Room<W>(sq: SendQueue<W>, sh: Shadow, log: seq<Posted<W>>, scur: nat)
    requires sq.Valid() && log == sq.log && scur == sq.scur && sh.wqeCnt == sq.size.wqeCnt
    ensures sh.wqeCnt > 0 && sq.scurPost % sh.wqeCnt == Slot(scur, sh.wqeCnt)
    ensures |log| - sq.retired < sq.size.maxPost ==>
              forall i :: sq.retired <= i < |log| ==> Slot(log[i].start, sh.wqeCnt) != Slot(scur, sh.wqeCnt)
  {
    hide WellSized, IsRingSize, Window, Contiguous, AllRecorded, Laid, AllLaid;
    WrapIsHarmless(scur, sh.wqeCnt);
    SlotIsRemainder(sq.scurPost, sh.wqeCnt);
    if |log| - sq.retired < sq.size.maxPost {
      sq.RoomForOne();
      forall i | sq.retired <= i < |log|
        ensures Slot(log[i].start, sh.wqeCnt) != Slot(scur, sh.wqeCnt)
      {
        NotEmpty(log, scur, i);
        FreeBlock(log, sq.retired, scur, sq.MaxBlocks(), sh.wqeCnt, i, 0, 0);
      }
    }
  }

  lemma NotEmpty<W>(log: seq<Posted<W>>, end: nat, i: nat)
    requires Contiguous(log, end) && i < |log|
    ensures log[i].wqe != []
  {
  }

  // ---------------------------------------------------------------- whole runs

  /** A new queue and a new shadow are in step. */
  lemma NewInSync<W>(sq: SendQueue<W>, sh: Shadow)
    requires sq.log == [] && sq.scurPost == 0 && sh.scurPost == 0
    requires sh.wqeCnt == sq.size.wqeCnt == sh.sqWrid.Length && sh.wqeCnt > 0
    ensures InSync(sq, sh)
  {
  }

  /** The shadow expects the size that the driver accounts for. */
  ghost predicate Expected(r: Request) {
    Blocks(r) == Blocks(r.(isInline := false))
  }

  lemma NotInlineIsExpected(r: Request)
    requires !r.isInline
    ensures Expected(r)
  {
    assert r.(isInline := false) == r;
  }

  /** A completion is reported with the same identifier from both tables, and keeps them in step. */
  method CompleteThrough<W>(sq: SendQueue<W>, sh: Shadow, counter: uint16, ghost j: nat)
    returns (wrId: nat, shadowId: nat)
    requires sq.Valid() && InSync(sq, sh) && sq.retired <= j < |sq.log| && counter == sq.log[j].start % 0x1_0000
    modifies sq`tail, sq`retired
    ensures sq.Valid() && InSync(sq, sh) && sq.retired == j + 1
    ensures wrId == shadowId == sq.log[j].wrId
  {
    hide WellSized, IsRingSize, Window, Contiguous, AllRecorded, Laid, AllLaid, Low32, SendQueue.Valid;
    NamesBlock(sq, j);
    shadowId := sh.sqWrid[counter % sh.wqeCnt];
    wrId := sq.PollSend(counter, j);
  }

  lemma NamesBlock<W>(sq: SendQueue<W>, j: nat)
    requires sq.Valid() && j < |sq.log|
    ensures sq.size.wqeCnt > 0
    ensures sq.log[j].start % 0x1_0000 % sq.size.wqeCnt == Slot(sq.log[j].start, sq.size.wqeCnt)
  {
    hide WellSized, Window, Contiguous, AllRecorded, Laid, AllLaid, Low32, IsRingSize;
    CounterNamesBlock(sq.log[j].start, sq.size.wqeCnt);
  }

  /** A request is posted, or the device completes the k-th request that is not retired, and with
      it all earlier ones. */
  datatype Event<W> = Post(w: WorkRequest<W>) | Complete(k: nat)

  /** The identifiers of the requests that are not retired after a run, oldest first. */
  function Outstanding<W>(events: seq<Event<W>>): seq<nat> {
    if events == [] then []
    else
      var n := |events| - 1;
      var before := Outstanding(events[..n]);
      match events[n]
      case Post(w) => before + [w.r.wrId]
      case Complete(k) => if k < |before| then before[k + 1..] else before
  }

  /** The identifiers that a run should report: of each request that the device completes. */
  function Reports<W>(events: seq<Event<W>>): seq<nat> {
    if events == [] then []
    else
      var n := |events| - 1;
      var before := Outstanding(events[..n]);
      Reports(events[..n]) + if events[n].Complete? && events[n].k < |before| then [before[events[n].k]] else []
  }

  /** What the device knows of the requests that are not retired: the counters that it will put
      into their completions. */
  ghost predicate DeviceKnows<W>(sq: SendQueue<W>, starts: seq<uint16>, ids: seq<nat>)
    reads sq
  {
    && sq.retired + |starts| == |sq.log| && |ids| == |starts|
    && forall i :: 0 <= i < |starts| ==>
         starts[i] == sq.log[sq.retired + i].start % 0x1_0000 && ids[i] == sq.log[sq.retired + i].wrId
  }

  /** Posts the next request of a run; its completion will carry the low bits of the producer. */
  method PostNext<W>(sq: SendQueue<W>, sh: Shadow, w: WorkRequest<W>, starts: seq<uint16>, ghost ids: seq<nat>)
    returns (err: PostError, starts': seq<uint16>)
    requires sq.Valid() && InSync(sq, sh) && TablesSeparate(sq, sh) && DeviceKnows(sq, starts, ids)
    requires Acceptable(sq.q, sq.size, w) && Expected(w.r)
    modifies sq`scurPost, sq`scur, sq`log, sq`head, sq.ring, sq.wrid, sq.wqeHead, sh`scurPost, sh.sqWrid
    ensures sq.Valid() && err == Verdict(sq.q, sq.size, |ids|, w.r)
    ensures err == Ok ==> InSync(sq, sh) && DeviceKnows(sq, starts', ids + [w.r.wrId])
  {
    hide SendQueue.Valid, InSync, Acceptable, Verdict;
    ProducerLowBits(sq);
    starts' := starts + [sq.scurPost % 0x1_0000];
    err := PostThrough(sq, sh, w);
  }

  lemma ProducerLowBits<W>(sq: SendQueue<W>)
    requires sq.Valid()
    ensures sq.scurPost % 0x1_0000 == sq.scur % 0x1_0000
  {
    hide WellSized, IsRingSize, Window, Contiguous, AllRecorded, AllLaid;
    LowBits(sq.scur);
  }

  lemma LowBits(x: nat)
    ensures Low32(x) % 0x1_0000 == x % 0x1_0000
  {
  }

  /** Completes the k-th request that is not retired. */
  method CompleteNext<W>(sq: SendQueue<W>, sh: Shadow, k: nat, starts: seq<uint16>, ghost ids: seq<nat>)
    returns (wrId: nat, shadowId: nat)
    requires sq.Valid() && InSync(sq, sh) && DeviceKnows(sq, starts, ids) && k < |starts|
    modifies sq`tail, sq`retired
    ensures sq.Valid() && InSync(sq, sh) && DeviceKnows(sq, starts[k + 1..], ids[k + 1..])
    ensures wrId == shadowId == ids[k]
  {
    hide SendQueue.Valid, InSync;
    wrId, shadowId := CompleteThrough(sq, sh, starts[k], sq.retired + k);
  }

  lemma NoneOutstanding<W>(sq: SendQueue<W>)
    requires sq.retired == |sq.log|
    ensures DeviceKnows(sq, [], [])
  {
  }

  lemma Paired<W>(sq: SendQueue<W>, starts: seq<uint16>, ids: seq<nat>)
    requires DeviceKnows(sq, starts, ids)
    ensures |starts| == |ids|
  {
  }

  lemma OneMore<W>(events: seq<Event<W>>, n: nat)
    requires n < |events|
    ensures events[..n + 1][..n] == events[..n] && events[..n + 1][n] == events[n]
  {
  }

  lemma Whole<W>(events: seq<Event<W>>)
    ensures events[..|events|] == events
  {
  }

  /** Runs events through both until a request is refused. As long as the shadow expects the size
      of every request, as it does of every one that is not inline, both stay in step after every
      event, and all completions are reported by both with the identifiers that were posted. */
  method RunThrough<W>(sq: SendQueue<W>, sh: Shadow, events: seq<Event<W>>)
    returns (n: nat, wrIds: seq<nat>, shadowIds: seq<nat>)
    requires sq.Valid() && InSync(sq, sh) && TablesSeparate(sq, sh) && sq.retired == |sq.log|
    requires forall i :: 0 <= i < |events| && events[i].Post? ==>
               Acceptable(sq.q, sq.size, events[i].w) && Expected(events[i].w.r)
    modifies sq`scurPost, sq`scur, sq`log, sq`head, sq`tail, sq`retired
    modifies sq.ring, sq.wrid, sq.wqeHead, sh`scurPost, sh.sqWrid
    ensures sq.Valid() && n <= |events| && shadowIds == wrIds
    ensures n == |events| ==> InSync(sq, sh) && wrIds == Reports(events)
    ensures n < |events| ==>
              && events[n].Post? && Verdict(sq.q, sq.size, |Outstanding(events[..n])|, events[n].w.r) != Ok
              && wrIds == Reports(events[..n])
  {
    hide SendQueue.Valid, InSync, Expected, DeviceKnows, Acceptable, Verdict;
    n, wrIds, shadowIds := 0, [], [];
    var starts: seq<uint16> := [];
    ghost var ids: seq<nat> := [];
    NoneOutstanding(sq);
    while n < |events|
      invariant n <= |events| && sq.Valid() && InSync(sq, sh) && DeviceKnows(sq, starts, ids) && shadowIds == wrIds
      invariant ids == Outstanding(events[..n]) && wrIds == Reports(events[..n])
    {
      OneMore(events, n);
      match events[n] {
        case Post(w) =>
          var err, starts' := PostNext(sq, sh, w, starts, ids);
          if err != Ok {
            return;
          }
          starts, ids := starts', ids + [w.r.wrId];
        case Complete(k) =>
          Paired(sq, starts, ids);
          if k < |starts| {
            var wrId, shadowId := CompleteNext(sq, sh, k, starts, ids);
            wrIds, shadowIds := wrIds + [wrId], shadowIds + [shadowId];
            starts, ids := starts[k + 1..], ids[k + 1..];
          }
      }
      n := n + 1;
    }
    Whole(events);
  }

  /** The same from the start: a new queue and a new shadow over tables of their own, and requests
      that are not inline. */
  method RunFromStart<W>(q: QpInit, d: Device, size: SqSize, x: W, events: seq<Event<W>>)
    returns (n: nat, wrIds: seq<nat>, shadowIds: seq<nat>)
    requires WellSized(q, d, size) && IsRingSize(size.wqeCnt) && size.wqeCnt <= 0x1_0000
    requires forall i :: 0 <= i < |events| && events[i].Post? ==>
               Acceptable(q, size, events[i].w) && !events[i].w.r.isInline
    ensures n <= |events| && shadowIds == wrIds == Reports(events[..n])
    ensures n < |events| ==>
              events[n].Post? && Verdict(q, size, |Outstanding(events[..n])|, events[n].w.r) != Ok
  {
    hide WellSized, IsRingSize, InSync, Expected, Acceptable, Verdict;
    var cnt := size.wqeCnt;
    WrapIsHarmless(0, cnt);
    var ring, wrid, heads := new W[cnt](_ => x), new nat[cnt](_ => 0), new uint32[cnt](_ => 0);
    var sq := new SendQueue(q, d, size, ring, wrid, heads);
    var ids := new nat[cnt](_ => 0);
    var sh := new Shadow(cnt, ids);
    NewInSync(sq, sh);
    forall i | 0 <= i < |events| && events[i].Post?
      ensures Expected(events[i].w.r)
    {
      NotInlineIsExpected(events[i].w.r);
    }
    n, wrIds, shadowIds := RunThrough(sq, sh, events);
    Whole(events);
  }

  /** For inline requests the two sizes agree only by coincidence: twelve inline bytes take one
      unit like a pointer, twenty-nine take three and push a write into a second block. */
  lemma InlineDiverges()
    ensures var short := Request(RdmaWrite, true, [12], 0);
            var long := Request(RdmaWrite, true, [29], 0);
            && Blocks(short) == Blocks(short.(isInline := false))
            && Blocks(long) == 2 && Blocks(long.(isInline := false)) == 1
  {
    hide Sum, NonEmpty, Align;
    Single(12);
    Single(29);
    AlignTo(16, 16);
    AlignTo(33, 48);
  }

  lemma Single(l: nat)
    ensures Sum([l]) == l && (l > 0 ==> NonEmpty([l]) == 1)
  {
    assert [l][..0] == [];
  }

  lemma AlignTo(v: nat, r: nat)
    requires v <= r < v + 16 && r % 16 == 0
    ensures Align(v, 16) == r
  {
  }
}
