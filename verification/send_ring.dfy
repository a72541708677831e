/** The send ring: requests of different sizes share a ring of blocks, and overflow is checked
    by counting requests. The bookkeeping of a request lies at the block where it starts. */
module SendRing {
  import opened Words
  import opened SendSize

  /** A posted request: its first block counted without bound, its contents and identifier. */
  datatype Posted<W> = Posted(start: nat, wqe: seq<W>, wrId: nat)

  /** The log from position lo on lies block after block, ending at block end. */
  ghost predicate Contiguous<W>(log: seq<Posted<W>>, end: nat) {
    && (forall i :: 0 <= i < |log| ==> log[i].wqe != [])
    && (forall i, j :: 0 <= i < j < |log| ==> log[i].start + |log[i].wqe| <= log[j].start)
    && (forall i :: 0 <= i < |log| ==> log[i].start + |log[i].wqe| <= end)
  }

  /** Requests that take at most b blocks each, so that n of them lie within n * b blocks. */
  ghost predicate Window<W>(log: seq<Posted<W>>, tail: nat, end: nat, b: nat)
    requires tail <= |log|
  {
    && (forall i :: tail <= i < |log| ==> |log[i].wqe| <= b)
    && forall i :: tail <= i < |log| ==> end <= log[i].start + (|log| - i) * b
  }

  /** The ring holds these contents from block start on. */
  ghost predicate Laid<W>(ring: seq<W>, start: nat, wqe: seq<W>) {
    |ring| > 0 && forall k :: 0 <= k < |wqe| ==> ring[Place(start, k, |ring|)] == wqe[k]
  }

  /** Every request that is not retired is in the ring as it was posted. */
  ghost predicate AllLaid<W>(ring: seq<W>, log: seq<Posted<W>>, tail: nat) {
    forall i :: 0 <= tail <= i < |log| ==> Laid(ring, log[i].start, log[i].wqe)
  }

  ghost predicate AllRecorded<W>(wrid: seq<nat>, wqeHead: seq<uint32>, log: seq<Posted<W>>, tail: nat) {
    forall i :: 0 <= tail <= i < |log| ==> Recorded(wrid, wqeHead, log[i], i)
  }

  /** The bookkeeping of request number i. */
  ghost predicate Recorded<W>(wrid: seq<nat>, wqeHead: seq<uint32>, p: Posted<W>, i: nat) {
    && |wrid| == |wqeHead| > 0
    && wrid[Slot(p.start, |wrid|)] == p.wrId && wqeHead[Slot(p.start, |wrid|)] == Low32(i)
  }

  lemma WindowGrows<W>(log: seq<Posted<W>>, tail: nat, end: nat, b: nat, p: Posted<W>)
    requires tail <= |log| && Contiguous(log, end) && Window(log, tail, end, b)
    requires p.start == end && 0 < |p.wqe| <= b
    ensures Contiguous(log + [p], end + |p.wqe|) && Window(log + [p], tail, end + |p.wqe|, b)
  {
    ContiguousGrows(log, end, p);
    hide Contiguous;
    var log' := log + [p];
    forall i | tail <= i < |log'|
      ensures |log'[i].wqe| <= b && end + |p.wqe| <= log'[i].start + (|log'| - i) * b
    {
      OneMore(|log| - i, b);
      if i < |log| {
        assert log'[i] == log[i];
      } else {
        assert log'[i] == p;
      }
    }
  }

  lemma OneMore(m: int, b: nat)
    ensures (m + 1) * b == m * b + b && (m == 0 ==> (m + 1) * b == b)
  {
  }

  lemma ContiguousGrows<W>(log: seq<Posted<W>>, end: nat, p: Posted<W>)
    requires Contiguous(log, end) && p.start == end && 0 < |p.wqe|
    ensures Contiguous(log + [p], end + |p.wqe|)
  {
  }

  /** Block ranges of requests that are not retired never share a slot of the ring. */
  lemma RangesDisjoint<W>(log: seq<Posted<W>>, tail: nat, end: nat, b: nat, n: nat, i: nat, j: nat, k: nat, l: nat)
    requires tail <= i < j < |log| && Contiguous(log, end) && Window(log, tail, end, b)
    requires (|log| - tail) * b <= n && n > 0
    requires k < |log[i].wqe| && l < |log[j].wqe|
    ensures Slot(log[i].start + k, n) != Slot(log[j].start + l, n)
  {
    WindowBound(log, tail, end, b, n, i);
    SlotsDistinct(log[i].start + k, log[j].start + l, n);
  }

  /** From the start of any request that is not retired up to the producer is at most one lap. */
  lemma WindowBound<W>(log: seq<Posted<W>>, tail: nat, end: nat, b: nat, n: nat, i: nat)
    requires tail <= i < |log| && Window(log, tail, end, b) && (|log| - tail) * b <= n
    ensures end <= log[i].start + n
  {
    ScaleDown(|log| - i, |log| - tail, b);
  }

  /** When one more request may be posted, the blocks from the producer on are free. */
  lemma FreeBlock<W>(log: seq<Posted<W>>, tail: nat, end: nat, b: nat, n: nat, i: nat, l: nat, k: nat)
    requires tail <= i < |log| && Contiguous(log, end) && Window(log, tail, end, b) && (|log| - tail + 1) * b <= n
    requires l < |log[i].wqe| && k < b && n > 0
    ensures Place(log[i].start, l, n) != Place(end, k, n)
  {
    ScaleDown(|log| - i + 1, |log| - tail + 1, b);
    Distribute(b, |log| - i, 1);
    Distribute(b, |log| - i + 1, 0);
    Distribute(b, |log| - i, 0);
    SlotsDistinct(log[i].start + l, end + k, n);
  }

  /** Writing block k of a new request damages no request that is not retired. */
  lemma WriteBlock<W>(ring: seq<W>, log: seq<Posted<W>>, tail: nat, end: nat, b: nat, wqe: seq<W>, k: nat)
    requires tail <= |log| && Contiguous(log, end) && Window(log, tail, end, b) && (|log| - tail + 1) * b <= |ring|
    requires AllLaid(ring, log, tail) && k < |wqe| <= b && |ring| > 0 && b <= |ring| && Laid(ring, end, wqe[..k])
    ensures var ring' := ring[Place(end, k, |ring|) := wqe[k]];
            AllLaid(ring', log, tail) && Laid(ring', end, wqe[..k + 1])
  {
    var n := |ring|;
    var ring' := ring[Place(end, k, n) := wqe[k]];
    forall j | 0 <= j < k + 1
      ensures ring'[Place(end, j, n)] == wqe[..k + 1][j]
    {
      if j < k {
        SlotsDistinct(end + j, end + k, n);
        assert ring[Place(end, j, n)] == wqe[..k][j];
      }
    }
    forall i | tail <= i < |log|
      ensures Laid(ring', log[i].start, log[i].wqe)
    {
      assert Laid(ring, log[i].start, log[i].wqe);
      forall l | 0 <= l < |log[i].wqe|
        ensures ring'[Place(log[i].start, l, n)] == log[i].wqe[l]
      {
        FreeBlock(log, tail, end, b, n, i, l, k);
      }
    }
  }

  /** The blocks of a request laid over the ring from a block on, whatever lay there. */
  function Overlaid<W>(ring: seq<W>, start: nat, wqe: seq<W>): (r: seq<W>)
    requires |ring| > 0
    ensures |r| == |ring|
  {
    if wqe == [] then ring
    else
      var k := |wqe| - 1;
      Overlaid(ring, start, wqe[..k])[Place(start, k, |ring|) := wqe[k]]
  }

  /** A request of no more blocks than computed damages no request that is not retired. */
  lemma {:induction false} OverlaidKeeps<W>(ring: seq<W>, log: seq<Posted<W>>, tail: nat, end: nat, b: nat, wqe: seq<W>)
    requires tail <= |log| && Contiguous(log, end) && Window(log, tail, end, b) && (|log| - tail + 1) * b <= |ring|
    requires AllLaid(ring, log, tail) && |wqe| <= b <= |ring| && |ring| > 0
    ensures AllLaid(Overlaid(ring, end, wqe), log, tail) && Laid(Overlaid(ring, end, wqe), end, wqe)
    decreases |wqe|
  {
    hide Contiguous, Window, AllLaid, Laid;
    if wqe == [] {
      LaidNothing(ring, end);
    } else {
      var k := |wqe| - 1;
      OverlaidKeeps(ring, log, tail, end, b, wqe[..k]);
      WriteBlock(Overlaid(ring, end, wqe[..k]), log, tail, end, b, wqe, k);
      assert wqe[..k + 1] == wqe;
    }
  }

  lemma LaidNothing<W>(ring: seq<W>, start: nat)
    requires |ring| > 0
    ensures Laid(ring, start, [])
  {
  }

  lemma LaidOneMore<W>(ring: seq<W>, log: seq<Posted<W>>, tail: nat, p: Posted<W>)
    requires AllLaid(ring, log, tail) && Laid(ring, p.start, p.wqe)
    ensures AllLaid(ring, log + [p], tail)
  {
    forall i | tail <= i < |log| + 1
      ensures Laid(ring, (log + [p])[i].start, (log + [p])[i].wqe)
    {
      if i < |log| { assert Laid(ring, log[i].start, log[i].wqe); }
    }
  }

  /** Recording a new request at its first block keeps the other records. */
  lemma RecordOne<W>(wrid: seq<nat>, wqeHead: seq<uint32>, log: seq<Posted<W>>, tail: nat, end: nat, b: nat,
                     p: Posted<W>)
    requires tail <= |log| && Contiguous(log, end) && Window(log, tail, end, b) && (|log| - tail + 1) * b <= |wrid|
    requires AllRecorded(wrid, wqeHead, log, tail) && |wrid| == |wqeHead| > 0 && p.start == end && 0 < |p.wqe| <= b
    ensures var s := Slot(end, |wrid|);
            AllRecorded(wrid[s := p.wrId], wqeHead[s := Low32(|log|)], log + [p], tail)
  {
    var s := Slot(end, |wrid|);
    var wrid', head', log' := wrid[s := p.wrId], wqeHead[s := Low32(|log|)], log + [p];
    forall i | tail <= i < |log'|
      ensures Recorded(wrid', head', log'[i], i)
    {
      if i < |log| {
        assert Recorded(wrid, wqeHead, log[i], i);
        FreeBlock(log, tail, end, b, |wrid|, i, 0, 0);
      }
    }
  }

  lemma ScaleDown(x: nat, y: nat, b: nat)
    requires x <= y
    ensures x * b <= y * b
  {
    assert y * b == x * b + (y - x) * b;
  }

  /** A ring that holds at most 2^16 blocks is addressed exactly by the 16-bit counter that a
      completion carries. */
  lemma CounterNamesBlock(start: nat, n: nat)
    requires IsRingSize(n) && n <= 0x1_0000
    ensures n > 0 && start % 0x1_0000 % n == Slot(start, n)
  {
    var e: nat :| e <= 31 && n == Pow2(e);
    SixteenBits();
    if e > 16 {
      Pow2Monotone(17, e);
      assert false;
    }
    Pow2Add(e, 16 - e);
    RemainderOfRemainder(start, n, Pow2(16 - e));
    SlotIsRemainder(start, n);
  }

  lemma SixteenBits()
    ensures Pow2(16) == 0x1_0000 && Pow2(17) == 0x2_0000
  {
    assert Pow2(8) == 256;
    Pow2Add(8, 8);
  }

  lemma RemainderOfRemainder(x: nat, n: nat, c: nat)
    requires n > 0 && n * c == 0x1_0000
    ensures x % 0x1_0000 % n == x % n
  {
    var w, y := x / 0x1_0000, x % 0x1_0000;
    var q, r := y / n, y % n;
    assert x == 0x1_0000 * w + y && y == n * q + r;
    ParentQuotient(n, c, w, q);
    DivModUnique(c * w + q, r, n);
  }

  lemma ParentQuotient(n: nat, c: nat, w: nat, q: nat)
    requires n * c == 0x1_0000
    ensures 0x1_0000 * w + n * q == (c * w + q) * n
  {
    Associate(n, c, w);
    Distribute(n, c * w, q);
    Distribute(n, c * w + q, 0);
  }

  /** What a caller hands to the queue: the request, and the blocks that are written for it. A
      request that is refused for its inline data has written some as well. */
  datatype WorkRequest<W> = WorkRequest(r: Request, wqe: seq<W>)

  datatype PostError = Ok | Overflow | TooManyEntries | Unsupported | InlineTooLong

  predicate Supported(q: QpInit, op: Opcode) {
    (IsAtomic(op) ==> q.atomicsEnabled) && (IsManaged(op) ==> q.crossChannel)
  }

  /** Why a request is refused when so many are not retired, in the order of the checks. */
  function Verdict(q: QpInit, s: SqSize, inFlight: int, r: Request): PostError {
    if inFlight >= s.maxPost then Overflow
    else if |r.lengths| > s.maxGs then TooManyEntries
    else if !Supported(q, r.opcode) then Unsupported
    else if r.isInline && Sum(r.lengths) > s.maxInline then InlineTooLong
    else Ok
  }

  /** A request within what was asked for at creation is posted. */
  lemma AskedForIsPosted(q: QpInit, d: Device, s: SqSize, inFlight: nat, r: Request)
    requires Granted(q, d, s) && inFlight < q.maxSendWr && |r.lengths| <= q.maxSendSge
    requires r.isInline ==> Sum(r.lengths) <= q.maxInlineData
    requires r.opcode == AtomicCmpSwap || r.opcode == AtomicFetchAdd ==> q.atomicsEnabled
    requires r.opcode == CqeWait || r.opcode == SendEnable || r.opcode == RecvEnable ==> q.crossChannel
    ensures Verdict(q, s, inFlight, r) == Ok
  {
    hide IsLeastRoom, IsLeastPower, AreAllowed, Sum;
  }

  /** A request is posted exactly within what the queue allows. */
  lemma PostedExactly(q: QpInit, s: SqSize, inFlight: nat, r: Request)
    ensures Verdict(q, s, inFlight, r) == Ok <==>
              && inFlight < s.maxPost && |r.lengths| <= s.maxGs
              && (r.isInline ==> Sum(r.lengths) <= s.maxInline)
              && (r.opcode == AtomicCmpSwap || r.opcode == AtomicFetchAdd ==> q.atomicsEnabled)
              && (r.opcode == CqeWait || r.opcode == SendEnable || r.opcode == RecvEnable ==> q.crossChannel)
  {
    hide Sum;
  }

  /** The blocks are those that are written for the request. */
  ghost predicate Writes<W>(q: QpInit, s: SqSize, w: WorkRequest<W>) {
    |w.r.lengths| <= s.maxGs && Supported(q, w.r.opcode) ==> |w.wqe| == WrittenBlocks(s, w.r)
  }

  /** A request that keeps the queue in order: it has room where it writes anything. */
  ghost predicate Acceptable<W>(q: QpInit, s: SqSize, w: WorkRequest<W>) {
    Writes(q, s, w) && (|w.r.lengths| <= s.maxGs && Supported(q, w.r.opcode) ==> HasRoom(s, w.r))
  }

  /** Sizing makes the request count a bound on blocks. */
  lemma SizingBoundsBlocks(q: QpInit, d: Device, s: SqSize)
    requires WellSized(q, d, s)
    ensures s.maxPost * (s.wqeSize / SEND_WQE_BB) <= s.wqeCnt && 0 < s.wqeSize / SEND_WQE_BB
  {
    var b := s.wqeSize / SEND_WQE_BB;
    assert s.wqeSize == SEND_WQE_BB * b;
    Associate(s.maxPost, SEND_WQE_BB, b);
  }

  ghost predicate SeparateBuffers(a: object, b: object, c: object) {
    a != b && a != c && b != c
  }

  class SendQueue<W> {
    const q: QpInit
    const d: Device
    const size: SqSize
    const ring: array<W>
    const wrid: array<nat>
    const wqeHead: array<uint32>
    var scurPost: uint32
    var head: uint32
    var tail: uint32
    ghost var scur: nat
    ghost var log: seq<Posted<W>>
    ghost var retired: nat

    function MaxBlocks(): nat {
      size.wqeSize / SEND_WQE_BB
    }

    ghost predicate Shape()
      reads this
    {
      && WellSized(q, d, size) && ring.Length == wrid.Length == wqeHead.Length == size.wqeCnt
      && IsRingSize(size.wqeCnt) && size.wqeCnt <= 0x1_0000
      && SeparateBuffers(ring, wrid, wqeHead)
      && scurPost == Low32(scur) && tail == Low32(retired) && retired <= |log|
      && |log| - retired <= size.maxPost
    }

    ghost predicate Recording()
      reads this, ring, wrid, wqeHead
    {
      && Shape()
      && Contiguous(log, scur) && Window(log, retired, scur, MaxBlocks())
      && AllLaid(ring[..], log, retired) && AllRecorded(wrid[..], wqeHead[..], log, retired)
    }

    ghost predicate Valid()
      reads this, ring, wrid, wqeHead
    {
      Recording() && head == Low32(|log|)
    }

    /** A queue over buffers as sizing has provided them. */
    constructor (q: QpInit, d: Device, size: SqSize, buffer: array<W>, wrids: array<nat>, heads: array<uint32>)
      requires WellSized(q, d, size) && IsRingSize(size.wqeCnt) && size.wqeCnt <= 0x1_0000
      requires buffer.Length == wrids.Length == heads.Length == size.wqeCnt && SeparateBuffers(buffer, wrids, heads)
      ensures Valid() && log == [] && ring == buffer && wrid == wrids && wqeHead == heads && this.size == size
      ensures scur == 0 && scurPost == 0 && retired == 0 && this.q == q && this.d == d
    {
      hide WellSized, IsRingSize, IsPowerOfTwo;
      this.q := q;
      this.d := d;
      this.size := size;
      ring := buffer;
      wrid := wrids;
      wqeHead := heads;
      scurPost, head, tail := 0, 0, 0;
      scur := 0;
      log := [];
      retired := 0;
    }

    /** In every reachable state, blocks of requests that are not retired do not overlap. */
    lemma NoOverlap(i: nat, j: nat, k: nat, l: nat)
      requires Recording() && retired <= i < j < |log| && k < |log[i].wqe| && l < |log[j].wqe|
      ensures size.wqeCnt > 0 && Slot(log[i].start + k, size.wqeCnt) != Slot(log[j].start + l, size.wqeCnt)
    {
      WrapIsHarmless(0, size.wqeCnt);
      SizingBoundsBlocks(q, d, size);
      ScaleDown(|log| - retired, size.maxPost, MaxBlocks());
      RangesDisjoint(log, retired, scur, MaxBlocks(), size.wqeCnt, i, j, k, l);
    }

    /** The overflow check, on 32-bit counters: the number of requests that are not retired. */
    method WqOverflow(nreq: nat) returns (full: bool)
      requires Shape() && nreq <= |log| && head == Low32(|log| - nreq) && retired <= |log| - nreq
      requires |log| - retired < WORD
      ensures full <==> |log| - retired >= size.maxPost
    {
      hide WellSized, IsRingSize, Low32;
      var cur := (head - tail) % WORD;
      CountIsExact(|log| - nreq, retired);
      full := cur + nreq >= size.maxPost;
    }

    lemma CountIsExact(h: nat, t: nat)
      requires t <= h < t + WORD
      ensures (Low32(h) - Low32(t)) % WORD == h - t
    {
    }

    /** There is room for one more request of the largest size. */
    lemma RoomForOne()
      requires Shape() && |log| - retired < size.maxPost
      ensures size.wqeCnt > 0 && 0 < MaxBlocks() <= size.wqeCnt
      ensures (|log| - retired + 1) * MaxBlocks() <= size.wqeCnt
    {
      hide WellSized, IsRingSize;
      SizingBoundsBlocks(q, d, size);
      WrapIsHarmless(0, size.wqeCnt);
      ScaleDown(|log| - retired + 1, size.maxPost, MaxBlocks());
      ScaleDown(1, size.maxPost, MaxBlocks());
    }

    lemma BlocksFit()
      requires Shape() && size.maxPost > 0
      ensures MaxBlocks() <= size.wqeCnt
    {
      hide WellSized, IsRingSize;
      SizingBoundsBlocks(q, d, size);
      ScaleDown(1, size.maxPost, MaxBlocks());
    }

    lemma Advance(i: nat, idx: uint32, k: nat)
      requires idx == Low32(i)
      ensures Low32(idx + k) == Low32(i + k)
    {
    }

    /** Lays a request out from the producer's block on, round the end of the ring. */
    method WriteWqe(wqe: seq<W>)
      requires Shape()
      modifies ring
      ensures ring.Length > 0 && ring[..] == Overlaid(old(ring[..]), scur, wqe)
    {
      hide WellSized, IsRingSize, Low32;
      var n := size.wqeCnt;
      WrapIsHarmless(0, n);
      var k := 0;
      while k < |wqe|
        invariant 0 <= k <= |wqe| && ring[..] == Overlaid(old(ring[..]), scur, wqe[..k])
      {
        Advance(scur, scurPost, k);
        WrapIsHarmless(scur + k, n);
        SlotIsRemainder(Low32(scurPost + k), n);
        OverlaidNext(old(ring[..]), scur, wqe, k);
        ghost var ring' := ring[..][Place(scur, k, n) := wqe[k]];
        ring[Low32(scurPost + k) % n] := wqe[k];
        assert ring[..] == ring';
        k := k + 1;
      }
      assert wqe[..k] == wqe;
    }

    lemma OverlaidNext(r: seq<W>, start: nat, wqe: seq<W>, k: nat)
      requires |r| > 0 && k < |wqe|
      ensures Overlaid(r, start, wqe[..k + 1]) == Overlaid(r, start, wqe[..k])[Place(start, k, |r|) := wqe[k]]
    {
      assert wqe[..k + 1][..k] == wqe[..k];
    }

    /** Records the request at its first block and advances the producer. */
    method Commit(wqe: seq<W>, wrId: nat, nreq: nat)
      requires Shape() && |log| - retired < size.maxPost && wqe != []
      requires nreq <= |log| && head == Low32(|log| - nreq)
      modifies this`scurPost, this`scur, this`log, wrid, wqeHead
      ensures Shape() && log == old(log) + [Posted(old(scur), wqe, wrId)] && scur == old(scur) + |wqe|
      ensures size.wqeCnt > 0 && wrid[..] == old(wrid[..])[Slot(old(scur), size.wqeCnt) := wrId]
      ensures wqeHead[..] == old(wqeHead[..])[Slot(old(scur), size.wqeCnt) := Low32(|old(log)|)]
      ensures old(Recording()) && |wqe| <= MaxBlocks() && Laid(ring[..], old(scur), wqe) ==> Recording()
    {
      hide WellSized, IsRingSize, Window, Contiguous, AllRecorded, Laid, Low32;
      RoomForOne();
      var n := size.wqeCnt;
      ghost var p := Posted(scur, wqe, wrId);
      WrapIsHarmless(scur, n);
      SlotIsRemainder(scurPost, n);
      if Recording() && |wqe| <= MaxBlocks() && Laid(ring[..], scur, wqe) {
        RecordOne(wrid[..], wqeHead[..], log, retired, scur, MaxBlocks(), p);
        WindowGrows(log, retired, scur, MaxBlocks(), p);
        LaidOneMore(ring[..], log, retired, p);
      }
      Advance(|log| - nreq, head, nreq);
      Advance(scur, scurPost, |wqe|);
      ghost var wrid', head' := wrid[..][Slot(scur, n) := wrId], wqeHead[..][Slot(scur, n) := Low32(|log|)];
      var idx := scurPost % n;
      wrid[idx] := wrId;
      wqeHead[idx] := Low32(head + nreq);
      assert wrid[..] == wrid' && wqeHead[..] == head';
      scurPost := Low32(scurPost + |wqe|);
      scur := scur + |wqe|;
      log := log + [p];
    }

    /** A request that has room is written into no more blocks than computed. */
    lemma RoomBounds(r: Request)
      requires Shape() && |r.lengths| <= size.maxGs && HasRoom(size, r)
      ensures WrittenBlocks(size, r) <= MaxBlocks()
    {
      hide WellSized, IsRingSize, WrittenBlocks, WrittenBytes, HasRoom;
      WrittenFitsExactly(q, d, size, r);
      InBlocks(WrittenBlocks(size, r));
    }

    lemma InBlocks(n: nat)
      requires n * SEND_WQE_BB <= size.wqeSize
      ensures n <= MaxBlocks()
    {
    }

    /** What a written request leaves of the requests that are not retired. */
    lemma WrittenKeeps(r0: seq<W>, wqe: seq<W>)
      requires Shape() && |log| - retired < size.maxPost && |wqe| <= MaxBlocks() && |r0| == size.wqeCnt
      requires Contiguous(log, scur) && Window(log, retired, scur, MaxBlocks()) && AllLaid(r0, log, retired)
      ensures |r0| > 0 && AllLaid(Overlaid(r0, scur, wqe), log, retired) && Laid(Overlaid(r0, scur, wqe), scur, wqe)
    {
      hide WellSized, IsRingSize, Window, Contiguous, AllLaid, Laid, Overlaid;
      RoomForOne();
      OverlaidKeeps(r0, log, retired, scur, MaxBlocks(), wqe);
    }

    /** Posts one request of a chain, or refuses it. Exactly the blocks that are written for it
        change; the queue stays in order unless they run past the size computed at creation. */
    method PostOne(w: WorkRequest<W>, nreq: nat) returns (err: PostError)
      requires Shape() && nreq <= |log| && head == Low32(|log| - nreq) && retired <= |log| - nreq
      requires Writes(q, size, w)
      modifies this`scurPost, this`scur, this`log, ring, wrid, wqeHead
      ensures Shape() && ring.Length > 0 && err == Verdict(q, size, |old(log)| - retired, w.r)
      ensures ring[..] == if err == Ok || err == InlineTooLong then Overlaid(old(ring[..]), old(scur), w.wqe)
                          else old(ring[..])
      ensures err == Ok ==>
                && log == old(log) + [Posted(old(scur), w.wqe, w.r.wrId)]
                && scur == old(scur) + Blocks(w.r) == old(scur) + |w.wqe|
                && wrid[..] == old(wrid[..])[Slot(old(scur), wrid.Length) := w.r.wrId]
                && wqeHead[..] == old(wqeHead[..])[Slot(old(scur), wqeHead.Length) := Low32(|old(log)|)]
      ensures err != Ok ==>
                log == old(log) && scur == old(scur) && wrid[..] == old(wrid[..]) && wqeHead[..] == old(wqeHead[..])
      ensures old(Recording()) && (err == Ok || err == InlineTooLong ==> HasRoom(size, w.r)) ==> Recording()
    {
      hide WellSized, IsRingSize, Window, Contiguous, AllRecorded, Laid, AllLaid, Low32, Blocks, WrittenBlocks, HasRoom;
      hide Overlaid;
      WrapIsHarmless(0, size.wqeCnt);
      PostsBelowWord();
      var full := WqOverflow(nreq);
      if full {
        return Overflow;
      }
      if |w.r.lengths| > size.maxGs {
        return TooManyEntries;
      }
      if (IsAtomic(w.r.opcode) && !q.atomicsEnabled) || (IsManaged(w.r.opcode) && !q.crossChannel) {
        return Unsupported;
      }
      if Recording() && HasRoom(size, w.r) {
        RoomBounds(w.r);
        WrittenKeeps(ring[..], w.wqe);
      }
      var units := AccountSize(w.r, size.maxInline);
      WriteWqe(w.wqe);
      if units.None? {
        return InlineTooLong;
      }
      WrittenIsAccounted(size, w.r);
      AtLeastOneBlock(w.r);
      Commit(w.wqe, w.r.wrId, nreq);
      return Ok;
    }

    lemma PostsBelowWord()
      requires Shape()
      ensures |log| - retired < WORD
    {
      hide WellSized, IsRingSize;
      SizingBoundsBlocks(q, d, size);
      ScaleDown(|log| - retired, size.maxPost, MaxBlocks());
      Multiple(|log| - retired, MaxBlocks());
    }

    lemma AtLeastOneBlock(r: Request)
      ensures Blocks(r) > 0
    {
    }

    /** Posts a chain of requests up to the first one that is refused. The queue stays in order
        if every request up to there has room. */
    method PostSend(chain: seq<WorkRequest<W>>) returns (err: PostError, n: nat)
      requires Shape() && head == Low32(|log|) && forall k :: 0 <= k < |chain| ==> Writes(q, size, chain[k])
      modifies this`scurPost, this`scur, this`log, this`head, ring, wrid, wqeHead
      ensures Shape() && head == Low32(|log|) && n <= |chain| && (err == Ok <==> n == |chain|)
      ensures |log| == |old(log)| + n && log[..|old(log)|] == old(log)
      ensures forall k :: 0 <= k < n ==>
                log[|old(log)| + k].wqe == chain[k].wqe && log[|old(log)| + k].wrId == chain[k].r.wrId
      ensures n < |chain| ==> err == Verdict(q, size, |log| - retired, chain[n].r)
      ensures old(Valid()) && (forall k :: 0 <= k <= n && k < |chain| ==> Acceptable(q, size, chain[k])) ==> Valid()
    {
      hide WellSized, IsRingSize, Window, Contiguous, AllRecorded, Laid, AllLaid, Low32, Blocks, HasRoom, Overlaid;
      n := 0;
      err := Ok;
      while n < |chain|
        invariant 0 <= n <= |chain| && err == Ok && Shape()
        invariant |log| == |old(log)| + n && log[..|old(log)|] == old(log)
        invariant head == Low32(|log| - n)
        invariant forall k :: 0 <= k < n ==>
                    log[|old(log)| + k].wqe == chain[k].wqe && log[|old(log)| + k].wrId == chain[k].r.wrId
        invariant old(Valid()) && (forall k :: 0 <= k < n ==> Acceptable(q, size, chain[k])) ==> Recording()
      {
        err := PostOne(chain[n], n);
        if err != Ok {
          break;
        }
        n := n + 1;
      }
      Advance(|log| - n, head, n);
      head := Low32(head + n);
    }

    /** A completion names the block where its request starts. It reports the identifier of that
        request, and retires it together with all earlier ones, signaled or not. */
    method PollSend(wqeCounter: uint16, ghost j: nat) returns (wrId: nat)
      requires Valid() && retired <= j < |log| && wqeCounter == log[j].start % 0x1_0000
      modifies this`tail, this`retired
      ensures Valid() && wrId == log[j].wrId && retired == j + 1
    {
      hide WellSized, IsRingSize, Contiguous, Laid, Low32;
      CounterNamesBlock(log[j].start, size.wqeCnt);
      assert Recorded(wrid[..], wqeHead[..], log[j], j);
      var idx := wqeCounter % size.wqeCnt;
      wrId := wrid[idx];
      var first: nat := wqeHead[idx];
      Advance(j, first, 1);
      tail := Low32(first + 1);
      retired := j + 1;
    }
  }

  const PAIR := SqSize(64, 128, 2, 2, 2, 28)
  const REFUSED := Request(AtomicFetchAdd, true, [28, 1], 0)

  /** An inline atomic of 28 bytes and one more is refused, but by then 80 bytes have been written
      for it, where requests are 64 bytes long. */
  lemma RefusedAtomicOverruns()
    ensures WellSized(SMALL, NO_WINDOWS, PAIR) && Verdict(SMALL, PAIR, 1, REFUSED) == InlineTooLong
    ensures WrittenBytes(PAIR, REFUSED) == 80 && WrittenBlocks(PAIR, REFUSED) == 2 && !HasRoom(PAIR, REFUSED)
  {
    hide SqOverhead, Align, CalcSendWqe, Pow2, HeaderUnits;
    SmallSize();
    assert IsPowerOfTwo(2) by { TwoIsPower(); }
    assert [28, 1][..1] == [28] && [28][..0] == [] && [28, 1][..2] == [28, 1];
    assert Sum([28]) == 28 && Sum([28, 1]) == 29;
    CopiedBefore([28, 1], 28, 1);
    HeaderFits(AtomicFetchAdd);
  }

  lemma TwoIsPower()
    ensures IsPowerOfTwo(2) && IsRingSize(2)
  {
    assert Pow2(1) == 2;
  }

  /** A queue for two requests of one block each, of which the second is not retired. */
  method OneInFlight<W>(x: W) returns (sq: SendQueue<W>)
    ensures fresh(sq) && fresh(sq.ring) && fresh(sq.wrid) && fresh(sq.wqeHead)
    ensures sq.Valid() && sq.q == SMALL && sq.d == NO_WINDOWS && sq.size == PAIR && sq.scur == 2 && sq.retired == 1
    ensures sq.log == [Posted(0, [x], 0), Posted(1, [x], 0)]
  {
    hide WellSized, Window, Contiguous, AllRecorded, AllLaid, Low32, WrittenBlocks, HasRoom, Overlaid, Verdict;
    var ring, wrid, heads := new W[2](_ => x), new nat[2](_ => 0), new uint32[2](_ => 0);
    RefusedAtomicOverruns();
    TwoIsPower();
    sq := new SendQueue(SMALL, NO_WINDOWS, PAIR, ring, wrid, heads);
    var plain := WorkRequest(Request(Send, false, [], 0), [x]);
    PlainRequest();
    var ok := sq.PostOne(plain, 0);
    ok := sq.PostOne(plain, 1);
    sq.Advance(0, sq.head, 2);
    sq.head := Low32(sq.head + 2);
    var id := sq.PollSend(0, 0);
  }

  /** There the refused atomic writes over the request that is not retired. */
  method RefusedPostDamages<W>(x: W, y: W) returns (sq: SendQueue<W>, err: PostError)
    requires x != y
    ensures err == InlineTooLong && sq.retired == 1 && sq.log == [Posted(0, [x], 0), Posted(1, [x], 0)]
    ensures !AllLaid(sq.ring[..], sq.log, sq.retired) && !sq.Recording()
  {
    hide WellSized, Window, Contiguous, AllRecorded, AllLaid, Low32, WrittenBlocks, HasRoom, Overlaid, Verdict;
    RefusedAtomicOverruns();
    sq := OneInFlight(x);
    Overrun(sq.ring[..], sq.log, x, y);
    err := sq.PostOne(WorkRequest(REFUSED, [y, y]), 0);
  }

  lemma Overrun<W>(r: seq<W>, log: seq<Posted<W>>, x: W, y: W)
    requires |r| == 2 && x != y && log == [Posted(0, [x], 0), Posted(1, [x], 0)]
    ensures !AllLaid(Overlaid(r, 2, [y, y]), log, 1)
  {
    TwoOver(r, y);
    if AllLaid([y, y], log, 1) {
      assert Laid([y, y], log[1].start, log[1].wqe);
      InPlace([y, y], 1, x);
      assert false;
    }
  }

  lemma TwoOver<W>(r: seq<W>, y: W)
    requires |r| == 2
    ensures Overlaid(r, 2, [y, y]) == [y, y]
  {
    assert [y, y][..1] == [y] && [y][..0] == [];
    assert Overlaid(r, 2, [y]) == r[Place(2, 0, 2) := y];
    NextLap(0, 2);
    NextLap(1, 2);
  }

  lemma InPlace<W>(r: seq<W>, i: nat, x: W)
    requires i < |r| && Laid(r, i, [x])
    ensures r[i] == x
  {
    assert r[Place(i, 0, |r|)] == [x][0];
  }

  lemma PlainRequest()
    ensures var r := Request(Send, false, [], 0);
            && WrittenBlocks(PAIR, r) == Blocks(r) == 1 && HasRoom(PAIR, r)
            && Verdict(SMALL, PAIR, 0, r) == Verdict(SMALL, PAIR, 1, r) == Ok
  {
  }
}
