/** The size of send requests, and the sizing of the send ring that has to hold them. */
module SendSize {
  import opened Words

  const CTRL: nat := 16
  const RADDR: nat := 16
  const ATOMIC: nat := 16
  const DATA: nat := 16
  const WAIT_EN: nat := 16
  const INL_HEADER: nat := 4
  const UMR_CTRL: nat := 48
  const MKEY: nat := 64
  const REPEAT_BLOCK: nat := 16
  const SEND_WQE_BB: nat := 64
  const INT_MAX: nat := 0x7fff_ffff

  function Align(v: nat, a: nat): (r: nat)
    requires a > 0
    ensures v <= r < v + a && r % a == 0
  {
    AlignFacts(v, a);
    (v + a - 1) / a * a
  }

  lemma AlignFacts(v: nat, a: nat)
    requires a > 0
    ensures v <= (v + a - 1) / a * a < v + a && (v + a - 1) / a * a % a == 0
  {
    var x := v + a - 1;
    assert x == a * (x / a) + x % a;
    Distribute(a, x / a, 0);
    DivModUnique(x / a, 0, a);
  }

  function DivRoundUp(n: nat, d: nat): nat
    requires d > 0
  {
    (n + d - 1) / d
  }

  // ---------------------------------------------------------------- requests

  datatype Opcode = Send | SendImm | SendInv | RdmaWrite | RdmaWriteImm | RdmaRead | AtomicCmpSwap | AtomicFetchAdd
                  | CqeWait | SendEnable | RecvEnable | Nop

  /** A request: the lengths of its gather entries matter for its size. */
  datatype Request = Request(opcode: Opcode, isInline: bool, lengths: seq<nat>, wrId: nat)

  predicate IsAtomic(op: Opcode) {
    op.AtomicCmpSwap? || op.AtomicFetchAdd?
  }

  /** Requests that manage other queues. */
  predicate IsManaged(op: Opcode) {
    op.CqeWait? || op.SendEnable? || op.RecvEnable?
  }

  /** Sixteen-byte units before the data segments. */
  function HeaderUnits(op: Opcode): (u: nat)
    ensures u * 16 == 16 + (if op.RdmaWrite? || op.RdmaWriteImm? || op.RdmaRead? || IsAtomic(op) then 16 else 0) +
                      (if IsAtomic(op) then 16 else 0) + if IsManaged(op) then 16 else 0
  {
    match op
    case RdmaWrite => (CTRL + RADDR) / 16
    case RdmaWriteImm => (CTRL + RADDR) / 16
    case RdmaRead => (CTRL + RADDR) / 16
    case AtomicCmpSwap => (CTRL + RADDR + ATOMIC) / 16
    case AtomicFetchAdd => (CTRL + RADDR + ATOMIC) / 16
    case CqeWait => (CTRL + WAIT_EN) / 16
    case SendEnable => (CTRL + WAIT_EN) / 16
    case RecvEnable => (CTRL + WAIT_EN) / 16
    case _ => CTRL / 16
  }

  function Sum(lengths: seq<nat>): nat {
    if lengths == [] then 0 else Sum(lengths[..|lengths| - 1]) + lengths[|lengths| - 1]
  }

  /** Gather entries of length zero take no data segment. */
  function NonEmpty(lengths: seq<nat>): (n: nat)
    ensures n <= |lengths|
  {
    if lengths == [] then 0
    else NonEmpty(lengths[..|lengths| - 1]) + if lengths[|lengths| - 1] > 0 then 1 else 0
  }

  function InlineUnits(bytes: nat): nat {
    if bytes == 0 then 0 else Align(bytes + INL_HEADER, 16) / 16
  }

  /** The size in units that post_send_one accounts for. */
  function Units(r: Request): nat {
    HeaderUnits(r.opcode) + if r.isInline then InlineUnits(Sum(r.lengths)) else NonEmpty(r.lengths)
  }

  /** The blocks by which the producer advances. */
  function Blocks(r: Request): nat {
    DivRoundUp(Units(r) * 16, SEND_WQE_BB)
  }

  lemma {:induction false} SumMonotone(lengths: seq<nat>, n: nat)
    requires n <= |lengths|
    ensures Sum(lengths[..n]) <= Sum(lengths)
    decreases |lengths| - n
  {
    if n < |lengths| {
      SumMonotone(lengths, n + 1);
      assert lengths[..n + 1][..n] == lengths[..n];
    } else {
      assert lengths[..n] == lengths;
    }
  }

  /** The inline bytes that are copied into the ring: those of the longest run of entries within
      the limit, because the loop copies each entry before it looks at the next one. */
  function InlineCopied(lengths: seq<nat>, max: nat): (c: nat)
    ensures c <= max && c <= Sum(lengths)
    ensures Sum(lengths) <= max ==> c == Sum(lengths)
  {
    if Sum(lengths) <= max then Sum(lengths) else InlineCopied(lengths[..|lengths| - 1], max)
  }

  /** The loop stops at the first entry that exceeds the limit. */
  lemma {:induction false} CopiedBefore(lengths: seq<nat>, max: nat, i: nat)
    requires i < |lengths| && Sum(lengths[..i]) <= max < Sum(lengths[..i + 1])
    ensures InlineCopied(lengths, max) == Sum(lengths[..i])
    decreases |lengths|
  {
    SumMonotone(lengths, i + 1);
    var n := |lengths| - 1;
    if i < n {
      assert lengths[..n][..i] == lengths[..i] && lengths[..n][..i + 1] == lengths[..i + 1];
      CopiedBefore(lengths[..n], max, i);
    } else {
      assert lengths[..i + 1] == lengths;
    }
  }

  /** The bytes from the start of a request up to the last one that is written for it, whether it
      is posted or refused for its inline data. */
  function WrittenBytes(s: SqSize, r: Request): nat {
    var copied := InlineCopied(r.lengths, s.maxInline);
    HeaderUnits(r.opcode) * 16 +
    if !r.isInline then NonEmpty(r.lengths) * DATA else if copied == 0 then 0 else INL_HEADER + copied
  }

  function WrittenBlocks(s: SqSize, r: Request): nat {
    DivRoundUp(WrittenBytes(s, r), SEND_WQE_BB)
  }

  /** A request that passes the checks is written into the blocks that it accounts for. */
  lemma WrittenIsAccounted(s: SqSize, r: Request)
    requires PassesChecks(s, r)
    ensures WrittenBlocks(s, r) == Blocks(r)
  {
    hide NonEmpty, HeaderUnits, Align, InlineCopied;
    if r.isInline && Sum(r.lengths) != 0 {
      var bytes := Sum(r.lengths) + INL_HEADER;
      SameBlocks(HeaderUnits(r.opcode), bytes, Align(bytes, 16));
    }
  }

  lemma SameBlocks(h: nat, bytes: nat, a: nat)
    requires bytes <= a < bytes + 16 && a % 16 == 0
    ensures DivRoundUp(h * 16 + bytes, SEND_WQE_BB) == DivRoundUp((h + a / 16) * 16, SEND_WQE_BB)
  {
  }

  /** The size as the driver computes it, entry by entry. */
  method AccountSize(r: Request, maxInline: uint32) returns (units: Option<nat>)
    ensures units == if r.isInline && Sum(r.lengths) > maxInline then None else Some(Units(r))
  {
    var size := HeaderUnits(r.opcode);
    var i := 0;
    if r.isInline {
      var inl := 0;
      while i < |r.lengths|
        invariant 0 <= i <= |r.lengths| && inl == Sum(r.lengths[..i]) <= maxInline
      {
        assert r.lengths[..i + 1][..i] == r.lengths[..i];
        SumMonotone(r.lengths, i + 1);
        inl := inl + r.lengths[i];
        if inl > maxInline {
          return None;
        }
        i := i + 1;
      }
      assert r.lengths[..i] == r.lengths;
      if inl > 0 {
        size := size + Align(inl + INL_HEADER, 16) / 16;
      }
      return Some(size);
    }
    while i < |r.lengths|
      invariant 0 <= i <= |r.lengths| && size == HeaderUnits(r.opcode) + NonEmpty(r.lengths[..i])
    {
      assert r.lengths[..i + 1][..i] == r.lengths[..i];
      if r.lengths[i] > 0 {
        size := size + DATA / 16;
      }
      i := i + 1;
    }
    assert r.lengths[..i] == r.lengths;
    return Some(size);
  }

  // ---------------------------------------------------------------- sizing

  datatype Device = Device(maxSqDescSz: nat, maxSendWqebb: nat, shutUpMw: bool)

  /** What the user asks of a reliable-connection queue pair. */
  datatype QpInit = QpInit(maxSendWr: nat, maxSendSge: nat, maxInlineData: nat, maxAtomicArg: nat, maxInlKlms: nat,
                           umrEnabled: bool, atomicsEnabled: bool, crossChannel: bool)

  datatype SqSize = SqSize(wqeSize: nat, wqSize: nat, wqeCnt: nat, maxPost: nat, maxGs: nat, maxInline: uint32)

  datatype SqResult = NoQueue | Rejected | Sized(size: SqSize)

  function SqOverhead(q: QpInit, d: Device): (o: nat)
    ensures o >= CTRL + RADDR && o % 16 == 0
    ensures o == FixedBytes(q, d)
  {
    var mwBind := if d.shutUpMw then 0 else UMR_CTRL + MKEY + 64;
    var size1 := CTRL + UMR_CTRL + MKEY + REPEAT_BLOCK;
    var size2 := CTRL + Max(RADDR, mwBind);
    if q.umrEnabled then Max(size1, size2) else size2
  }

  function InlineAtomic(q: QpInit): nat {
    if q.atomicsEnabled then Max(ATOMIC, if q.maxAtomicArg > 4 then 4 * q.maxAtomicArg else 0) else 0
  }

  function TotalSize(q: QpInit, d: Device): nat {
    var overhead := SqOverhead(q, d);
    var inlSize := if q.maxInlineData > 0 then Align(INL_HEADER + q.maxInlineData, 16) else 0;
    var inlUmr := q.maxInlKlms * 16;
    var t1 := if InlineAtomic(q) > 0 then overhead + DATA + InlineAtomic(q) else 0;
    var t2 := overhead + q.maxSendSge * DATA;
    var t3 := overhead + inlUmr;
    var t4 := overhead + inlSize;
    Max(Max(t1, t2), Max(t3, t4))
  }

  function CalcSendWqe(q: QpInit, d: Device): Option<nat> {
    var tot := TotalSize(q, d);
    if tot > d.maxSqDescSz then None else Some(Align(tot, SEND_WQE_BB))
  }

  /** The bytes before data segments that every request must have room for: binding a memory
      window takes 16 + 48 + 64 + 64, registering memory 16 + 48 + 64 + 16, any other request 32. */
  function FixedBytes(q: QpInit, d: Device): nat {
    if !d.shutUpMw then 192 else if q.umrEnabled then 144 else 32
  }

  /** Requests of w bytes have room for all that the user asks for. */
  ghost predicate RoomFor(q: QpInit, d: Device, w: nat) {
    var fixed := FixedBytes(q, d);
    && fixed + 16 * q.maxSendSge <= w
    && (q.maxInlineData > 0 ==> fixed + 4 + q.maxInlineData <= w)
    && (q.atomicsEnabled ==> fixed + 32 <= w)
    && (q.atomicsEnabled && q.maxAtomicArg > 4 ==> fixed + 16 + 4 * q.maxAtomicArg <= w)
    && fixed + 16 * q.maxInlKlms <= w
  }

  /** The least number of whole blocks with that room. */
  ghost predicate IsLeastRoom(q: QpInit, d: Device, w: nat) {
    w % 64 == 0 && RoomFor(q, d, w) && forall v: nat :: v % 64 == 0 && RoomFor(q, d, v) ==> w <= v
  }

  /** Gather entries are limited by the request and by 512 bytes. */
  ghost predicate AreAllowed(q: QpInit, d: Device, w: nat, n: nat) {
    32 + 16 * n <= w && 32 + 16 * n <= 512 && FixedBytes(q, d) + 16 * n <= w
  }

  lemma LeastRoom(q: QpInit, d: Device)
    ensures IsLeastRoom(q, d, Align(TotalSize(q, d), SEND_WQE_BB))
  {
    hide Align;
    var w := Align(TotalSize(q, d), SEND_WQE_BB);
    if q.maxInlineData > 0 {
      InlineRoom(FixedBytes(q, d), INL_HEADER + q.maxInlineData, w);
    }
    forall v: nat | v % 64 == 0 && RoomFor(q, d, v)
      ensures w <= v
    {
      if q.maxInlineData > 0 {
        InlineRoom(FixedBytes(q, d), INL_HEADER + q.maxInlineData, v);
      }
      LeastMultiple(TotalSize(q, d), SEND_WQE_BB, v);
    }
  }

  lemma InlineRoom(fixed: nat, bytes: nat, w: nat)
    requires fixed % 16 == 0 && w % 64 == 0
    ensures fixed + Align(bytes, 16) <= w <==> fixed + bytes <= w
  {
    hide Align;
    if fixed + bytes <= w {
      SixteenApart(fixed, w);
      LeastMultiple(bytes, 16, w - fixed);
    }
  }

  lemma SixteenApart(a: nat, b: nat)
    requires a % 16 == 0 && b % 64 == 0 && a <= b
    ensures (b - a) % 16 == 0
  {
    var x, y := a / 16, b / 64;
    assert b - a == 16 * (4 * y - x);
    DivModUnique(4 * y - x, 0, 16);
  }

  lemma LeastMultiple(v: nat, a: nat, w: nat)
    requires a > 0 && w % a == 0 && v <= w
    ensures Align(v, a) <= w
  {
    hide Align;
    var r := Align(v, a);
    if w < r {
      var x, y := w / a, r / a;
      assert w == a * x && r == a * y;
      Distribute(a, y, x);
      if y <= x {
        Multiple(a, x - y);
        assert false;
      }
      Multiple(a, y - x);
      assert false;
    }
  }

  lemma SameLeast(q: QpInit, d: Device, w: nat, v: nat)
    requires IsLeastRoom(q, d, w) && IsLeastRoom(q, d, v)
    ensures w == v
  {
  }

  function GetSendSge(q: QpInit, d: Device, wqeSize: nat): nat
    requires wqeSize >= SEND_WQE_BB && wqeSize >= SqOverhead(q, d)
  {
    Min((Min(wqeSize, 512) - CTRL - RADDR) / DATA, (wqeSize - SqOverhead(q, d)) / DATA)
  }

  ghost predicate IsPowerOfTwo(n: nat) {
    exists e: nat :: n == Pow2(e)
  }

  /** A power of two that is not below sz, while its half is. */
  ghost predicate IsLeastPower(p: nat, sz: int) {
    IsPowerOfTwo(p) && sz <= p && (p == 1 || p < 2 * sz)
  }

  /** The least power of two that is not below sz; it must fit into an int. */
  method RoundUpPowerOfTwo(sz: nat) returns (r: Option<nat>)
    ensures r.Some? ==> IsLeastPower(r.value, sz) && r.value <= INT_MAX
    ensures r.None? ==> exists p: nat :: IsLeastPower(p, sz) && p > INT_MAX
  {
    var ret := 1;
    ghost var e := 0;
    while ret < sz
      invariant ret == Pow2(e) && (ret == 1 || ret < 2 * sz)
      decreases sz - ret
    {
      ret := ret * 2;
      e := e + 1;
    }
    assert IsLeastPower(ret, sz);
    if ret > INT_MAX {
      return None;
    }
    return Some(ret);
  }

  /** There is only one such power. */
  lemma LeastPowerUnique(p: nat, p': nat, sz: int)
    requires IsLeastPower(p, sz) && IsLeastPower(p', sz)
    ensures p == p'
  {
    var e: nat, e': nat :| p == Pow2(e) && p' == Pow2(e');
    if e < e' {
      Pow2Monotone(e + 1, e');
    } else if e' < e {
      Pow2Monotone(e' + 1, e);
    }
  }

  /** What creation guarantees of a ring. */
  ghost predicate WellSized(q: QpInit, d: Device, s: SqSize) {
    && s.wqeSize % SEND_WQE_BB == 0 && s.wqeSize >= SqOverhead(q, d) && s.wqeSize >= SEND_WQE_BB
    && IsPowerOfTwo(s.wqeCnt) && s.wqSize == SEND_WQE_BB * s.wqeCnt
    && s.maxPost * s.wqeSize <= s.wqSize
    && s.maxGs == GetSendSge(q, d, s.wqeSize)
    && s.maxInline == (s.wqeSize - SqOverhead(q, d) - INL_HEADER) % WORD
  }

  /** A ring of so many bytes, rounded up, fits an int and the device. */
  ghost predicate RingFits(sz: int, d: Device) {
    exists p: nat :: IsLeastPower(p, sz) && p <= INT_MAX && p / SEND_WQE_BB <= d.maxSendWqebb
  }

  lemma RingFitsExactly(p: nat, sz: int, d: Device)
    requires IsLeastPower(p, sz)
    ensures RingFits(sz, d) <==> p <= INT_MAX && p / SEND_WQE_BB <= d.maxSendWqebb
  {
    if RingFits(sz, d) {
      var p': nat :| IsLeastPower(p', sz) && p' <= INT_MAX && p' / SEND_WQE_BB <= d.maxSendWqebb;
      LeastPowerUnique(p, p', sz);
    }
  }

  /** When a ring can be made: one request fits a descriptor, all of them fit a ring, and enough
      gather entries fit a request. */
  ghost predicate Sizeable(q: QpInit, d: Device) {
    exists w: nat ::
      && IsLeastRoom(q, d, w) && 0 < w <= d.maxSqDescSz
      && q.maxSendWr <= INT_MAX / d.maxSqDescSz && RingFits(q.maxSendWr * w, d) && AreAllowed(q, d, w, q.maxSendSge)
  }

  /** What the user gets. */
  ghost predicate Granted(q: QpInit, d: Device, s: SqSize) {
    && IsLeastRoom(q, d, s.wqeSize)
    && IsLeastPower(s.wqSize, q.maxSendWr * s.wqeSize) && s.wqSize == 64 * s.wqeCnt
    && s.maxPost * s.wqeSize <= s.wqSize < (s.maxPost + 1) * s.wqeSize && q.maxSendWr <= s.maxPost
    && (forall n: nat :: n <= s.maxGs <==> AreAllowed(q, d, s.wqeSize, n)) && q.maxSendSge <= s.maxGs
    && s.maxInline == (s.wqeSize - FixedBytes(q, d) - 4) % 0x1_0000_0000
    && (q.maxInlineData > 0 ==> q.maxInlineData <= s.maxInline)
  }

  method CalcSqSize(q: QpInit, d: Device) returns (r: SqResult)
    ensures r == NoQueue <==> q.maxSendWr == 0
    ensures r.Sized? <==> q.maxSendWr > 0 && Sizeable(q, d)
    ensures r.Sized? ==> WellSized(q, d, r.size) && Granted(q, d, r.size) && r.size.wqeCnt <= d.maxSendWqebb
  {
    if q.maxSendWr == 0 {
      return NoQueue;
    }
    var wqe := CalcSendWqe(q, d);
    WhenSizeable(q, d);
    if wqe.None? || wqe.value > d.maxSqDescSz {
      return Rejected;
    }
    var wqeSize := wqe.value;
    WqeSizeFacts(q, d);
    if d.maxSqDescSz == 0 || q.maxSendWr > INT_MAX / d.maxSqDescSz {
      return Rejected;
    }
    hide CalcSendWqe, SqOverhead, RingFits, WellSized, GetSendSge, Sizeable, Granted;
    LeastRoom(q, d);
    AllowedExactly(q, d, wqeSize, q.maxSendSge);
    DescIsInt(q.maxSendWr, d.maxSqDescSz);
    r := SizeRing(q, d, wqeSize);
    if r.Sized? {
      IsGranted(q, d, r.size);
    }
  }

  lemma IsGranted(q: QpInit, d: Device, s: SqSize)
    requires WellSized(q, d, s) && IsLeastRoom(q, d, s.wqeSize) && s.wqeSize <= d.maxSqDescSz <= INT_MAX
    requires IsLeastPower(s.wqSize, q.maxSendWr * s.wqeSize) && s.wqSize < (s.maxPost + 1) * s.wqeSize
    requires q.maxSendWr <= s.maxPost && q.maxSendSge <= s.maxGs
    ensures Granted(q, d, s)
  {
    hide SqOverhead, GetSendSge, IsLeastPower, IsPowerOfTwo, AreAllowed, IsLeastRoom;
    forall n: nat
      ensures n <= s.maxGs <==> AreAllowed(q, d, s.wqeSize, n)
    {
      AllowedExactly(q, d, s.wqeSize, n);
    }
    InlineGranted(q, d, s.wqeSize);
  }

  lemma InlineGranted(q: QpInit, d: Device, w: nat)
    requires IsLeastRoom(q, d, w) && w <= INT_MAX
    ensures q.maxInlineData > 0 ==> q.maxInlineData <= (w - FixedBytes(q, d) - 4) % 0x1_0000_0000
  {
  }

  lemma DescIsInt(wr: nat, desc: nat)
    requires wr > 0 && desc > 0 && wr <= INT_MAX / desc
    ensures desc <= INT_MAX
  {
  }

  /** Whether a ring can be made, in terms of the size that is computed. */
  lemma WhenSizeable(q: QpInit, d: Device)
    ensures var w := Align(TotalSize(q, d), SEND_WQE_BB);
            Sizeable(q, d) <==>
              && 0 < w <= d.maxSqDescSz && q.maxSendWr <= INT_MAX / d.maxSqDescSz && RingFits(q.maxSendWr * w, d)
              && AreAllowed(q, d, w, q.maxSendSge)
  {
    hide TotalSize, RingFits, AreAllowed, Align, IsLeastRoom;
    var w := Align(TotalSize(q, d), SEND_WQE_BB);
    LeastRoom(q, d);
    assert w > 0 by { RoomIsPositive(q, d, w); }
    if Sizeable(q, d) {
      var v: nat :|
        && IsLeastRoom(q, d, v) && 0 < v <= d.maxSqDescSz
        && q.maxSendWr <= INT_MAX / d.maxSqDescSz && RingFits(q.maxSendWr * v, d) && AreAllowed(q, d, v, q.maxSendSge);
      SameLeast(q, d, v, w);
    }
  }

  lemma RoomIsPositive(q: QpInit, d: Device, w: nat)
    requires IsLeastRoom(q, d, w)
    ensures w >= 64
  {
  }

  lemma AllowedExactly(q: QpInit, d: Device, w: nat, n: nat)
    requires w >= SEND_WQE_BB && w >= SqOverhead(q, d)
    ensures n <= GetSendSge(q, d, w) <==> AreAllowed(q, d, w, n)
  {
    hide SqOverhead;
  }

  /** Sizes the ring for requests of so many bytes. */
  method SizeRing(q: QpInit, d: Device, wqeSize: nat) returns (r: SqResult)
    requires q.maxSendWr > 0
    requires wqeSize % SEND_WQE_BB == 0 && wqeSize >= SqOverhead(q, d) && wqeSize >= SEND_WQE_BB
    ensures r.Rejected? || r.Sized?
    ensures r.Sized? <==> RingFits(q.maxSendWr * wqeSize, d) && q.maxSendSge <= GetSendSge(q, d, wqeSize)
    ensures r.Sized? ==>
              && WellSized(q, d, r.size) && r.size.wqeCnt <= d.maxSendWqebb && r.size.wqeSize == wqeSize
              && q.maxSendWr <= r.size.maxPost && q.maxSendSge <= r.size.maxGs
              && IsLeastPower(r.size.wqSize, q.maxSendWr * wqeSize) && r.size.wqSize < (r.size.maxPost + 1) * wqeSize
  {
    hide IsLeastPower, RingFits, GetSendSge, SqOverhead, IsPowerOfTwo;
    var wqSize := RoundUpPowerOfTwo(q.maxSendWr * wqeSize);
    if wqSize.None? {
      ghost var p: nat :| IsLeastPower(p, q.maxSendWr * wqeSize) && p > INT_MAX;
      RingFitsExactly(p, q.maxSendWr * wqeSize, d);
      return Rejected;
    }
    RingFitsExactly(wqSize.value, q.maxSendWr * wqeSize, d);
    AtLeastOne(q.maxSendWr, wqeSize);
    LeastPowerParts(wqSize.value, q.maxSendWr * wqeSize);
    PowerOfBlocks(wqSize.value);
    var wqeCnt := wqSize.value / SEND_WQE_BB;
    if wqeCnt > d.maxSendWqebb {
      return Rejected;
    }
    var maxGs := GetSendSge(q, d, wqeSize);
    if maxGs < q.maxSendSge {
      return Rejected;
    }
    var maxPost := wqSize.value / wqeSize;
    PostsFit(wqSize.value, wqeSize, q.maxSendWr);
    r := Sized(SqSize(wqeSize, wqSize.value, wqeCnt, maxPost, maxGs, (wqeSize - SqOverhead(q, d) - INL_HEADER) % WORD));
  }

  lemma LeastPowerParts(p: nat, sz: int)
    requires IsLeastPower(p, sz)
    ensures IsPowerOfTwo(p) && sz <= p
  {
  }

  lemma WqeSizeFacts(q: QpInit, d: Device)
    requires CalcSendWqe(q, d).Some?
    ensures var w := CalcSendWqe(q, d).value;
            w % SEND_WQE_BB == 0 && w >= SqOverhead(q, d) && w >= SEND_WQE_BB
  {
  }

  lemma AtLeastOne(n: nat, w: nat)
    requires n >= 1
    ensures n * w >= w
  {
    Multiple(w, n);
    Distribute(w, n, 0);
  }

  lemma PowerOfBlocks(w: nat)
    requires IsPowerOfTwo(w) && w >= SEND_WQE_BB
    ensures IsPowerOfTwo(w / SEND_WQE_BB) && SEND_WQE_BB * (w / SEND_WQE_BB) == w
  {
    var e: nat :| w == Pow2(e);
    SmallPowers();
    if e < 6 {
      Pow2Monotone(e, 5);
      assert false;
    }
    Pow2Add(6, e - 6);
    assert w / SEND_WQE_BB == Pow2(e - 6);
  }

  lemma SmallPowers()
    ensures Pow2(5) == 32 && Pow2(6) == 64
  {
  }

  lemma PostsFit(wq: nat, wqe: nat, n: nat)
    requires wqe > 0 && n * wqe <= wq
    ensures (wq / wqe) * wqe <= wq < (wq / wqe + 1) * wqe && n <= wq / wqe
  {
    var p := wq / wqe;
    assert wq == wqe * p + wq % wqe;
    Distribute(wqe, p + 1, p);
    Distribute(wqe, p, n);
    Distribute(wqe, n, 0);
    Distribute(wqe, p, 0);
    Multiple(wqe, n - p);
  }

  /** The run-time checks of a post. */
  predicate PassesChecks(s: SqSize, r: Request) {
    |r.lengths| <= s.maxGs && (r.isInline ==> Sum(r.lengths) <= s.maxInline)
  }

  /** Whether an atomic has room for its header, which is longer than the overhead that the ring
      was sized with, before its entries or so many inline bytes. */
  predicate AtomicRoom(wqeSize: nat, r: Request, bytes: nat) {
    if r.isInline then bytes == 0 || CTRL + RADDR + ATOMIC + INL_HEADER + bytes <= wqeSize
    else CTRL + RADDR + ATOMIC + NonEmpty(r.lengths) * DATA <= wqeSize
  }

  /** Whether a request that is posted, or refused for its inline data, stays inside the size fixed
      at creation. */
  predicate HasRoom(s: SqSize, r: Request) {
    IsAtomic(r.opcode) ==> AtomicRoom(s.wqeSize, r, InlineCopied(r.lengths, s.maxInline))
  }

  /** What is written for a request with an admissible number of entries, accepted or not, stays
      inside the size fixed at creation if and only if it is not an atomic or has room for the
      header of one. */
  lemma WrittenFitsExactly(q: QpInit, d: Device, s: SqSize, r: Request)
    requires WellSized(q, d, s) && |r.lengths| <= s.maxGs
    ensures WrittenBytes(s, r) <= s.wqeSize <==> HasRoom(s, r)
    ensures WrittenBlocks(s, r) * SEND_WQE_BB <= s.wqeSize <==> HasRoom(s, r)
  {
    hide IsPowerOfTwo, NonEmpty, SqOverhead, Sum, HeaderUnits, InlineCopied;
    BytesInBlocks(WrittenBytes(s, r), s.wqeSize);
    HeaderFits(r.opcode);
    if IsAtomic(r.opcode) {
      GatherFits(q, d, s, 0);
    } else if !r.isInline {
      GatherFits(q, d, s, NonEmpty(r.lengths));
    } else if s.wqeSize == SqOverhead(q, d) {
      NothingInline(q, d, s, r);
    } else {
      InlineLimit(q, d, s);
    }
  }

  lemma BytesInBlocks(bytes: nat, size: nat)
    requires size % SEND_WQE_BB == 0
    ensures DivRoundUp(bytes, SEND_WQE_BB) * SEND_WQE_BB <= size <==> bytes <= size
  {
  }

  /** A request that passes the run-time checks fits into the size fixed at creation if and only
      if it is not an atomic or has room for the header of one. */
  lemma RequestFitsExactly(q: QpInit, d: Device, s: SqSize, r: Request)
    requires WellSized(q, d, s) && PassesChecks(s, r)
    ensures Blocks(r) * SEND_WQE_BB <= s.wqeSize <==> HasRoom(s, r)
  {
    hide Blocks, WrittenBlocks, WrittenBytes, HasRoom, WellSized;
    WrittenIsAccounted(s, r);
    WrittenFitsExactly(q, d, s, r);
  }

  /** An atomic with one gather entry that is not inline always has room. */
  lemma OneEntryHasRoom(q: QpInit, d: Device, s: SqSize, r: Request)
    requires WellSized(q, d, s) && !r.isInline && |r.lengths| <= 1
    ensures HasRoom(s, r)
  {
    hide NonEmpty, SqOverhead, GetSendSge;
  }

  lemma HeaderFits(op: Opcode)
    ensures if IsAtomic(op) then HeaderUnits(op) * 16 == CTRL + RADDR + ATOMIC
            else HeaderUnits(op) * 16 <= CTRL + RADDR
  {
  }

  lemma GatherFits(q: QpInit, d: Device, s: SqSize, n: nat)
    requires WellSized(q, d, s) && n <= s.maxGs
    ensures CTRL + RADDR + n * 16 <= s.wqeSize && CTRL + RADDR + ATOMIC + DATA <= s.wqeSize
  {
    hide IsPowerOfTwo, SqOverhead;
    assert n <= (s.wqeSize - SqOverhead(q, d)) / DATA;
  }

  lemma InlineLimit(q: QpInit, d: Device, s: SqSize)
    requires WellSized(q, d, s) && s.wqeSize > SqOverhead(q, d)
    ensures s.maxInline <= s.wqeSize - SqOverhead(q, d) - INL_HEADER
  {
    hide IsPowerOfTwo, SqOverhead, GetSendSge;
  }

  /** With no room beside the overhead the limit on inline bytes has wrapped round to almost
      2^32, but then no gather entry is allowed, and nothing is inline. */
  lemma NothingInline(q: QpInit, d: Device, s: SqSize, r: Request)
    requires WellSized(q, d, s) && |r.lengths| <= s.maxGs && s.wqeSize == SqOverhead(q, d)
    ensures s.maxInline == WORD - INL_HEADER && s.maxGs == 0
    ensures r.lengths == [] && InlineUnits(Sum(r.lengths)) == 0 && InlineCopied(r.lengths, s.maxInline) == 0
  {
    hide SqOverhead, Align;
  }

  /** An atomic fits exactly when it has room for its header. */
  lemma AtomicFitsExactly(q: QpInit, d: Device, s: SqSize, r: Request)
    requires WellSized(q, d, s) && IsAtomic(r.opcode)
    ensures Blocks(r) * SEND_WQE_BB <= s.wqeSize <==> AtomicRoom(s.wqeSize, r, Sum(r.lengths))
  {
    hide NonEmpty, Sum, IsPowerOfTwo, InlineUnits, SqOverhead, GetSendSge;
    BlocksFitExactly(Units(r), s.wqeSize);
    if r.isInline {
      InlineAtomicUnits(Sum(r.lengths), s.wqeSize);
    }
  }

  lemma InlineAtomicUnits(bytes: nat, size: nat)
    requires size % SEND_WQE_BB == 0 && size >= SEND_WQE_BB
    ensures CTRL + RADDR + ATOMIC + InlineUnits(bytes) * 16 <= size <==>
            bytes == 0 || CTRL + RADDR + ATOMIC + INL_HEADER + bytes <= size
  {
    hide Align;
    if bytes != 0 {
      var r := Align(bytes + INL_HEADER, 16);
      assert r / 16 * 16 == r;
      if CTRL + RADDR + ATOMIC + r > size {
        NextMultiple(size, CTRL + RADDR + ATOMIC + r);
      }
    }
  }

  lemma NextMultiple(x: nat, y: nat)
    requires x % 16 == 0 && y % 16 == 0 && x < y
    ensures x + 16 <= y
  {
  }

  lemma BlocksFitExactly(units: nat, size: nat)
    requires size % SEND_WQE_BB == 0
    ensures DivRoundUp(units * 16, SEND_WQE_BB) * SEND_WQE_BB <= size <==> units * 16 <= size
  {
  }

  const SMALL := QpInit(1, 2, 0, 0, 0, false, true, false)
  const NO_WINDOWS := Device(512, 1024, true)
  const SMALL_SIZE := SqSize(64, 64, 1, 1, 2, 28)

  /** Without memory windows a ring of two gather entries is one block per request. An atomic with
      two gather entries, and one with 28 bytes inline, pass the checks but take two blocks, which
      is more than the ring has. */
  lemma AtomicMayNotFit()
    ensures CalcSendWqe(SMALL, NO_WINDOWS) == Some(64) && WellSized(SMALL, NO_WINDOWS, SMALL_SIZE)
    ensures var r := Request(AtomicFetchAdd, false, [8, 8], 0);
            PassesChecks(SMALL_SIZE, r) && Blocks(r) == 2 > SMALL_SIZE.wqeCnt
    ensures var r := Request(AtomicFetchAdd, true, [28], 0);
            PassesChecks(SMALL_SIZE, r) && Blocks(r) == 2 > SMALL_SIZE.wqeCnt
  {
    hide Pow2, SqOverhead, Align, Sum, NonEmpty, CalcSendWqe;
    TwoEntries();
    assert IsPowerOfTwo(1) by { OneIsPower(); }
    SmallSize();
    assert Align(28 + INL_HEADER, 16) == 32;
  }

  lemma OneIsPower()
    ensures IsPowerOfTwo(1)
  {
    assert Pow2(0) == 1;
  }

  lemma SmallSize()
    ensures SqOverhead(SMALL, NO_WINDOWS) == 32 && CalcSendWqe(SMALL, NO_WINDOWS) == Some(64)
  {
    hide Align;
    AlignedAlready();
  }

  lemma AlignedAlready()
    ensures Align(64, 64) == 64
  {
  }

  lemma TwoEntries()
    ensures NonEmpty([8, 8]) == 2 && Sum([28]) == 28
  {
    assert [28][..0] == [];
    assert [8, 8][..1] == [8];
    assert NonEmpty([8]) == 1;
  }
}
