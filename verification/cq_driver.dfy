/** The driver's side of the completion queue: 32-bit indices, a ring updated in place, and the
    session being unpacked. Every method is tied to the protocol of CqModel. */
module CqDriver {
  import opened Words
  import opened Cqe
  import opened CqModel
  import opened CqEager
  import opened CqClean
  import opened CqResize
  import opened CqSession
  import opened Srq

  /** The slot and owner bit that the driver reads off a 32-bit index are those of the index
      counted without bound. */
  lemma IndexIsExact(i: nat, idx: uint32, n: nat)
    requires IsRingSize(n) && idx == Low32(i)
    ensures n > 0 && idx % n == Slot(i, n) && ((idx / n) % 2 == 1) == Owner(i, n)
  {
    WrapIsHarmless(i, n);
    SlotIsRemainder(idx, n);
  }

  datatype ResizeOutcome = Copied | HardwareOwned | NoMarker

  lemma NextIndex(i: nat, idx: uint32, d: nat)
    requires idx == Low32(i)
    ensures Low32(idx + d) == Low32(i + d)
  {
  }

  /** One chunk of eight entries has been copied; the rest of the work is unchanged. */
  lemma ChunkStep(r: Ring, title: Entry, striding: bool, w: uint16, minis: seq<Mini>, i: nat, cnt: nat)
    requires |minis| == MINI_ARR_SIZE && MINI_ARR_SIZE <= cnt <= |r|
    ensures var r' := WriteAll(r, i, Unpacked(title, striding, w, minis, i, |r|));
            var j := i + MINI_ARR_SIZE;
            var rest := MiniStream(r', Minis(At(r', j)), j + MINI_ARR_SIZE, cnt - MINI_ARR_SIZE);
            WriteAll(r', j, Unpacked(title, striding, CounterAfter(title, striding, w, minis), rest, j, |r|))
            == WriteAll(r, i, Unpacked(title, striding, w, MiniStream(r, minis, j, cnt), i, |r|))
  {
    hide Minis, WriteAll, Unpacked, CounterAfter, Fill;
    var j := i + MINI_ARR_SIZE;
    var es := Unpacked(title, striding, w, minis, i, |r|);
    var r' := WriteAll(r, i, es);
    WriteAllEffect(r, i, es);
    var rest := MiniStream(r, Minis(At(r, j)), j + MINI_ARR_SIZE, cnt - MINI_ARR_SIZE);
    if cnt == MINI_ARR_SIZE {
      assert minis[..cnt] == minis && minis + rest == minis;
    } else {
      assert At(r', j) == At(r, j);
      MiniStreamAgree(r, r', Minis(At(r, j)), j + MINI_ARR_SIZE, cnt - MINI_ARR_SIZE);
    }
    assert MiniStream(r, minis, j, cnt) == minis + rest;
    UnpackedConcat(title, striding, w, minis, rest, i, |r|);
    WriteAllConcat(r, i, es, Unpacked(title, striding, CounterAfter(title, striding, w, minis), rest, j, |r|));
  }

  class CompletionQueue {
    const rs: Resources
    var ring: array<Entry>
    var cqe: nat
    var logSize: nat
    var consIndex: uint32
    var nextDecomp: Entry
    var compressedLeft: uint16
    var compressedWqeCnt: uint16
    var compressedReq: bool
    var compressedMpRq: bool
    var miniArray: seq<Mini>
    var miniArrIdx: nat
    ghost var cons: nat
    ghost var prod: nat

    ghost predicate Shape()
      reads this
    {
      && logSize <= 31 && ring.Length == cqe + 1 == Pow2(logSize)
      && consIndex == Low32(cons)
      && miniArrIdx <= |miniArray| == MINI_ARR_SIZE
      && (compressedLeft > 0 ==> compressedReq == IsRequestor(nextDecomp.opcode))
    }

    ghost function Abs(): State
      requires ring.Length > 0
      reads this, ring
    {
      State(rs, ring[..], cons, prod,
            Current(nextDecomp, compressedLeft, compressedWqeCnt, compressedMpRq, miniArray, miniArrIdx))
    }

    ghost predicate Valid()
      reads this, ring
    {
      Shape() && CqModel.Valid(Abs())
    }

    ghost function Queue(): seq<Entry>
      requires Valid()
      reads this, ring
    {
      CqModel.Queue(Abs())
    }

    /** A ring as mlx5_alloc_cq_buf leaves it. */
    constructor (logSize: nat, rs: Resources, buffer: array<Entry>)
      requires logSize <= 31 && buffer.Length == Pow2(logSize)
      requires forall i :: 0 <= i < buffer.Length ==> buffer[i].opcode == INVALID
      ensures Valid() && Queue() == [] && Init(Abs()) && ring == buffer && this.rs == rs
    {
      this.rs := rs;
      ring := buffer;
      cqe := Pow2(logSize) - 1;
      this.logSize := logSize;
      consIndex := 0;
      nextDecomp := buffer[0];
      compressedLeft := 0;
      compressedWqeCnt := 0;
      compressedReq := false;
      compressedMpRq := false;
      miniArray := seq(MINI_ARR_SIZE, _ => Mini(0, 0));
      miniArrIdx := 0;
      cons := 0;
      prod := 0;
      new;
      InitValid(Abs());
    }

    // -------------------------------------------------------------- lazy unpacking

    method UpdateCqeOwnership(size: nat)
      requires Shape() && size <= ring.Length
      modifies ring
      ensures ring[..] == MarkOwned(old(ring[..]), cons, size)
    {
      hide MarkOwned, OwnerByteOnly, Low32;
      var n := cqe + 1;
      IndexIsExact(cons, consIndex, n);
      var opown := (consIndex / Pow2(logSize)) % 2 == 1;
      var idx := consIndex % n;
      ghost var idx0, k := idx, 0;
      var last := idx + size;
      MarkNothing(ring[..], cons);
      while idx < last && idx <= cqe
        invariant idx0 <= idx == idx0 + k && idx <= last && idx <= n
        invariant ring[..] == MarkOwned(old(ring[..]), cons, k)
      {
        OwnerAhead(cons, k, n);
        MarkOneMore(old(ring[..]), cons, k);
        ring[idx] := OwnerByteOnly(ring[idx], opown);
        idx := idx + 1;
        k := k + 1;
      }
      if idx < last {
        var j := 0;
        while idx < last
          invariant idx == idx0 + k && idx <= last && j == idx - n
          invariant ring[..] == MarkOwned(old(ring[..]), cons, k)
        {
          OwnerAhead(cons, k, n);
          MarkOneMore(old(ring[..]), cons, k);
          ring[j] := OwnerByteOnly(ring[j], !opown);
          j := j + 1;
          idx := idx + 1;
          k := k + 1;
        }
      }
    }

    lemma MarkNothing(r: Ring, i: nat)
      ensures MarkOwned(r, i, 0) == r
    {
    }

    lemma MarkOneMore(r: Ring, i: nat, k: nat)
      ensures MarkOwned(r, i, k + 1) ==
              var q := MarkOwned(r, i, k);
              q[Slot(i + k, |r|) := OwnerByteOnly(q[Slot(i + k, |r|)], Owner(i + k, |r|))]
    {
    }

    method SaveMiniArr(cqeIdx: uint32, ghost i: nat)
      requires Shape() && cqeIdx == Low32(i) && Min(compressedLeft, MINI_ARR_SIZE) <= ring.Length
      modifies this`miniArray, this`miniArrIdx, ring
      ensures Shape() && Abs() == SaveMinis(old(Abs()), i)
    {
      hide MarkOwned, Minis, Low32;
      IndexIsExact(i, cqeIdx, cqe + 1);
      miniArray := Minis(ring[cqeIdx % (cqe + 1)]);
      miniArrIdx := 0;
      UpdateCqeOwnership(Min(compressedLeft, MINI_ARR_SIZE));
    }

    /** The slot that a 32-bit index names and the owner bit that is due there. */
    method Locate(n: uint32, ghost i: nat) returns (slot: nat, due: bool)
      requires Shape() && n == Low32(i)
      ensures slot == Slot(i, cqe + 1) && due == Owner(i, cqe + 1)
    {
      hide Minis, Low32;
      IndexIsExact(i, n, cqe + 1);
      slot, due := n % (cqe + 1), (n / (cqe + 1)) % 2 == 1;
    }

    method SaveTitle()
      requires Shape()
      modifies this`nextDecomp, this`compressedLeft, this`compressedReq, this`compressedWqeCnt, this`compressedMpRq
      ensures Shape() && Abs() == CqModel.SaveTitle(old(Abs()))
    {
      hide Minis, Low32, Pow2;
      var idx, due := Locate(consIndex, cons);
      nextDecomp := ring[idx];
      compressedLeft := nextDecomp.byteCnt % 0x1_0000;
      compressedReq := IsRequestor(nextDecomp.opcode);
      compressedWqeCnt := nextDecomp.wqeCounter;
      compressedMpRq := IsStriding(rs, nextDecomp);
    }

    method DecompNextCqe()
      requires Shape() && compressedReq == IsRequestor(nextDecomp.opcode)
      requires Min(compressedLeft, MINI_ARR_SIZE) <= ring.Length
      modifies this`nextDecomp, this`compressedLeft, this`compressedWqeCnt, this`miniArray, this`miniArrIdx,
               this`consIndex, this`cons, ring
      ensures Shape() && Abs() == DecompressNext(old(Abs()))
    {
      hide MarkOwned, Minis, Low32, Fill, NextCounter, OneLess;
      if miniArrIdx == MINI_ARR_SIZE {
        SaveMiniArr(consIndex, cons);
      }
      UnpackMini(miniArray[miniArrIdx]);
      miniArrIdx := miniArrIdx + 1;
      CountDown(compressedLeft);
      compressedLeft := (compressedLeft + 0xffff) % 0x1_0000;
      AdvanceConsumer(1);
    }

    lemma CountDown(left: uint16)
      ensures (left + 0xffff) % 0x1_0000 == OneLess(left)
    {
    }

    /** Overwrites the unpacked entry with one mini entry and steps the counter. */
    method UnpackMini(m: Mini)
      requires compressedReq == IsRequestor(nextDecomp.opcode)
      modifies this`nextDecomp, this`compressedWqeCnt
      ensures nextDecomp == Fill(old(nextDecomp), old(compressedWqeCnt), m)
      ensures nextDecomp.opcode == old(nextDecomp.opcode)
      ensures compressedWqeCnt == NextCounter(old(nextDecomp), compressedMpRq, old(compressedWqeCnt), m)
    {
      nextDecomp := nextDecomp.(byteCnt := m.byteCnt);
      if compressedReq {
        nextDecomp := nextDecomp.(wqeCounter := m.info / 0x1_0000, sop := m.info / 0x100 % 0x100);
      } else {
        nextDecomp := nextDecomp.(rxHash := m.info, wqeCounter := compressedWqeCnt);
        if compressedMpRq {
          compressedWqeCnt := (compressedWqeCnt + m.byteCnt / 0x1_0000 % 0x4000) % 0x1_0000;
        } else {
          compressedWqeCnt := (compressedWqeCnt + 1) % 0x1_0000;
        }
      }
    }

    method AdvanceConsumer(d: nat)
      requires consIndex == Low32(cons)
      modifies this`consIndex, this`cons
      ensures cons == old(cons) + d && consIndex == Low32(cons)
    {
      NextIndex(cons, consIndex, d);
      consIndex := Low32(consIndex + d);
      cons := cons + d;
    }

    /** Takes the next completion, unpacking it from a session where need be. */
    method PollOne() returns (r: Option<Entry>)
      requires Valid()
      modifies this, ring
      ensures Valid() && ring == old(ring) && (Abs(), r) == Poll(old(Abs()))
      ensures r.Some? <==> old(Queue()) != []
      ensures r == None ==> Abs() == old(Abs())
      ensures r.Some? ==> Content(r.value) == old(Queue())[0] && Queue() == old(Queue())[1..]
      ensures cons == (if r.Some? then old(cons) + 1 else old(cons)) && prod == old(prod)
      ensures old(compressedLeft) == 0 ==>
                var e := old(ring[cons % ring.Length]);
                && (r == None <==> e.opcode == 15 || e.owner != (old(cons / ring.Length) % 2 == 1))
                && (r.Some? && e.format != 3 ==> r == Some(e))
    {
      hide CqModel.Valid, Poll, Content, CqModel.Queue, Fresh, Low32;
      ghost var s := Abs();
      PollIsDequeue(s);
      SavedMinis(s);
      if compressedLeft == 0 {
        PollByFields(s);
      }
      SessionFits(s);
      r := PollStep();
    }

    /** The steps of one poll. */
    method PollStep() returns (r: Option<Entry>)
      requires Shape() && (compressedLeft > 0 ==> Min(compressedLeft, MINI_ARR_SIZE) <= ring.Length)
      requires compressedLeft == 0 && Fresh(ring[..], cons) && At(ring[..], cons).format == COMPRESSED ==>
        2 <= At(ring[..], cons).byteCnt < 0x1_0000 && At(ring[..], cons).byteCnt <= ring.Length
      modifies this`nextDecomp, this`compressedLeft, this`compressedReq, this`compressedWqeCnt, this`compressedMpRq,
               this`miniArray, this`miniArrIdx, this`consIndex, this`cons, ring
      ensures Shape() && (Abs(), r) == Poll(old(Abs()))
    {
      hide MarkOwned, Minis, Low32, Pow2, DecompressNext, SaveMinis, CqModel.SaveTitle;
      var idx, due := Locate(consIndex, cons);
      if compressedLeft > 0 {
        DecompNextCqe();
        return Some(nextDecomp);
      }
      var e := ring[idx];
      if e.opcode == INVALID || e.owner != due {
        return None;
      }
      if e.format == COMPRESSED {
        StartSession();
        DecompNextCqe();
        return Some(nextDecomp);
      }
      AdvanceConsumer(1);
      return Some(e);
    }

    lemma SavedMinis(s: State)
      requires CqModel.Valid(s)
      ensures s.cur.idx <= |s.cur.minis| == MINI_ARR_SIZE
    {
    }

    lemma SessionFits(s: State)
      requires CqModel.Valid(s)
      ensures s.cur.left > 0 ==> Min(s.cur.left, MINI_ARR_SIZE) <= |s.ring|
      ensures s.cur.left == 0 && Fresh(s.ring, s.cons) && At(s.ring, s.cons).format == COMPRESSED ==>
        2 <= At(s.ring, s.cons).byteCnt < 0x1_0000 && At(s.ring, s.cons).byteCnt <= |s.ring|
    {
    }

    method StartSession()
      requires Shape() && 2 <= At(ring[..], cons).byteCnt < 0x1_0000
      requires At(ring[..], cons).byteCnt <= ring.Length
      modifies this`nextDecomp, this`compressedLeft, this`compressedReq, this`compressedWqeCnt, this`compressedMpRq,
               this`miniArray, this`miniArrIdx, ring
      ensures Shape() && Abs() == SaveMinis(CqModel.SaveTitle(old(Abs())), cons + 1)
      ensures 2 <= compressedLeft <= ring.Length
    {
      hide MarkOwned, Minis, Low32;
      SaveTitle();
      NextIndex(cons, consIndex, 1);
      SaveMiniArr(Low32(consIndex + 1), cons + 1);
    }

    // -------------------------------------------------------------- unpacking in place

    /** The title being unpacked: a slot of the ring, or the entry saved by a lazy poll. */
    function Title(inPlace: bool, slot: nat): Entry
      requires slot < ring.Length
      reads this, ring
    {
      if inPlace then ring[slot] else nextDecomp
    }

    /** Unpacks mini entries into consecutive slots. The title is read again for every entry
        and may lie in a slot that has just been overwritten. */
    method CopyCqes(minis: seq<Mini>, inPlace: bool, slot: nat, wqeCnt: uint16, cqeIdx: uint32, striding: bool,
                    ghost i: nat, ghost title: Entry)
      returns (w: uint16)
      requires Shape() && slot < ring.Length && cqeIdx == Low32(i) && SameTitle(title, Title(inPlace, slot))
      modifies ring
      ensures ring[..] == WriteAll(old(ring[..]), i, Unpacked(title, striding, wqeCnt, minis, i, ring.Length))
      ensures w == CounterAfter(title, striding, wqeCnt, minis)
      ensures SameTitle(title, Title(inPlace, slot))
    {
      hide WriteAll, Unpacked, CounterAfter, Fill;
      w := wqeCnt;
      var k := 0;
      NothingCopied(old(ring[..]), title, striding, wqeCnt, minis, i);
      while k < |minis|
        invariant 0 <= k <= |minis| && SameTitle(title, Title(inPlace, slot))
        invariant ring[..] == WriteAll(old(ring[..]), i, Unpacked(title, striding, wqeCnt, minis[..k], i, ring.Length))
        invariant w == CounterAfter(title, striding, wqeCnt, minis[..k])
      {
        NextIndex(i, cqeIdx, k);
        var e, w' := UnpackOne(Title(inPlace, slot), minis[k], w, Low32(cqeIdx + k), striding, i + k, title);
        IndexIsExact(i + k, Low32(cqeIdx + k), cqe + 1);
        OneMoreCopied(old(ring[..]), title, striding, wqeCnt, minis, i, k);
        ring[Low32(cqeIdx + k) % (cqe + 1)] := e;
        w := w';
        k := k + 1;
      }
      assert minis[..k] == minis;
    }

    /** The entry that one mini entry unpacks to, and the counter after it. */
    method UnpackOne(t: Entry, m: Mini, w: uint16, idx: uint32, striding: bool, ghost i: nat, ghost title: Entry)
      returns (e: Entry, w': uint16)
      requires Shape() && idx == Low32(i) && SameTitle(title, t)
      ensures e == Fill(title, w, m).(format := 0, owner := Owner(i, ring.Length))
      ensures w' == NextCounter(title, striding, w, m)
      ensures SameTitle(title, e)
    {
      IndexIsExact(i, idx, cqe + 1);
      e := t.(byteCnt := m.byteCnt, format := 0, owner := (idx / Pow2(logSize)) % 2 == 1);
      w' := w;
      if IsRequestor(t.opcode) {
        e := e.(wqeCounter := m.info / 0x1_0000, sop := m.info / 0x100 % 0x100);
      } else {
        e := e.(rxHash := m.info, wqeCounter := w);
        if striding {
          w' := (w + m.byteCnt / 0x1_0000 % 0x4000) % 0x1_0000;
        } else {
          w' := (w + 1) % 0x1_0000;
        }
      }
    }

    lemma NothingCopied(r: Ring, title: Entry, striding: bool, w: uint16, minis: seq<Mini>, i: nat)
      ensures WriteAll(r, i, Unpacked(title, striding, w, minis[..0], i, |r|)) == r
      ensures CounterAfter(title, striding, w, minis[..0]) == w
    {
    }

    lemma OneMoreCopied(r: Ring, title: Entry, striding: bool, w: uint16, minis: seq<Mini>, i: nat, k: nat)
      requires k < |minis|
      ensures var w1 := CounterAfter(title, striding, w, minis[..k]);
              var e := Fill(title, w1, minis[k]).(format := 0, owner := Owner(i + k, |r|));
              && WriteAll(r, i, Unpacked(title, striding, w, minis[..k + 1], i, |r|))
                 == WriteAll(r, i, Unpacked(title, striding, w, minis[..k], i, |r|))[Slot(i + k, |r|) := e]
              && CounterAfter(title, striding, w, minis[..k + 1]) == NextCounter(title, striding, w1, minis[k])
    {
      hide Fill, NextCounter, Unpacked, CounterAfter, WriteAll;
      var a, b := minis[..k], [minis[k]];
      assert minis[..k + 1] == a + b;
      var w1 := CounterAfter(title, striding, w, a);
      SingleUnpacked(title, striding, w1, minis[k], i + k, |r|);
      UnpackedConcat(title, striding, w, a, b, i, |r|);
      CounterAfterConcat(title, striding, w, a, b);
      WriteOneMore(r, i, Unpacked(title, striding, w, a, i, |r|), Unpacked(title, striding, w1, b, i + k, |r|)[0]);
    }

    lemma SingleUnpacked(title: Entry, striding: bool, w: uint16, m: Mini, i: nat, n: nat)
      requires n > 0
      ensures Unpacked(title, striding, w, [m], i, n) == [Fill(title, w, m).(format := 0, owner := Owner(i, n))]
      ensures CounterAfter(title, striding, w, [m]) == NextCounter(title, striding, w, m)
    {
      hide Fill, NextCounter;
    }

    lemma WriteOneMore(r: Ring, i: nat, es: seq<Entry>, e: Entry)
      requires |r| > 0
      ensures WriteAll(r, i, es + [e]) == WriteAll(r, i, es)[Slot(i + |es|, |r|) := e]
    {
      assert (es + [e])[..|es|] == es;
    }

    /** The loop over chunks of eight: unpacks a chunk, then reads the next one from its slot. */
    method CopyChunks(first: seq<Mini>, inPlace: bool, slot: nat, count: nat, wqeCnt: uint16, firstIdx: uint32,
                      striding: bool, ghost i: nat, ghost title: Entry)
      requires Shape() && slot < ring.Length && firstIdx == Low32(i) && SameTitle(title, Title(inPlace, slot))
      requires |first| == MINI_ARR_SIZE && count <= ring.Length
      modifies ring
      ensures ring[..] == WriteAll(old(ring[..]), i, Unpacked(title, striding, wqeCnt,
                                   MiniStream(old(ring[..]), first, i + MINI_ARR_SIZE, count), i, ring.Length))
    {
      hide WriteAll, Unpacked, CounterAfter, Minis, Fill, Low32, MiniStream, Pow2, SameTitle, Slot;
      var minis, cnt, w, idx := first, count, wqeCnt, firstIdx;
      ghost var j: nat := i;
      ghost var goal := WriteAll(ring[..], i, Unpacked(title, striding, wqeCnt,
                                 MiniStream(ring[..], first, i + MINI_ARR_SIZE, count), i, ring.Length));
      while cnt > MINI_ARR_SIZE - 1
        invariant |minis| == MINI_ARR_SIZE && 0 <= cnt <= ring.Length && idx == Low32(j)
        invariant SameTitle(title, Title(inPlace, slot))
        invariant goal == WriteAll(ring[..], j, Unpacked(title, striding, w,
                                   MiniStream(ring[..], minis, j + MINI_ARR_SIZE, cnt), j, ring.Length))
      {
        ChunkStep(ring[..], title, striding, w, minis, j, cnt);
        w := CopyCqes(minis, inPlace, slot, w, idx, striding, j, title);
        NextIndex(j, idx, MINI_ARR_SIZE);
        idx := Low32(idx + MINI_ARR_SIZE);
        j := j + MINI_ARR_SIZE;
        IndexIsExact(j, idx, cqe + 1);
        minis := Minis(ring[idx % (cqe + 1)]);
        cnt := cnt - MINI_ARR_SIZE;
      }
      MiniStreamAtHand(ring[..], minis, j + MINI_ARR_SIZE, cnt);
      w := CopyCqes(minis[..cnt], inPlace, slot, w, idx, striding, j, title);
    }

    /** Unpacks a session that has not been started, over its own title. */
    method DecompressCqeIdx(cqeIdx: uint32, ghost p: nat)
      requires Shape() && cqeIdx == Low32(p) && At(ring[..], p).byteCnt <= ring.Length
      modifies ring
      ensures ring[..] == ExpandAt(rs, old(ring[..]), p)
    {
      hide WriteAll, Unpacked, Minis, Fill, MiniStream;
      IndexIsExact(p, cqeIdx, cqe + 1);
      NextIndex(p, cqeIdx, 1);
      IndexIsExact(p + 1, Low32(cqeIdx + 1), cqe + 1);
      var slot := cqeIdx % (cqe + 1);
      var title := ring[slot];
      var minis := Minis(ring[Low32(cqeIdx + 1) % (cqe + 1)]);
      CopyChunks(minis, true, slot, title.byteCnt, title.wqeCounter, cqeIdx, IsStriding(rs, title), p, title);
    }

    /** Unpacks what is left of the session at hand. */
    method DecompressCurr()
      requires Valid()
      modifies this`compressedLeft, ring
      ensures Shape() && Abs() == ExpandCurrent(old(Abs())) && compressedLeft == 0
    {
      hide WriteAll, Unpacked, Minis, Fill, Holds, Pending, Expand, MarkOwned, NothingBeyond, CounterAfter, Low32, Pow2;
      hide MiniStream, Stream, CurrentQueue;
      var cnt := compressedLeft;
      ghost var s := Abs();
      StreamAtHand(s);
      if cnt == 0 {
        NothingToWrite(ring[..], cons, nextDecomp, compressedMpRq, compressedWqeCnt);
        return;
      }
      compressedLeft := 0;
      var first := Min(cnt, MINI_ARR_SIZE - miniArrIdx);
      var head := miniArray[miniArrIdx..];
      var w := CopyCqes(head[..first], false, 0, compressedWqeCnt, consIndex, compressedMpRq, cons, nextDecomp);
      cnt := cnt - first;
      if cnt == 0 {
        return;
      }
      NextIndex(cons, consIndex, first);
      var idx := Low32(consIndex + first);
      var slot, due := Locate(idx, cons + first);
      CurrentChunks(s, head, cnt);
      assert head[..first] == head;
      CopyChunks(Minis(ring[slot]), false, 0, cnt, w, idx, compressedMpRq, cons + first, nextDecomp);
    }

    lemma StreamAtHand(s: State)
      requires s.cur.idx <= |s.cur.minis| == MINI_ARR_SIZE
      ensures s.cur.left <= MINI_ARR_SIZE - s.cur.idx ==> Stream(s) == s.cur.minis[s.cur.idx..][..s.cur.left]
    {
    }

    /** The chunk at hand has been copied; the other chunks of the session are still in place. */
    lemma CurrentChunks(s: State, head: seq<Mini>, cnt: nat)
      requires CqModel.Valid(s) && head == s.cur.minis[s.cur.idx..] && cnt > 0 && s.cur.left == |head| + cnt
      ensures var c, j := s.cur, s.cons + |head|;
              var r' := WriteAll(s.ring, s.cons, Unpacked(c.title, c.striding, c.wqeCnt, head, s.cons, |s.ring|));
              ExpandCurrent(s).ring
              == WriteAll(r', j, Unpacked(c.title, c.striding, CounterAfter(c.title, c.striding, c.wqeCnt, head),
                          MiniStream(r', Minis(At(r', j)), j + MINI_ARR_SIZE, cnt), j, |s.ring|))
    {
      hide WriteAll, Unpacked, Minis, Fill, Holds, Pending, Expand, NothingBeyond, CounterAfter;
      var c, j := s.cur, s.cons + |head|;
      var es := Unpacked(c.title, c.striding, c.wqeCnt, head, s.cons, |s.ring|);
      var r' := WriteAll(s.ring, s.cons, es);
      WriteAllEffect(s.ring, s.cons, es);
      assert At(r', j) == At(s.ring, j);
      var rest := MiniStream(s.ring, Minis(At(s.ring, j)), j + MINI_ARR_SIZE, cnt);
      MiniStreamAgree(s.ring, r', Minis(At(s.ring, j)), j + MINI_ARR_SIZE, cnt);
      assert Stream(s) == head + rest;
      UnpackedConcat(c.title, c.striding, c.wqeCnt, head, rest, s.cons, |s.ring|);
      var w := CounterAfter(c.title, c.striding, c.wqeCnt, head);
      WriteAllConcat(s.ring, s.cons, es, Unpacked(c.title, c.striding, w, rest, j, |s.ring|));
    }

    // -------------------------------------------------------------- finding the producer

    /** Unpacks every session in the ring and finds the producer index. A full ring is scanned
        up to its last slot only. */
    method ScanToProducer() returns (prodIndex: uint32, ghost hi: nat)
      requires Valid()
      modifies this`compressedLeft, ring
      ensures Valid() && Queue() == old(Queue()) && compressedLeft == 0
      ensures prodIndex == Low32(hi) && cons <= hi <= prod
      ensures hi - cons == Min(prod - cons, cqe)
      ensures Plain(ring[..], cons, hi) && Holds(ring[..], hi, prod)
    {
      hide WriteAll, Unpacked, Minis, Fill, Holds, Pending, Expand, CqModel.Queue, ExpandAt, ExpandCurrent, MiniStream,
        CqModel.Valid, Fresh, Plain, Low32, Slot, Pow2;
      FinishCurrent();
      prodIndex := consIndex;
      hi := cons;
      ghost var mid := cons;
      StartOfScan(Abs());
      while true
        invariant Valid() && Queue() == old(Queue()) && compressedLeft == 0
        invariant prodIndex == Low32(hi) && cons <= hi <= mid <= prod && hi < cons + ring.Length
        invariant Plain(ring[..], cons, mid) && Holds(ring[..], mid, prod)
        decreases cons + cqe + 1 - hi
      {
        var e := GetSwCqe(prodIndex, hi);
        if e.None? {
          NothingLeft(Abs(), hi, mid);
          break;
        }
        mid := ScanOne(e.value, prodIndex, hi, mid);
        LastIndexIsExact(hi, prodIndex, cons, consIndex, cqe, logSize);
        if prodIndex == Low32(consIndex + cqe) {
          break;
        }
        NextIndex(hi, prodIndex, 1);
        prodIndex := Low32(prodIndex + 1);
        hi := hi + 1;
      }
      PlainUpTo(ring[..], cons, hi, mid, prod);
    }

    /** The entry at an index, when it belongs to software. */
    method GetSwCqe(n: uint32, ghost i: nat) returns (e: Option<Entry>)
      requires Shape() && n == Low32(i)
      ensures e == if Fresh(ring[..], i) then Some(At(ring[..], i)) else None
    {
      IndexIsExact(i, n, cqe + 1);
      var entry := ring[n % (cqe + 1)];
      if entry.opcode != INVALID && entry.owner == ((n / (cqe + 1)) % 2 == 1) {
        return Some(entry);
      }
      return None;
    }

    /** Makes the entry at the scan index plain, and with it the session that it opens. */
    method ScanOne(e: Entry, prodIndex: uint32, ghost hi: nat, ghost mid: nat) returns (ghost mid': nat)
      requires Valid() && compressedLeft == 0 && prodIndex == Low32(hi) && cons <= hi <= mid <= prod
               && hi < cons + ring.Length
      requires Plain(ring[..], cons, mid) && Holds(ring[..], mid, prod)
      requires Fresh(ring[..], hi) && e == At(ring[..], hi)
      modifies ring
      ensures Valid() && Queue() == old(Queue())
      ensures hi < mid' <= prod && Plain(ring[..], cons, mid') && Holds(ring[..], mid', prod)
    {
      hide Minis, Holds, Pending, Expand, MiniStream, CqModel.Queue, CqModel.Valid, Low32, Plain, Fresh;
      ProducedIsFresh(Abs(), hi, mid);
      if e.format == COMPRESSED {
        mid' := FinishSession(prodIndex, hi);
      } else if mid == hi {
        OneMorePlain(ring[..], cons, hi, prod);
        mid' := hi + 1;
      } else {
        mid' := mid;
      }
    }

    method FinishCurrent()
      requires Valid()
      modifies this`compressedLeft, ring
      ensures Valid() && Queue() == old(Queue()) && compressedLeft == 0
    {
      hide WriteAll, Unpacked, Minis, Holds, Pending, Expand, NothingBeyond, ExpandCurrent, MiniStream,
        CqModel.Queue, CqModel.Valid;
      ExpandCurrentKeeps(Abs());
      DecompressCurr();
    }

    method FinishSession(prodIndex: uint32, ghost hi: nat) returns (ghost mid: nat)
      requires Valid() && compressedLeft == 0 && prodIndex == Low32(hi) && cons <= hi < prod
      requires Plain(ring[..], cons, hi) && Holds(ring[..], hi, prod) && At(ring[..], hi).format == COMPRESSED
      requires At(ring[..], hi).byteCnt <= ring.Length
      modifies ring
      ensures Valid() && Queue() == old(Queue())
      ensures hi < mid <= prod && Plain(ring[..], cons, mid) && Holds(ring[..], mid, prod)
    {
      hide WriteAll, Unpacked, Minis, Holds, Pending, Expand, NothingBeyond, ExpandAt, MiniStream, CqModel.Queue,
        CqModel.Valid;
      ExpandAtKeeps(Abs(), hi);
      mid := hi + At(ring[..], hi).byteCnt;
      DecompressCqeIdx(prodIndex, hi);
    }

    lemma StartOfScan(s: State)
      requires CqModel.Valid(s) && s.cur.left == 0
      ensures Plain(s.ring, s.cons, s.cons) && Holds(s.ring, s.cons, s.prod) && s.cons < s.cons + |s.ring|
    {
    }

    /** The scan sees an entry exactly while it is behind the producer; an entry that is still
        compressed has not been reached before. */
    lemma ProducedIsFresh(s: State, hi: nat, mid: nat)
      requires CqModel.Valid(s) && s.cur.left == 0 && s.cons <= hi <= mid <= s.prod && hi < s.cons + |s.ring|
      requires Plain(s.ring, s.cons, mid) && Holds(s.ring, mid, s.prod)
      ensures Fresh(s.ring, hi) <==> hi < s.prod
      ensures At(s.ring, hi).format == COMPRESSED && hi < s.prod ==>
                hi == mid && At(s.ring, hi).byteCnt <= |s.ring|
    {
      hide Minis;
      assert hi < mid ==> Fresh(s.ring, hi) && At(s.ring, hi).format != COMPRESSED;
    }

    lemma NothingLeft(s: State, hi: nat, mid: nat)
      requires CqModel.Valid(s) && s.cur.left == 0 && s.cons <= hi <= mid <= s.prod && hi < s.cons + |s.ring|
      requires Plain(s.ring, s.cons, mid) && Holds(s.ring, mid, s.prod) && !Fresh(s.ring, hi)
      ensures hi == s.prod
    {
      hide Minis;
      ProducedIsFresh(s, hi, mid);
    }

    lemma OneMorePlain(r: Ring, lo: nat, hi: nat, prod: nat)
      requires lo <= hi < prod && Plain(r, lo, hi) && Holds(r, hi, prod) && At(r, hi).format != COMPRESSED
      ensures Plain(r, lo, hi + 1) && Holds(r, hi + 1, prod)
    {
      forall i | lo <= i < hi + 1
        ensures Fresh(r, i) && At(r, i).format != COMPRESSED
      {
        if i < hi { assert At(r, i) == At(r, i); }
      }
    }

    lemma PlainUpTo(r: Ring, lo: nat, hi: nat, mid: nat, prod: nat)
      requires lo <= hi <= mid <= prod && Plain(r, lo, mid) && Holds(r, mid, prod)
      ensures Plain(r, lo, hi) && Holds(r, hi, prod)
    {
      forall i | lo <= i < hi ensures Fresh(r, i) && At(r, i).format != COMPRESSED { assert At(r, i) == At(r, i); }
      forall i | hi <= i < mid ensures Fresh(r, i) && At(r, i).format != COMPRESSED { assert At(r, i) == At(r, i); }
      var rs := Resources(true, {});
      PlainPending(rs, r, hi, mid);
      PendingConcat(rs, r, hi, mid, prod);
    }

    /** The 32-bit comparison that ends the scan is exact. */
    lemma LastIndexIsExact(hi: nat, prodIndex: uint32, cons: nat, consIndex: uint32, cqe: nat, logSize: nat)
      requires prodIndex == Low32(hi) && consIndex == Low32(cons) && cons <= hi <= cons + cqe
      requires logSize <= 31 && cqe + 1 == Pow2(logSize)
      ensures prodIndex == Low32(consIndex + cqe) <==> hi == cons + cqe
    {
      var m := WordIsTwoRings(cqe + 1);
      NextIndex(cons, consIndex, cqe);
      SameWord(hi, cons + cqe);
    }

    lemma SameWord(a: nat, b: nat)
      requires a <= b < a + WORD
      ensures Low32(a) == Low32(b) <==> a == b
    {
    }

    // -------------------------------------------------------------- cleaning

    /** The completions that a clean looks at: all of them unless the ring is full. */
    ghost function Scanned(): (q: seq<Entry>)
      requires Valid()
      reads this, ring
    {
      Queue()[..Min(prod - cons, cqe)]
    }

    ghost predicate CanTakeBack(srq: SharedReceiveQueue?, ws: seq<nat>)
      reads srq, if srq == null then {} else {srq.nextIndex, srq.scatter}
    {
      srq != null ==> srq.Valid() && Distinct(ws) && forall k :: 0 <= k < |ws| ==> srq.IsPosted(ws[k])
    }

    /** Removes the completions of one resource from the queue and gives the receive requests
        that they stand for back to the shared receive queue. */
    method Clean(id: nat, srq: SharedReceiveQueue?)
      requires Valid() && CanTakeBack(srq, Freed(rs, id, Scanned()))
      modifies this, ring, if srq == null then {} else {srq, srq.nextIndex}
      ensures Valid() && ring == old(ring) && prod == old(prod)
      ensures Queue() == Cleaned(rs, id, old(Queue()), ring.Length)
      ensures cons - old(cons) == |old(Queue())| - |Queue()|
      ensures srq != null ==> srq.Valid() && srq.free == old(srq.free) + Freed(rs, id, old(Scanned()))
      ensures var q, n := old(Queue()), Min(|old(Queue())|, ring.Length - 1);
              && LeavesOthers(rs.cqeVersion, id, q, n, Queue())
              && (srq != null ==> ReturnsSlots(rs.cqeVersion, id, q, n, srq.free[|old(srq.free)|..]))
    {
      hide LeavesOthers, ReturnsSlots, Cleaned;
      hide Minis, Holds, Pending, Expand, MiniStream, CqModel.Queue, CqModel.Valid, Low32, Plain, Fresh, Freed, Keep,
        Matches, Swept;
      ghost var freed := Freed(rs, id, Scanned());
      ghost var q := Queue();
      var prodIndex, hi := ScanToProducer();
      ghost var s := Abs();
      QueueBefore(s, hi);
      var nfreed := Sweep(id, prodIndex, srq, hi, freed);
      SweepResult(s, id, ring[..], hi, nfreed);
      CleanedIsKept(s, q, id, hi);
      CleanedByFields(rs, id, q, ring.Length);
      if nfreed > 0 {
        AdvanceConsumer(nfreed);
      }
    }

    lemma CleanedIsKept(s: State, q: seq<Entry>, id: nat, hi: nat)
      requires CqModel.Valid(s) && CqModel.Queue(s) == q && hi - s.cons == Min(s.prod - s.cons, |s.ring| - 1)
      ensures Cleaned(s.rs, id, q, |s.ring|) == Keep(s.rs, id, q[..hi - s.cons]) + q[hi - s.cons..]
    {
      hide Keep, CqModel.Valid;
    }

    /** Sweeps from the producer back to the consumer. */
    method Sweep(id: nat, prodIndex: uint32, srq: SharedReceiveQueue?, ghost hi: nat, ghost freed: seq<nat>)
      returns (nfreed: nat)
      requires Valid() && compressedLeft == 0 && prodIndex == Low32(hi) && cons <= hi <= prod && hi <= cons + cqe
      requires Plain(ring[..], cons, hi)
      requires Freed(rs, id, Entries(ring[..], cons, hi)) == freed && CanTakeBack(srq, freed)
      modifies ring, if srq == null then {} else {srq, srq.nextIndex}
      ensures Swept(rs, id, old(ring[..]), ring[..], cons, cons, hi, nfreed)
      ensures srq != null ==> srq.Valid() && srq.free == old(srq.free) + freed
    {
      hide Minis, CqModel.Valid, Low32, Plain, Fresh, Freed, Keep, Matches, Swept, Entries, SweepStep, ReturnsWqe;
      ghost var r0 := ring[..];
      ghost var free0: seq<nat> := if srq == null then [] else srq.free;
      NotFree(srq, freed);
      nfreed := 0;
      ghost var i := hi;
      SweepStart(rs, id, r0, cons, hi);
      NothingFreed(rs, id, r0, hi);
      var p := Low32(prodIndex + WORD - 1);
      StepBack(hi, prodIndex, cons, consIndex, cqe, logSize);
      while SignedDifference(p, consIndex) >= 0
        invariant cons <= i <= hi && p == Low32(i + WORD - 1)
        invariant SignedDifference(p, consIndex) == i - 1 - cons
        invariant Shape() && |ring[..]| == |r0|
        invariant Swept(rs, id, r0, ring[..], cons, i, hi, nfreed)
        invariant srq != null ==> srq.Valid() && srq.free == free0 + Freed(rs, id, Entries(r0, i, hi))
        decreases i
      {
        i := i - 1;
        SamePlace(i);
        nfreed := SweepAt(id, p, nfreed, srq, r0, i, hi, freed, free0);
        StepBack(i, p, cons, consIndex, cqe, logSize);
        p := Low32(p + WORD - 1);
      }
    }

    /** One step of the sweep together with what it gives back. */
    method SweepAt(id: nat, p: uint32, nfreed: nat, srq: SharedReceiveQueue?, ghost r0: Ring, ghost i: nat,
                   ghost hi: nat, ghost freed: seq<nat>, ghost free0: seq<nat>)
      returns (nfreed': nat)
      requires Shape() && p == Low32(i) && cons <= i < hi
      requires Plain(r0, cons, hi) && Swept(rs, id, r0, ring[..], cons, i + 1, hi, nfreed)
      requires Freed(rs, id, Entries(r0, cons, hi)) == freed
      requires srq != null ==>
                 && Distinct(freed) && srq.Valid() && srq.free == free0 + Freed(rs, id, Entries(r0, i + 1, hi))
                 && forall k :: 0 <= k < |freed| ==> freed[k] < srq.max && freed[k] !in free0
      modifies ring, if srq == null then {} else {srq, srq.nextIndex}
      ensures Swept(rs, id, r0, ring[..], cons, i, hi, nfreed')
      ensures srq != null ==> srq.Valid() && srq.free == free0 + Freed(rs, id, Entries(r0, i, hi))
    {
      hide Minis, Low32, Plain, Freed, Keep, Matches, Swept, Entries, SweepStep, ReturnsWqe;
      ghost var r := ring[..];
      SweptSlot(rs, id, r0, r, cons, i, hi, nfreed);
      SweepStepKeeps(rs, id, r0, r, cons, i, hi, nfreed);
      IndexIsExact(i, p, cqe + 1);
      GiveBack(id, ring[p % (cqe + 1)], srq, r0, cons, i, hi, freed, free0);
      assert ring[..] == r;
      nfreed' := SweepOne(id, p, nfreed, i);
    }

    lemma NotFree(srq: SharedReceiveQueue?, ws: seq<nat>)
      requires CanTakeBack(srq, ws)
      ensures srq != null ==> forall k :: 0 <= k < |ws| ==> ws[k] < srq.max && ws[k] !in srq.free
    {
      if srq != null {
        hide SharedReceiveQueue.Valid;
        forall k | 0 <= k < |ws|
          ensures ws[k] < srq.max && ws[k] !in srq.free
        {
          srq.CameBack(ws[k]);
        }
      }
    }

    lemma SamePlace(i: nat)
      ensures Low32(i + 1 + WORD - 1) == Low32(i)
    {
    }

    lemma NothingFreed(rs: Resources, id: nat, r: Ring, hi: nat)
      ensures Freed(rs, id, Entries(r, hi, hi)) == []
    {
    }

    lemma SweptSlot(rs: Resources, id: nat, r0: Ring, r: Ring, lo: nat, i: nat, hi: nat, f: nat)
      requires Swept(rs, id, r0, r, lo, i + 1, hi, f) && lo <= i
      ensures At(r, i) == At(r0, i) && i + 1 + f <= hi
    {
      hide Minis;
    }

    /** The index before, and its distance from the consumer read as a signed 32-bit number. */
    lemma StepBack(i: nat, p: uint32, cons: nat, consIndex: uint32, cqe: nat, logSize: nat)
      requires p == Low32(i) && consIndex == Low32(cons) && cons <= i <= cons + cqe
      requires logSize <= 31 && cqe + 1 == Pow2(logSize)
      ensures Low32(p + WORD - 1) == Low32(i + WORD - 1)
      ensures SignedDifference(Low32(p + WORD - 1), consIndex) == i - 1 - cons
    {
      var m := WordIsTwoRings(cqe + 1);
      SignedExact(i, cons);
      LowBack(i);
    }

    lemma LowBack(i: nat)
      ensures Low32(Low32(i) + WORD - 1) == Low32(i + WORD - 1)
    {
    }

    lemma SignedExact(i: nat, cons: nat)
      requires cons <= i <= cons + 0x8000_0000
      ensures SignedDifference(Low32(i + WORD - 1), Low32(cons)) == i - 1 - cons
    {
      hide SignedDifference, Low32;
      var d := i - 1 - cons;
      RemainderOfDifference(i + WORD - 1, cons, d);
      SignedOf(Low32(i + WORD - 1), Low32(cons), d);
    }

    lemma RemainderOfDifference(x: nat, y: nat, d: int)
      requires x == y + d + WORD && -1 <= d < 0x8000_0000
      ensures (Low32(x) - Low32(y)) % WORD == d % WORD
    {
      var a, b := x / WORD, y / WORD;
      assert Low32(x) - Low32(y) == d + WORD - WORD * a + WORD * b;
    }

    lemma SignedOf(a: uint32, b: uint32, d: int)
      requires (a - b) % WORD == d % WORD && -1 <= d < 0x8000_0000
      ensures SignedDifference(a, b) == d
    {
    }

    /** Gives one receive request back when its completion is removed. */
    method GiveBack(id: nat, e: Entry, srq: SharedReceiveQueue?, ghost r0: Ring, ghost lo: nat, ghost i: nat,
                    ghost hi: nat, ghost freed: seq<nat>, ghost free0: seq<nat>)
      requires lo <= i < hi && e == At(r0, i)
      requires Freed(rs, id, Entries(r0, lo, hi)) == freed
      requires srq != null ==>
                 && Distinct(freed) && srq.Valid() && srq.free == free0 + Freed(rs, id, Entries(r0, i + 1, hi))
                 && forall k :: 0 <= k < |freed| ==> freed[k] < srq.max && freed[k] !in free0
      modifies if srq == null then {} else {srq, srq.nextIndex}
      ensures srq != null ==> srq.Valid() && srq.free == free0 + Freed(rs, id, Entries(r0, i, hi))
    {
      hide Minis, Freed, Entries, Matches, ReturnsWqe;
      EntriesHead(r0, i, hi);
      FreedStep(rs, id, Content(e), Entries(r0, i + 1, hi));
      MatchesContent(rs, id, e);
      if Matches(rs, id, e) && srq != null && ReturnsWqe(rs, e) {
        FreedSoFar(rs, id, r0, lo, i, hi);
        FreedSoFar(rs, id, r0, lo, i + 1, hi);
        ghost var k := |Freed(rs, id, Entries(r0, i + 1, hi))|;
        assert freed[k] == e.wqeCounter;
        assert forall j :: 0 <= j < k ==> freed[j] == Freed(rs, id, Entries(r0, i + 1, hi))[j] != freed[k];
        srq.CameBack(e.wqeCounter);
        srq.FreeWqe(e.wqeCounter);
      }
    }

    lemma FreedSoFar(rs: Resources, id: nat, r0: Ring, lo: nat, i: nat, hi: nat)
      requires lo <= i <= hi
      ensures Freed(rs, id, Entries(r0, i, hi)) <= Freed(rs, id, Entries(r0, lo, hi))
    {
      hide Minis, Freed;
      assert Entries(r0, i, hi) == Entries(r0, lo, hi)[i - lo..];
      FreedOfSuffix(rs, id, Entries(r0, lo, hi), i - lo);
    }

    /** Drops the entry at an index, or moves it past the slots of the entries dropped so far,
        where it takes over the owner bit of the slot. */
    method SweepOne(id: nat, p: uint32, nfreed: nat, ghost i: nat) returns (nfreed': nat)
      requires Shape() && p == Low32(i)
      modifies ring
      ensures (ring[..], nfreed') == SweepStep(rs, id, old(ring[..]), i, nfreed)
    {
      hide Minis, Low32, Matches;
      IndexIsExact(i, p, cqe + 1);
      var e := ring[p % (cqe + 1)];
      nfreed' := nfreed;
      if Matches(rs, id, e) {
        nfreed' := nfreed + 1;
      } else if nfreed != 0 {
        NextIndex(i, p, nfreed);
        IndexIsExact(i + nfreed, Low32(p + nfreed), cqe + 1);
        var dest := Low32(p + nfreed) % (cqe + 1);
        var ownerBit := ring[dest].owner;
        ring[dest] := e;
        ring[dest] := ring[dest].(owner := ownerBit);
        assert ring[..] == old(ring[..])[dest := e.(owner := ownerBit)];
      }
    }

    // -------------------------------------------------------------- resizing

    static ghost predicate CopiedAtLeast(r: Ring, d: Ring, d': Ring, lo: nat, min: nat, max: nat) {
      exists k :: min <= k <= max && d' == CopyUp(r, d, lo, k)
    }

    /** Copies the entries before the resize marker to the new ring, one index up. */
    method ResizeCopyCqes(buffer: array<Entry>, newLog: nat) returns (outcome: ResizeOutcome)
      requires Valid() && buffer != ring && newLog <= 31 && buffer.Length == Pow2(newLog)
      modifies this`compressedLeft, this`consIndex, this`cons, ring, buffer
      ensures Shape() && compressedLeft == 0
      ensures var s := Abs().(cons := old(cons));
              var m := FirstMarker(old(Queue()));
              && CqModel.Valid(s) && CqModel.Queue(s) == old(Queue()) && Plain(s.ring, s.cons, s.prod)
              && (outcome == Copied <==> m < |old(Queue())|)
              && (m < |old(Queue())| ==> buffer[..] == CopyUp(s.ring, old(buffer[..]), s.cons, m))
              && (m == |old(Queue())| ==> CopiedAtLeast(s.ring, old(buffer[..]), buffer[..], s.cons, m, cqe + 1))
      ensures cons == old(cons) + if outcome == Copied then 1 else 0
    {
      hide Minis, CqModel.Valid, CqModel.Queue, Low32, Plain, Fresh, FirstMarker, Holds, Pending, Expand, CopyUp,
        Content;
      ghost var q := Queue();
      ghost var p, hi := ScanToProducer();
      ghost var s := Abs();
      WindowFits(s);
      PlainToTheEnd(s, hi);
      outcome := CopyLoop(buffer, newLog, q);
      if outcome == Copied {
        AdvanceConsumer(1);
      }
    }

    /** Copies entries to the new ring up to the first marker. When there is none, the loop goes on
        over slots that were never written until it meets one of the device or is back at its
        start; by then it has copied everything that was pending. */
    method CopyLoop(buffer: array<Entry>, newLog: nat, ghost q: seq<Entry>) returns (outcome: ResizeOutcome)
      requires Shape() && buffer != ring && newLog <= 31 && buffer.Length == Pow2(newLog)
      requires cons + |q| == prod <= cons + cqe + 1 && Plain(ring[..], cons, prod)
               && NothingBeyond(ring[..], cons, prod)
      requires forall k :: 0 <= k < |q| ==> q[k] == Content(At(ring[..], cons + k))
      modifies buffer
      ensures var m := FirstMarker(q);
              && (outcome == Copied <==> m < |q|)
              && (m < |q| ==> buffer[..] == CopyUp(ring[..], old(buffer[..]), cons, m))
              && (m == |q| ==> CopiedAtLeast(ring[..], old(buffer[..]), buffer[..], cons, m, cqe + 1))
    {
      hide Minis, CqModel.Valid, Low32, Plain, NothingBeyond, Fresh, FirstMarker, CopyUp, Content, Pow2, At, Slot,
        Owner;
      ghost var r := ring[..];
      var k := 0;
      NothingMoved(r, buffer[..], cons);
      var start, due, e := Look(0);
      var slot := start;
      NotYetMarker(r, q, 0);
      if e.owner != due {
        return HardwareOwned;
      }
      while e.opcode != RESIZE_CQ
        invariant 0 <= k <= cqe && e == At(r, cons + k) && e.owner == Owner(cons + k, cqe + 1)
        invariant buffer[..] == CopyUp(r, old(buffer[..]), cons, k)
        invariant FirstMarker(q) < |q| ==> k <= FirstMarker(q)
        decreases cqe + 1 - k
      {
        NotYetMarker(r, q, k);
        CopyOne(e, buffer, newLog, r, old(buffer[..]), k);
        k := k + 1;
        slot, due, e := Look(k);
        NotYetMarker(r, q, k);
        if e.owner != due {
          return HardwareOwned;
        }
        BackAtStart(cons, k, cqe + 1);
        if slot == start {
          return NoMarker;
        }
      }
      NotYetMarker(r, q, k);
      MarkerIsProduced(r, q, k);
      return Copied;
    }

    /** A marker that belongs to software is one the device has produced. */
    lemma MarkerIsProduced(r: Ring, q: seq<Entry>, k: nat)
      requires |r| == cqe + 1 && k <= cqe && cons + |q| == prod && NothingBeyond(r, cons, prod)
      requires At(r, cons + k).opcode == RESIZE_CQ && At(r, cons + k).owner == Owner(cons + k, |r|)
      requires k < |q| ==> q[k].opcode == RESIZE_CQ
      ensures FirstMarker(q) <= k < |q|
    {
      hide FirstMarker;
      if k >= |q| {
        assert false;
      }
    }

    /** The entry k places on, its slot, and the owner bit that is due there. */
    method Look(k: nat) returns (slot: nat, due: bool, e: Entry)
      requires Shape()
      ensures slot == Slot(cons + k, cqe + 1) && due == Owner(cons + k, cqe + 1) && e == At(ring[..], cons + k)
    {
      hide Minis, Low32, Pow2;
      NextIndex(cons, consIndex, k);
      slot, due := Locate(Low32(consIndex + k), cons + k);
      e := ring[slot];
    }

    method CopyOne(e: Entry, buffer: array<Entry>, newLog: nat, ghost r: Ring, ghost b0: Ring, k: nat)
      requires newLog <= 31 && buffer.Length == Pow2(newLog) && consIndex == Low32(cons)
      requires e == At(r, cons + k) && buffer[..] == CopyUp(r, b0, cons, k) && |b0| == buffer.Length
      modifies buffer
      ensures buffer[..] == CopyUp(r, b0, cons, k + 1)
    {
      hide Minis, Low32;
      NextIndex(cons, consIndex, k + 1);
      var n := Low32(consIndex + k + 1);
      IndexIsExact(cons + k + 1, n, buffer.Length);
      var swOwn := (n / buffer.Length) % 2 == 1;
      var d := n % buffer.Length;
      buffer[d] := e;
      buffer[d] := buffer[d].(owner := swOwn);
      assert buffer[..] == old(buffer[..])[d := e.(owner := swOwn)];
    }

    lemma WindowFits(s: State)
      requires CqModel.Valid(s)
      ensures s.prod <= s.cons + |s.ring|
      ensures NothingBeyond(s.ring, s.cons, s.prod)
    {
    }

    lemma NothingMoved(r: Ring, d: Ring, lo: nat)
      ensures CopyUp(r, d, lo, 0) == d
    {
    }

    /** An entry of the window belongs to software and shows its opcode in the queue. */
    lemma NotYetMarker(r: Ring, q: seq<Entry>, k: nat)
      requires Shape() && |r| == cqe + 1 && cons + |q| == prod <= cons + cqe + 1 && Plain(r, cons, prod)
      requires k < |q| ==> q[k] == Content(At(r, cons + k))
      ensures k < |q| ==> At(r, cons + k).owner == Owner(cons + k, |r|) && At(r, cons + k).opcode == q[k].opcode
    {
      hide Minis, Low32;
      assert k < |q| ==> Fresh(r, cons + k);
    }

    lemma BackAtStart(lo: nat, k: nat, n: nat)
      requires 0 < k <= n
      ensures Slot(lo + k, n) == Slot(lo, n) <==> k == n
    {
      if k < n { SlotsDistinct(lo, lo + k, n); } else { NextLap(lo, n); }
    }

    /** Switches to a ring of another size. With a marker in the old ring, the new ring read under
        its own size holds what came before the marker and what the device has put there. Without
        one the rings are switched all the same: the entries are one index up, but the consumer
        has not moved. */
    method Resize(buffer: array<Entry>, newLog: nat, ghost prod': nat)
      requires Valid() && buffer != ring && newLog <= 31 && buffer.Length == Pow2(newLog)
      requires FirstMarker(Queue()) < |Queue()| ==>
                 ReadyFrom(buffer[..], cons + 1, cons + FirstMarker(Queue()) + 1, prod')
      modifies this, ring, buffer
      ensures Shape() && ring == buffer
      ensures var q, m := old(Queue()), FirstMarker(old(Queue()));
              if m < |q| then
                && Valid() && cons == old(cons) + 1 && prod == prod'
                && Queue() == q[..m] + Pending(rs, old(buffer[..]), old(cons) + m + 1, prod')
              else
                && cons == old(cons) && Plain(old(ring)[..], cons, cons + |q|)
                && Entries(old(ring)[..], cons, cons + |q|) == q
                && CopiedAtLeast(old(ring)[..], old(buffer[..]), ring[..], cons, |q|, old(cqe) + 1)
    {
      hide Minis, Low32, Plain, FirstMarker, Holds, Pending, Expand, CopyUp, CqModel.Valid, CqModel.Queue, ReadyFrom,
        CopiedAtLeast;
      hide Entries;
      ghost var q, m := Queue(), FirstMarker(Queue());
      ghost var b0 := buffer[..];
      ghost var c0 := cons;
      var outcome := ResizeCopyCqes(buffer, newLog);
      ghost var s := Abs().(cons := c0);
      PlainPrefix(s.ring, c0, c0 + m, s.prod);
      if m < |q| {
        ResizeKeeps(s, b0, c0 + m, prod');
      } else {
        PlainQueue(s);
      }
      ring := buffer;
      cqe := buffer.Length - 1;
      logSize := newLog;
      if outcome == Copied {
        prod := prod';
      }
    }

    lemma PlainQueue(s: State)
      requires CqModel.Valid(s) && s.cur.left == 0 && Plain(s.ring, s.cons, s.prod)
      ensures s.cons + |CqModel.Queue(s)| == s.prod && Entries(s.ring, s.cons, s.prod) == CqModel.Queue(s)
    {
      hide Minis, Holds, Pending, Expand;
      QueueBefore(s, s.prod);
      assert CqModel.Queue(s)[..s.prod - s.cons] == CqModel.Queue(s);
    }

    lemma PlainPrefix(r: Ring, lo: nat, mid: nat, hi: nat)
      requires Plain(r, lo, hi) && mid <= hi
      ensures Plain(r, lo, mid)
    {
      forall i | lo <= i < mid ensures Fresh(r, i) && At(r, i).format != COMPRESSED { assert At(r, i) == At(r, i); }
    }
  }
}
