/** Payloads that run past the end of the send ring: inline data written round the end, and
    responses scattered through a list that wraps. */
module Payload {
  import opened Words
  import opened SendSize

  // ---------------------------------------------------------------- inline data

  /** The gather entries of a request, one after the other. */
  function Gathered(entries: seq<seq<uint8>>): seq<uint8> {
    if entries == [] then [] else Gathered(entries[..|entries| - 1]) + entries[|entries| - 1]
  }

  function Lengths(entries: seq<seq<uint8>>): (l: seq<nat>)
    ensures |l| == |entries| && forall i :: 0 <= i < |l| ==> l[i] == |entries[i]|
  {
    seq(|entries|, i requires 0 <= i < |entries| => |entries[i]|)
  }

  /** What a request accounts for is what is gathered. */
  lemma {:induction false} LengthGathered(entries: seq<seq<uint8>>)
    ensures |Gathered(entries)| == Sum(Lengths(entries))
  {
    if entries != [] {
      var n := |entries| - 1;
      LengthGathered(entries[..n]);
      assert Lengths(entries)[..n] == Lengths(entries[..n]);
    }
  }

  /** The n bytes from a position on, read round the end of the ring. */
  function ReadAround(ring: seq<uint8>, pos: nat, n: nat): (s: seq<uint8>)
    requires |ring| > 0
    ensures |s| == n
  {
    seq(n, k requires 0 <= k < n => ring[Place(pos, k, |ring|)])
  }

  /** Nothing but the n bytes from a position on has changed. */
  ghost predicate OnlyChanged(ring: seq<uint8>, ring': seq<uint8>, pos: nat, n: nat) {
    && |ring| == |ring'| > 0
    && forall k :: n <= k < |ring| ==> ring'[Place(pos, k, |ring|)] == ring[Place(pos, k, |ring|)]
  }

  datatype InlineResult = InlineOk(units: nat) | InlineOverflow

  /** The inline bit of the header word. */
  const INLINE_SEG: nat := 0x8000_0000

  /** A 32-bit word in network byte order. */
  function BigEndian(v: nat): (b: seq<uint8>)
    ensures |b| == 4
  {
    [v / 0x100_0000 % 0x100, v / 0x1_0000 % 0x100, v / 0x100 % 0x100, v % 0x100]
  }

  lemma SlotStep(a: nat, b: nat, d: nat, n: nat)
    requires n > 0 && Slot(a, n) == Slot(b, n)
    ensures Place(a, d, n) == Place(b, d, n)
    decreases a + b
  {
    if a >= n {
      SlotStep(a - n, b, d, n);
      NextLap(a - n + d, n);
    } else if b >= n {
      SlotStep(a, b - n, d, n);
      NextLap(b - n + d, n);
    }
  }

  /** Bytes stored without a wrap. */
  lemma StoredStraight(r: seq<uint8>, pos: nat, bytes: seq<uint8>)
    requires pos + |bytes| <= |r| && |r| > 0
    ensures var r' := r[..pos] + bytes + r[pos + |bytes|..];
            && ReadAround(r', pos, |bytes|) == bytes && OnlyChanged(r, r', pos, |bytes|)
            && (pos + |bytes| == |r| ==> Slot(|r|, |r|) == Place(pos, |bytes|, |r|))
  {
    var r', n := r[..pos] + bytes + r[pos + |bytes|..], |r|;
    hide Slot, Place;
    forall k | |bytes| <= k < n
      ensures r'[Place(pos, k, n)] == r[Place(pos, k, n)]
    {
      PlaceAround(pos, k, n);
    }
    forall k | 0 <= k < |bytes|
      ensures ReadAround(r', pos, |bytes|)[k] == bytes[k]
    {
      PlaceAround(pos, k, n);
    }
    PlaceIsSlot(pos, |bytes|, n);
  }

  lemma PlaceIsSlot(pos: nat, k: nat, n: nat)
    requires n > 0
    ensures Place(pos, k, n) == Slot(pos + k, n)
  {
  }

  /** Bytes stored up to the end and on from the start. */
  lemma StoredAround(r: seq<uint8>, r': seq<uint8>, pos: nat, bytes: seq<uint8>)
    requires pos <= |r| < pos + |bytes| && |bytes| <= |r| == |r'|
    requires var copy := |r| - pos;
             var m := |bytes| - copy;
             r'[..m] == bytes[copy..] && r'[m..pos] == r[m..pos] && r'[pos..] == bytes[..copy]
    ensures ReadAround(r', pos, |bytes|) == bytes && OnlyChanged(r, r', pos, |bytes|)
    ensures Slot(|bytes| - (|r| - pos), |r|) == Place(pos, |bytes|, |r|)
  {
    var n := |r|;
    forall k | 0 <= k < n
      ensures r'[Place(pos, k, n)] == if k < |bytes| then bytes[k] else r[Place(pos, k, n)]
    {
      AroundAt(r, r', pos, bytes, k);
    }
    hide Slot, Place;
    SlotAfterWrap(pos, |bytes|, n);
  }

  lemma AroundAt(r: seq<uint8>, r': seq<uint8>, pos: nat, bytes: seq<uint8>, k: nat)
    requires pos <= |r| < pos + |bytes| && |bytes| <= |r| == |r'| && k < |r|
    requires var copy := |r| - pos;
             var m := |bytes| - copy;
             r'[..m] == bytes[copy..] && r'[m..pos] == r[m..pos] && r'[pos..] == bytes[..copy]
    ensures r'[Place(pos, k, |r|)] == if k < |bytes| then bytes[k] else r[Place(pos, k, |r|)]
  {
    hide Slot, Place;
    PlaceAround(pos, k, |r|);
    var copy := |r| - pos;
    var m := |bytes| - copy;
    if k < copy {
      assert r'[pos..][k] == bytes[..copy][k];
    } else if k < |bytes| {
      assert r'[..m][k - copy] == bytes[copy..][k - copy];
    } else {
      assert r'[m..pos][k - copy - m] == r[m..pos][k - copy - m];
    }
  }

  lemma SlotAfterWrap(pos: nat, k: nat, n: nat)
    requires n > 0 && pos + k >= n
    ensures Slot(pos + k - n, n) == Place(pos, k, n)
  {
    NextLap(pos + k - n, n);
  }

  lemma PlaceAround(pos: nat, k: nat, n: nat)
    requires pos <= n && k < n
    ensures Place(pos, k, n) == if pos + k < n then pos + k else pos + k - n
  {
    if pos + k >= n { NextLap(pos + k - n, n); }
  }

  class SendBuffer {
    const ring: array<uint8>

    constructor (ring: array<uint8>)
      ensures this.ring == ring
    {
      this.ring := ring;
    }

    /** Copies one gather entry to a position, going on at the start of the ring where it does
        not fit; the position returned may be the end itself. */
    method CopyEntry(entry: seq<uint8>, wqe: nat) returns (wqe': nat)
      requires wqe <= ring.Length && |entry| <= ring.Length && ring.Length > 0
      modifies ring
      ensures wqe' <= ring.Length && Slot(wqe', ring.Length) == Place(wqe, |entry|, ring.Length)
      ensures ReadAround(ring[..], wqe, |entry|) == entry
      ensures OnlyChanged(old(ring[..]), ring[..], wqe, |entry|)
    {
      hide ReadAround, OnlyChanged;
      ghost var r := ring[..];
      var qend := ring.Length;
      if wqe + |entry| > qend {
        var copy := qend - wqe;
        CopyBytes(entry[..copy], wqe);
        CopyBytes(entry[copy..], 0);
        wqe' := |entry| - copy;
        assert ring[..] == entry[copy..] + r[|entry| - copy..wqe] + entry[..copy];
        StoredAround(r, ring[..], wqe, entry);
      } else {
        StoredStraight(r, wqe, entry);
        CopyBytes(entry, wqe);
        wqe' := wqe + |entry|;
      }
    }

    method CopyBytes(bytes: seq<uint8>, to: nat)
      requires to + |bytes| <= ring.Length
      modifies ring
      ensures ring[..] == old(ring[..to]) + bytes + old(ring[to + |bytes|..])
    {
      var k := 0;
      while k < |bytes|
        invariant 0 <= k <= |bytes|
        invariant forall j :: 0 <= j < to ==> ring[j] == old(ring[j])
        invariant forall j :: to <= j < to + k ==> ring[j] == bytes[j - to]
        invariant forall j :: to + k <= j < ring.Length ==> ring[j] == old(ring[j])
      {
        ring[to + k] := bytes[k];
        k := k + 1;
      }
    }

    /** Writes the gather entries behind a header at position seg. Read back round the end of
        the ring, they are the concatenation of the entries behind a header with their total.
        When there are too many bytes, the entries within the limit have been written by then,
        and no header. */
    method SetDataInlSeg(entries: seq<seq<uint8>>, seg: nat, maxInline: uint32) returns (r: InlineResult)
      requires seg + INL_HEADER <= ring.Length && (entries != [] ==> maxInline + INL_HEADER <= ring.Length)
      modifies ring
      ensures r == InlineOverflow <==> |Gathered(entries)| > maxInline
      ensures var copied := InlineCopied(Lengths(entries), maxInline);
              r == InlineOverflow ==>
                && copied < |Gathered(entries)|
                && ReadAround(ring[..], seg + INL_HEADER, copied) == Gathered(entries)[..copied]
                && OnlyChanged(old(ring[..]), ring[..], seg + INL_HEADER, copied)
      ensures r.InlineOk? ==>
                var total := |Gathered(entries)|;
                && r.units == InlineUnits(total)
                && (total == 0 ==> ring[..] == old(ring[..]))
                && (total > 0 ==>
                      && ReadAround(ring[..], seg, INL_HEADER + total) ==
                         BigEndian(total + INLINE_SEG) + Gathered(entries)
                      && OnlyChanged(old(ring[..]), ring[..], seg, INL_HEADER + total))
    {
      hide ReadAround, OnlyChanged, Gathered, Slot, BigEndian, Align;
      var pos := seg + INL_HEADER;
      var wqe: nat, inl: nat, i := pos, 0, 0;
      NothingGathered(ring[..], pos, entries);
      while i < |entries|
        invariant 0 <= i <= |entries| && inl == |Gathered(entries[..i])| <= maxInline
        invariant wqe <= ring.Length && Slot(wqe, ring.Length) == Place(pos, inl, ring.Length)
        invariant ReadAround(ring[..], pos, inl) == Gathered(entries[..i])
        invariant OnlyChanged(old(ring[..]), ring[..], pos, inl)
        invariant inl == 0 ==> ring[..] == old(ring[..])
      {
        GatherOne(entries, i);
        GatheredPrefix(entries, i + 1);
        var entry := entries[i];
        inl := inl + |entry|;
        if inl > maxInline {
          CopiedAt(entries, maxInline, i);
          return InlineOverflow;
        }
        ghost var before, start := ring[..], wqe;
        wqe := CopyEntry(entry, wqe);
        AppendEntry(old(ring[..]), before, ring[..], pos, inl - |entry|, start, entry);
        SlotStep(start, pos + (inl - |entry|), |entry|, ring.Length);
        if inl == 0 { SameRing(before, ring[..], start); }
        i := i + 1;
      }
      assert entries[..i] == entries;
      var units := 0;
      if inl > 0 {
        WriteHeader(seg, inl, Gathered(entries), old(ring[..]));
        units := Align(inl + INL_HEADER, 16) / 16;
      }
      return InlineOk(units);
    }

    /** The loop stops with the entries before the one at hand copied. */
    lemma CopiedAt(entries: seq<seq<uint8>>, max: nat, i: nat)
      requires i < |entries| && |Gathered(entries[..i])| <= max < |Gathered(entries[..i + 1])|
      ensures InlineCopied(Lengths(entries), max) == |Gathered(entries[..i])| <= |Gathered(entries)|
      ensures Gathered(entries)[..|Gathered(entries[..i])|] == Gathered(entries[..i])
    {
      hide Gathered, Sum, InlineCopied;
      LengthGathered(entries[..i]);
      LengthGathered(entries[..i + 1]);
      assert Lengths(entries)[..i] == Lengths(entries[..i]) && Lengths(entries)[..i + 1] == Lengths(entries[..i + 1]);
      CopiedBefore(Lengths(entries), max, i);
      GatheredPrefix(entries, i);
    }

    lemma {:induction false} GatheredPrefix(entries: seq<seq<uint8>>, i: nat)
      requires i <= |entries|
      ensures Gathered(entries[..i]) <= Gathered(entries)
      decreases |entries| - i
    {
      if i < |entries| {
        GatheredPrefix(entries, i + 1);
        GatherOne(entries, i);
      } else {
        assert entries[..i] == entries;
      }
    }

    lemma SameRing(r: seq<uint8>, r': seq<uint8>, pos: nat)
      requires OnlyChanged(r, r', pos, 0)
      ensures r' == r
    {
      forall s | 0 <= s < |r|
        ensures r'[s] == r[s]
      {
        var k := if s >= Slot(pos, |r|) then s - Slot(pos, |r|) else s + |r| - Slot(pos, |r|);
        OwnerAhead(pos, k, |r|);
        assert Place(pos, k, |r|) == s;
      }
    }

    lemma NothingGathered(r: seq<uint8>, pos: nat, entries: seq<seq<uint8>>)
      requires |r| > 0
      ensures Gathered(entries[..0]) == [] && ReadAround(r, pos, 0) == [] && OnlyChanged(r, r, pos, 0)
    {
    }

    method WriteHeader(seg: nat, inl: nat, ghost data: seq<uint8>, ghost r0: seq<uint8>)
      requires seg + INL_HEADER <= ring.Length == |r0| && inl + INL_HEADER <= ring.Length && inl == |data|
      requires ReadAround(ring[..], seg + INL_HEADER, inl) == data && OnlyChanged(r0, ring[..], seg + INL_HEADER, inl)
      modifies ring
      ensures ReadAround(ring[..], seg, INL_HEADER + inl) == BigEndian(inl + INLINE_SEG) + data
      ensures OnlyChanged(r0, ring[..], seg, INL_HEADER + inl)
    {
      hide BigEndian;
      ghost var r, n, pos := ring[..], ring.Length, seg + INL_HEADER;
      var header := BigEndian(inl + INLINE_SEG);
      CopyBytes(header, seg);
      ghost var r' := ring[..];
      forall k | 0 <= k < n
        ensures Place(seg, k, n) == if seg + k < n then seg + k else seg + k - n
      {
        OwnerAhead(seg, k, n);
      }
      forall k | INL_HEADER <= k < n
        ensures Place(seg, k, n) == Place(pos, k - INL_HEADER, n) && r'[Place(seg, k, n)] == r[Place(seg, k, n)]
      {
      }
      forall k | 0 <= k < INL_HEADER + inl
        ensures r'[Place(seg, k, n)] == (header + data)[k]
      {
        if k >= INL_HEADER {
          assert r[Place(pos, k - INL_HEADER, n)] == ReadAround(r, pos, inl)[k - INL_HEADER];
        }
      }
    }

    /** In a ring of two blocks an inline atomic in the first block, refused for its second entry,
        has by then written the last sixteen bytes of its first entry over the second block. */
    method RefusedOverwrites(first: seq<uint8>, last: uint8) returns (r: InlineResult)
      requires ring.Length == 2 * SEND_WQE_BB && |first| == 28
      modifies ring
      ensures r == InlineOverflow
      ensures ring[SEND_WQE_BB..SEND_WQE_BB + 16] == first[12..]
      ensures ring[SEND_WQE_BB + 16..] == old(ring[SEND_WQE_BB + 16..])
    {
      hide Gathered, InlineCopied, ReadAround;
      var seg := CTRL + RADDR + ATOMIC;
      TwoGathered(first, [last]);
      r := SetDataInlSeg([first, [last]], seg, 28);
      assert Gathered([first, [last]])[..28] == first;
      var pos := seg + INL_HEADER;
      forall j | pos <= j < 128
        ensures ring[..][j] == if j < pos + 28 then first[j - pos] else old(ring[..])[j]
      {
        PlaceAround(pos, j - pos, 128);
        if j < pos + 28 {
          ReadAt(ring[..], pos, 28, j - pos);
        }
      }
      assert ring[SEND_WQE_BB..SEND_WQE_BB + 16] == ring[..][SEND_WQE_BB..SEND_WQE_BB + 16] == first[12..];
      assert ring[SEND_WQE_BB + 16..] == ring[..][SEND_WQE_BB + 16..];
    }

    lemma ReadAt(r: seq<uint8>, pos: nat, n: nat, k: nat)
      requires |r| > 0 && k < n
      ensures ReadAround(r, pos, n)[k] == r[Place(pos, k, |r|)]
    {
    }

    lemma TwoGathered(a: seq<uint8>, b: seq<uint8>)
      ensures Gathered([a, b]) == a + b
      ensures forall max :: |a| <= max < |a| + |b| ==> InlineCopied(Lengths([a, b]), max) == |a|
    {
      assert [a, b][..1] == [a] && [a][..0] == [] && [a, b][..2] == [a, b];
      assert Gathered([a]) == a;
      forall max | |a| <= max < |a| + |b|
        ensures InlineCopied(Lengths([a, b]), max) == |a|
      {
        CopiedAt([a, b], max, 1);
      }
    }

    lemma GatherOne(entries: seq<seq<uint8>>, i: nat)
      requires i < |entries|
      ensures Gathered(entries[..i + 1]) == Gathered(entries[..i]) + entries[i]
    {
      assert entries[..i + 1][..i] == entries[..i];
    }

    lemma AppendEntry(r0: seq<uint8>, r1: seq<uint8>, r2: seq<uint8>, pos: nat, n: nat, wqe: nat, entry: seq<uint8>)
      requires OnlyChanged(r0, r1, pos, n) && OnlyChanged(r1, r2, wqe, |entry|) && n + |entry| <= |r0|
      requires Slot(wqe, |r0|) == Place(pos, n, |r0|) && ReadAround(r2, wqe, |entry|) == entry
      ensures ReadAround(r2, pos, n + |entry|) == ReadAround(r1, pos, n) + entry
      ensures OnlyChanged(r0, r2, pos, n + |entry|)
    {
      var len := |r0|;
      forall k | 0 <= k < n + |entry|
        ensures ReadAround(r2, pos, n + |entry|)[k] == (ReadAround(r1, pos, n) + entry)[k]
      {
        if k >= n {
          SlotStep(wqe, pos + n, k - n, len);
          assert r2[Place(wqe, k - n, len)] == ReadAround(r2, wqe, |entry|)[k - n];
        } else {
          Outside(r1, r2, pos, n, wqe, entry, k);
        }
      }
      forall k | n + |entry| <= k < len
        ensures r2[Place(pos, k, len)] == r0[Place(pos, k, len)]
      {
        Outside(r1, r2, pos, n, wqe, entry, k);
      }
    }

    lemma Outside(r1: seq<uint8>, r2: seq<uint8>, pos: nat, n: nat, wqe: nat, entry: seq<uint8>, k: nat)
      requires OnlyChanged(r1, r2, wqe, |entry|) && n + |entry| <= |r1| && k < |r1|
      requires Slot(wqe, |r1|) == Place(pos, n, |r1|) && (k < n || k >= n + |entry|)
      ensures r2[Place(pos, k, |r1|)] == r1[Place(pos, k, |r1|)]
    {
      var len := |r1|;
      var d := if k >= n then k - n else k + len - n;
      SlotStep(wqe, pos + n, d, len);
      if k < n { NextLap(pos + k, len); }
      assert Place(wqe, d, len) == Place(pos, k, len);
    }
  }

  // ---------------------------------------------------------------- scattered responses

  datatype DataSeg = DataSeg(byteCount: nat, address: nat)

  /** One stretch of memory that is written. */
  datatype Write = Write(address: nat, bytes: seq<uint8>)

  function Reversed(s: seq<uint8>): seq<uint8> {
    if s == [] then [] else Reversed(s[1..]) + [s[0]]
  }

  /** The bytes of one scatter entry; results of 2, 4 and 8 bytes may change byte order. */
  function Converted(toHost: bool, bytes: seq<uint8>): seq<uint8> {
    if toHost && |bytes| in {2, 4, 8} then Reversed(bytes) else bytes
  }

  /** The writes that scatter a buffer through a list, and the bytes for which it was too short. */
  function Scatter(list: seq<DataSeg>, buf: seq<uint8>, toHost: bool): (seq<Write>, seq<uint8>)
  {
    if buf == [] || list == [] then ([], buf)
    else
      var copy := Min(|buf|, list[0].byteCount);
      var (ws, left) := Scatter(list[1..], buf[copy..], toHost);
      ([Write(list[0].address, Converted(toHost, buf[..copy]))] + ws, left)
  }

  /** Scattering through two lists in turn is scattering through both in one. */
  lemma {:induction false} ScatterConcat(a: seq<DataSeg>, b: seq<DataSeg>, buf: seq<uint8>, toHost: bool)
    ensures var (w1, l1) := Scatter(a, buf, toHost);
            var (w2, l2) := Scatter(b, l1, toHost);
            Scatter(a + b, buf, toHost) == (w1 + w2, l2)
    decreases |a|
  {
    if a == [] || buf == [] {
      assert a == [] ==> a + b == b;
      var w2 := Scatter(b, buf, toHost).0;
      var none: seq<Write> := [];
      assert none + w2 == w2;
    } else {
      assert (a + b)[1..] == a[1..] + b;
      var copy := Min(|buf|, a[0].byteCount);
      ScatterConcat(a[1..], b, buf[copy..], toHost);
      var (w1, l1) := Scatter(a[1..], buf[copy..], toHost);
      var w2 := Scatter(b, l1, toHost).0;
      var w := [Write(a[0].address, Converted(toHost, buf[..copy]))];
      assert w + (w1 + w2) == (w + w1) + w2;
    }
  }

  /** What the copying loop writes from position pos on, and how many bytes it leaves. The
      pointer that is copied from is set before the loop and moves only for entries that are
      converted, so without conversion every entry receives the start of the buffer. */
  function Copied(list: seq<DataSeg>, buf: seq<uint8>, pos: nat, toHost: bool): (r: (seq<Write>, nat))
    requires pos <= |buf|
    ensures r.1 == |buf| - pos - Taken(list, |buf| - pos)
    decreases |list|
  {
    if pos == |buf| || list == [] then ([], |buf| - pos)
    else
      var copy := Min(|buf| - pos, list[0].byteCount);
      var from := if toHost then pos else 0;
      var rest := Copied(list[1..], buf, pos + copy, toHost);
      ([Write(list[0].address, Converted(toHost, buf[from..from + copy]))] + rest.0, rest.1)
  }

  /** How many of n bytes a list takes. */
  function Taken(list: seq<DataSeg>, n: nat): (t: nat)
    ensures t <= n
    decreases |list|
  {
    if n == 0 || list == [] then 0
    else
      var copy := Min(n, list[0].byteCount);
      copy + Taken(list[1..], n - copy)
  }

  // ---------------------------------------------------------------- what is written, by value

  /** The number that bytes stand for, most significant byte first. */
  function BigValue(b: seq<uint8>): nat {
    if b == [] then 0 else BigValue(b[..|b| - 1]) * 0x100 + b[|b| - 1]
  }

  /** The number that bytes stand for, least significant byte first. */
  function LittleValue(b: seq<uint8>): nat {
    if b == [] then 0 else b[0] + 0x100 * LittleValue(b[1..])
  }

  /** Entry seg receives what is left of the buffer from position o on, as far as it can take it.
      With conversion a result of 2, 4 or 8 bytes arrives as the same number in the order of the
      host, and any other number of bytes as they are; without, the start of the buffer arrives. */
  ghost predicate Receives(seg: DataSeg, buf: seq<uint8>, o: nat, toHost: bool, w: Write) {
    var n := Min(|buf| - o, seg.byteCount);
    && o <= |buf| && w.address == seg.address && |w.bytes| == n
    && (toHost && (n == 2 || n == 4 || n == 8) ==> LittleValue(w.bytes) == BigValue(buf[o..o + n]))
    && (toHost && n != 2 && n != 4 && n != 8 ==> w.bytes == buf[o..o + n])
    && (!toHost ==> w.bytes == buf[..n])
  }

  /** The entries of a list receive their share in turn, until nothing is left from position pos. */
  ghost predicate AllReceive(list: seq<DataSeg>, buf: seq<uint8>, pos: nat, toHost: bool, ws: seq<Write>)
    requires pos <= |buf|
    decreases |list|
  {
    if pos == |buf| || list == [] then ws == []
    else
      && ws != [] && Receives(list[0], buf, pos, toHost, ws[0])
      && AllReceive(list[1..], buf, pos + Min(|buf| - pos, list[0].byteCount), toHost, ws[1..])
  }

  lemma {:induction false} ReversedLast(b: seq<uint8>)
    requires b != []
    ensures Reversed(b) == [b[|b| - 1]] + Reversed(b[..|b| - 1])
  {
    if |b| > 1 {
      ReversedLast(b[1..]);
      assert b[1..][..|b| - 2] == b[..|b| - 1][1..];
    }
  }

  lemma {:induction false} ReversedValue(b: seq<uint8>)
    ensures |Reversed(b)| == |b| && LittleValue(Reversed(b)) == BigValue(b)
    decreases |b|
  {
    if b != [] {
      ReversedLast(b);
      ReversedValue(b[..|b| - 1]);
      assert Reversed(b)[1..] == Reversed(b[..|b| - 1]);
    }
  }

  lemma OneReceives(seg: DataSeg, buf: seq<uint8>, o: nat, toHost: bool)
    requires o <= |buf|
    ensures var n := Min(|buf| - o, seg.byteCount);
            var from := if toHost then o else 0;
            Receives(seg, buf, o, toHost, Write(seg.address, Converted(toHost, buf[from..from + n])))
  {
    hide LittleValue, BigValue, Reversed;
    ReversedValue(buf[o..o + Min(|buf| - o, seg.byteCount)]);
  }

  lemma {:induction false} CopiedByValue(list: seq<DataSeg>, buf: seq<uint8>, pos: nat, toHost: bool)
    requires pos <= |buf|
    ensures AllReceive(list, buf, pos, toHost, Copied(list, buf, pos, toHost).0)
    decreases |list|
  {
    hide Converted, Receives;
    if pos < |buf| && list != [] {
      var copy := Min(|buf| - pos, list[0].byteCount);
      OneReceives(list[0], buf, pos, toHost);
      CopiedByValue(list[1..], buf, pos + copy, toHost);
      assert Copied(list, buf, pos, toHost).0[1..] == Copied(list[1..], buf, pos + copy, toHost).0;
    }
  }

  /** The word behind an inline header, read in network byte order. */
  lemma HeaderValue(v: nat)
    requires v < WORD
    ensures BigValue(BigEndian(v)) == v
  {
    hide BigValue;
    var b := BigEndian(v);
    LastByte(b, 4);
    LastByte(b, 3);
    LastByte(b, 2);
    LastByte(b, 1);
    assert b[..4] == b && BigValue(b[..0]) == 0 by { NoBytes(b); }
    Digits(v);
  }

  lemma NoBytes(b: seq<uint8>)
    ensures BigValue(b[..0]) == 0
  {
  }

  lemma LastByte(b: seq<uint8>, n: nat)
    requires 0 < n <= |b|
    ensures BigValue(b[..n]) == BigValue(b[..n - 1]) * 0x100 + b[n - 1]
  {
    assert b[..n][..n - 1] == b[..n - 1];
  }

  lemma Digits(v: nat)
    requires v < WORD
    ensures ((v / 0x100_0000 % 0x100 * 0x100 + v / 0x1_0000 % 0x100) * 0x100 + v / 0x100 % 0x100) * 0x100 + v % 0x100
            == v
  {
    assert v / 0x1_0000 == v / 0x100 / 0x100 && v / 0x100_0000 == v / 0x1_0000 / 0x100;
  }

  datatype WcStatus = WcSuccess | LocLenErr | RemInvReqErr

  /** Copies a buffer through the first max entries of a list. */
  method CopyToScat(segs: seq<DataSeg>, buf: seq<uint8>, max: nat, toHost: bool)
    returns (status: WcStatus, writes: seq<Write>, size: nat)
    requires max <= |segs|
    ensures (writes, size) == Copied(segs[..max], buf, 0, toHost)
    ensures AllReceive(segs[..max], buf, 0, toHost, writes)
    ensures status == if size == 0 then WcSuccess else LocLenErr
  {
    hide Converted, Copied, Taken, AllReceive;
    writes := [];
    size := |buf|;
    ghost var list := segs[..max];
    CopiedByValue(list, buf, 0, toHost);
    ghost var goal := Copied(list, buf, 0, toHost);
    if size == 0 {
      CopiedNothing(list, buf, 0, toHost);
      return WcSuccess, [], 0;
    }
    var i, pos := 0, 0;
    while i < max
      invariant 0 <= i <= max && pos + size == |buf| && 0 < size && 0 <= pos
      invariant |list| == max - i && forall k :: 0 <= k < |list| ==> list[k] == segs[i + k]
      invariant goal.0 == writes + Copied(list, buf, pos, toHost).0
      invariant goal.1 == Copied(list, buf, pos, toHost).1
    {
      var copy := Min(size, segs[i].byteCount);
      var from := if toHost then pos else 0;
      CopiedStep(writes, list, buf, pos, toHost);
      writes := writes + [Write(segs[i].address, Converted(toHost, buf[from..from + copy]))];
      list := list[1..];
      size := size - copy;
      pos := pos + copy;
      i := i + 1;
      if size == 0 {
        CopiedEnds(writes, list, buf, pos, toHost);
        return WcSuccess, writes, 0;
      }
    }
    CopiedEnds(writes, list, buf, pos, toHost);
    return LocLenErr, writes, size;
  }

  lemma CopiedStep(writes: seq<Write>, list: seq<DataSeg>, buf: seq<uint8>, pos: nat, toHost: bool)
    requires list != [] && pos < |buf|
    ensures var copy := Min(|buf| - pos, list[0].byteCount);
            var from := if toHost then pos else 0;
            var w := Write(list[0].address, Converted(toHost, buf[from..from + copy]));
            var rest := Copied(list[1..], buf, pos + copy, toHost);
            && writes + Copied(list, buf, pos, toHost).0 == writes + [w] + rest.0
            && Copied(list, buf, pos, toHost).1 == rest.1
  {
    hide Converted;
  }

  lemma CopiedEnds(writes: seq<Write>, list: seq<DataSeg>, buf: seq<uint8>, pos: nat, toHost: bool)
    requires pos <= |buf| && (list == [] || pos == |buf|)
    ensures writes + Copied(list, buf, pos, toHost).0 == writes && Copied(list, buf, pos, toHost).1 == |buf| - pos
  {
  }

  // ---------------------------------------------------------------- when the loop does what it is for

  ghost predicate AllEmpty(list: seq<DataSeg>) {
    forall k :: 0 <= k < |list| ==> list[k].byteCount == 0
  }

  /** At most one entry receives any of n bytes: they all fit the first entry that is not empty,
      or all entries after it are empty. */
  ghost predicate OneReceiver(list: seq<DataSeg>, n: nat) {
    n == 0 || list == []
    || (if list[0].byteCount == 0 then OneReceiver(list[1..], n)
        else n <= list[0].byteCount || AllEmpty(list[1..]))
  }

  /** With conversion the loop scatters as it should. */
  lemma {:induction false} ConvertedMeetsIntent(list: seq<DataSeg>, buf: seq<uint8>, pos: nat)
    requires pos <= |buf|
    ensures Copied(list, buf, pos, true).0 == Scatter(list, buf[pos..], true).0
    decreases |list|
  {
    hide Converted;
    if pos < |buf| && list != [] {
      var copy := Min(|buf| - pos, list[0].byteCount);
      ConvertedMeetsIntent(list[1..], buf, pos + copy);
      assert buf[pos..][..copy] == buf[pos..pos + copy] && buf[pos..][copy..] == buf[pos + copy..];
    }
  }

  /** Through empty entries nothing is copied, wherever it would be read from. */
  lemma {:induction false} EmptyMeetsIntent(list: seq<DataSeg>, buf: seq<uint8>, pos: nat, toHost: bool)
    requires pos <= |buf| && AllEmpty(list)
    ensures Copied(list, buf, pos, toHost).0 == Scatter(list, buf[pos..], toHost).0
    decreases |list|
  {
    hide Converted;
    if pos < |buf| && list != [] {
      EmptyMeetsIntent(list[1..], buf, pos, toHost);
      var from := if toHost then pos else 0;
      assert buf[from..from + 0] == [] == buf[pos..][..0] && buf[pos..][0..] == buf[pos..];
    }
  }

  lemma {:induction false} OneReceiverMeetsIntent(list: seq<DataSeg>, buf: seq<uint8>)
    requires OneReceiver(list, |buf|)
    ensures Copied(list, buf, 0, false).0 == Scatter(list, buf, false).0
    decreases |list|
  {
    hide Converted;
    if buf != [] && list != [] {
      var copy := Min(|buf|, list[0].byteCount);
      if copy == 0 {
        OneReceiverMeetsIntent(list[1..], buf);
        assert buf[0..] == buf;
      } else if copy < |buf| {
        EmptyMeetsIntent(list[1..], buf, copy, false);
      }
    }
  }

  /** A buffer whose first byte is like none after it. */
  function Marked(n: nat): (buf: seq<uint8>)
    ensures |buf| == n
  {
    seq(n, i => if i == 0 then 1 else 0)
  }

  /** Past the first receiver, an entry that is not empty receives the wrong bytes. */
  lemma {:induction false} LaterEntryDiffers(list: seq<DataSeg>, n: nat, pos: nat)
    requires 0 < pos < n && !AllEmpty(list)
    ensures Copied(list, Marked(n), pos, false).0 != Scatter(list, Marked(n)[pos..], false).0
    decreases |list|
  {
    var buf := Marked(n);
    if list[0].byteCount == 0 {
      LaterEntryDiffers(list[1..], n, pos);
      assert buf[pos..][0..] == buf[pos..];
      assert Copied(list, buf, pos, false).0[1..] == Copied(list[1..], buf, pos, false).0;
      assert Scatter(list, buf[pos..], false).0[1..] == Scatter(list[1..], buf[pos..], false).0;
    } else {
      assert Copied(list, buf, pos, false).0[0].bytes[0] == 1;
      assert Scatter(list, buf[pos..], false).0[0].bytes[0] == 0;
    }
  }

  lemma {:induction false} TwoReceiversDiffer(list: seq<DataSeg>, n: nat)
    requires !OneReceiver(list, n)
    ensures Copied(list, Marked(n), 0, false).0 != Scatter(list, Marked(n), false).0
    decreases |list|
  {
    var buf := Marked(n);
    var copy := Min(n, list[0].byteCount);
    if copy == 0 {
      TwoReceiversDiffer(list[1..], n);
      assert buf[0..] == buf;
    } else {
      LaterEntryDiffers(list[1..], n, copy);
    }
    assert Copied(list, buf, 0, false).0[1..] == Copied(list[1..], buf, copy, false).0;
    assert Scatter(list, buf, false).0[1..] == Scatter(list[1..], buf[copy..], false).0;
  }

  /** One run of the loop scatters every buffer of n bytes as it should if and only if the bytes
      are converted or at most one entry receives any. */
  lemma CopyMeetsIntentExactly(list: seq<DataSeg>, n: nat, toHost: bool)
    ensures (forall buf: seq<uint8> :: |buf| == n ==>
               Copied(list, buf, 0, toHost).0 == Scatter(list, buf, toHost).0)
            <==> toHost || OneReceiver(list, n)
  {
    hide Copied, Scatter;
    if toHost || OneReceiver(list, n) {
      forall buf: seq<uint8> | |buf| == n
        ensures Copied(list, buf, 0, toHost).0 == Scatter(list, buf, toHost).0
      {
        if toHost {
          ConvertedMeetsIntent(list, buf, 0);
          assert buf[0..] == buf;
        } else {
          OneReceiverMeetsIntent(list, buf);
        }
      }
    } else {
      TwoReceiversDiffer(list, n);
    }
  }

  // ---------------------------------------------------------------- the wrap at the end of the ring

  /** What is written when the list is cut in two by the end of the ring: the second run of the
      loop starts with the bytes that the first has left. */
  function Wrapped(a: seq<DataSeg>, b: seq<DataSeg>, buf: seq<uint8>, toHost: bool): (seq<Write>, nat) {
    var first := Copied(a, buf, 0, toHost);
    if first.1 == 0 then first
    else
      var second := Copied(b, buf[|buf| - first.1..], 0, toHost);
      (first.0 + second.0, second.1)
  }

  /** Each part of the list receives its share, the second of what the first has left. */
  lemma WrappedByValue(a: seq<DataSeg>, b: seq<DataSeg>, buf: seq<uint8>, toHost: bool)
    returns (first: seq<Write>, second: seq<Write>)
    ensures Wrapped(a, b, buf, toHost).0 == first + second
    ensures AllReceive(a, buf, 0, toHost, first) && AllReceive(b, buf[Taken(a, |buf|)..], 0, toHost, second)
  {
    hide Copied, AllReceive, Taken;
    var run := Copied(a, buf, 0, toHost);
    var rest := buf[Taken(a, |buf|)..];
    CopiedByValue(a, buf, 0, toHost);
    CopiedByValue(b, rest, 0, toHost);
    first, second := run.0, Copied(b, rest, 0, toHost).0;
    if run.1 == 0 {
      CopiedNothing(b, rest, 0, toHost);
      assert run.0 + [] == run.0;
    }
  }

  /** One run over both parts is a run over the first and, from where it stopped, one over the
      second. */
  lemma {:induction false} CopiedConcat(a: seq<DataSeg>, b: seq<DataSeg>, buf: seq<uint8>, pos: nat, toHost: bool)
    requires pos <= |buf|
    ensures var first := Copied(a, buf, pos, toHost);
            var second := Copied(b, buf, |buf| - first.1, toHost);
            Copied(a + b, buf, pos, toHost) == (first.0 + second.0, second.1)
    decreases |a|
  {
    hide Converted, Copied, Taken;
    if a == [] || pos == |buf| {
      assert a == [] ==> a + b == b;
      CopiedNothing(a, buf, pos, toHost);
      if pos == |buf| { CopiedNothing(a + b, buf, pos, toHost); }
      CopiedNothing(b, buf, |buf|, toHost);
      var w := Copied(b, buf, pos, toHost).0;
      assert NOTHING + w == w;
    } else {
      assert (a + b)[1..] == a[1..] + b && (a + b)[0] == a[0];
      CopiedConcat(a[1..], b, buf, pos + Min(|buf| - pos, a[0].byteCount), toHost);
      CopiedFirst(a, buf, pos, toHost);
      CopiedFirst(a + b, buf, pos, toHost);
      var x := Copied(a[1..], buf, pos + Min(|buf| - pos, a[0].byteCount), toHost);
      Regroup(Copied(a, buf, pos, toHost).0[0], x.0, Copied(b, buf, |buf| - x.1, toHost).0);
    }
  }

  const NOTHING: seq<Write> := []

  lemma Regroup(w: Write, x: seq<Write>, y: seq<Write>)
    ensures [w] + (x + y) == ([w] + x) + y
  {
  }

  lemma CopiedNothing(list: seq<DataSeg>, buf: seq<uint8>, pos: nat, toHost: bool)
    requires pos <= |buf| && (list == [] || pos == |buf|)
    ensures Copied(list, buf, pos, toHost) == (NOTHING, |buf| - pos)
  {
  }

  lemma CopiedFirst(list: seq<DataSeg>, buf: seq<uint8>, pos: nat, toHost: bool)
    requires list != [] && pos < |buf|
    ensures var copy := Min(|buf| - pos, list[0].byteCount);
            var from := if toHost then pos else 0;
            var w := Write(list[0].address, Converted(toHost, buf[from..from + copy]));
            var rest := Copied(list[1..], buf, pos + copy, toHost);
            Copied(list, buf, pos, toHost) == ([w] + rest.0, rest.1)
  {
    hide Converted;
  }

  /** Reading from the start of what is left, instead of the start of the buffer, shows in the
      first entry that is not empty. */
  lemma {:induction false} ShiftShows(list: seq<DataSeg>, n: nat, pos: nat)
    requires 0 < pos < n && !AllEmpty(list)
    ensures Copied(list, Marked(n), pos, false).0 != Copied(list, Marked(n)[pos..], 0, false).0
    decreases |list|
  {
    var buf := Marked(n);
    if list[0].byteCount == 0 {
      ShiftShows(list[1..], n, pos);
      assert Copied(list, buf, pos, false).0[1..] == Copied(list[1..], buf, pos, false).0;
      assert Copied(list, buf[pos..], 0, false).0[1..] == Copied(list[1..], buf[pos..], 0, false).0;
    } else {
      assert Copied(list, buf, pos, false).0[0].bytes[0] == 1;
      assert Copied(list, buf[pos..], 0, false).0[0].bytes[0] == 0;
    }
  }

  /** When the shift does not show. */
  lemma ShiftHidden(list: seq<DataSeg>, buf: seq<uint8>, pos: nat, toHost: bool)
    requires pos <= |buf| && (toHost || pos == 0 || pos == |buf| || AllEmpty(list))
    ensures Copied(list, buf, pos, toHost).0 == Copied(list, buf[pos..], 0, toHost).0
  {
    hide Copied, Scatter;
    assert buf[pos..][0..] == buf[pos..];
    if toHost {
      ConvertedMeetsIntent(list, buf, pos);
      ConvertedMeetsIntent(list, buf[pos..], 0);
    } else if pos == 0 {
      assert buf[0..] == buf;
    } else if AllEmpty(list) {
      EmptyMeetsIntent(list, buf, pos, false);
      EmptyMeetsIntent(list, buf[pos..], 0, false);
    } else {
      CopiedEnds([], list, buf, pos, toHost);
      CopiedEnds([], list, buf[pos..], 0, toHost);
    }
  }

  /** The end of the ring does not show in what is written, whatever the n bytes are, if and only
      if they are converted, or the part of the list before the end takes none of them, or
      nothing is copied after it. */
  lemma WrapInvisibleExactly(a: seq<DataSeg>, b: seq<DataSeg>, n: nat, toHost: bool)
    ensures (forall buf: seq<uint8> :: |buf| == n ==> Wrapped(a, b, buf, toHost) == Copied(a + b, buf, 0, toHost))
            <==> toHost || Taken(a, n) == 0 || Taken(a, n) == n || AllEmpty(b)
  {
    hide Taken, AllEmpty;
    var c := Taken(a, n);
    forall buf: seq<uint8> | |buf| == n
      ensures Copied(b, buf, c, toHost).0 == Copied(b, buf[c..], 0, toHost).0 <==>
              Wrapped(a, b, buf, toHost) == Copied(a + b, buf, 0, toHost)
    {
      WrappedAsTwo(a, b, buf, toHost);
    }
    hide Copied, Wrapped;
    if toHost || c == 0 || c == n || AllEmpty(b) {
      forall buf: seq<uint8> | |buf| == n
        ensures Wrapped(a, b, buf, toHost) == Copied(a + b, buf, 0, toHost)
      {
        ShiftHidden(b, buf, c, toHost);
      }
    } else {
      ShiftShows(b, n, c);
      assert |Marked(n)| == n;
    }
  }

  lemma WrappedAsTwo(a: seq<DataSeg>, b: seq<DataSeg>, buf: seq<uint8>, toHost: bool)
    ensures var c := Taken(a, |buf|);
            && Wrapped(a, b, buf, toHost).0 == Copied(a, buf, 0, toHost).0 + Copied(b, buf[c..], 0, toHost).0
            && Wrapped(a, b, buf, toHost).1 == Copied(a + b, buf, 0, toHost).1
            && (Copied(b, buf, c, toHost).0 == Copied(b, buf[c..], 0, toHost).0 <==>
                Wrapped(a, b, buf, toHost) == Copied(a + b, buf, 0, toHost))
  {
    hide Copied, Taken;
    var c := Taken(a, |buf|);
    CopiedConcat(a, b, buf, 0, toHost);
    var first := Copied(a, buf, 0, toHost).0;
    if c == |buf| {
      CopiedNothing(b, buf[c..], 0, toHost);
      CopiedNothing(b, buf, c, toHost);
      assert first + NOTHING == first;
    } else {
      SameTaken(b, buf, c, toHost);
    }
    SamePrefix(first, Copied(b, buf, c, toHost).0, Copied(b, buf[c..], 0, toHost).0);
  }

  lemma SameTaken(list: seq<DataSeg>, buf: seq<uint8>, pos: nat, toHost: bool)
    requires pos <= |buf|
    ensures Copied(list, buf, pos, toHost).1 == Copied(list, buf[pos..], 0, toHost).1
  {
    hide Copied, Taken;
  }

  lemma SamePrefix(p: seq<Write>, x: seq<Write>, y: seq<Write>)
    ensures p + x == p + y <==> x == y
  {
    assert (p + x)[|p|..] == x && (p + y)[|p|..] == y;
  }

  /** A wrapped list scatters every n bytes as one list would if and only if they are converted,
      or each of the two parts has at most one receiver. */
  lemma WrappedMeetsIntentExactly(a: seq<DataSeg>, b: seq<DataSeg>, n: nat, toHost: bool)
    ensures (forall buf: seq<uint8> :: |buf| == n ==>
               Wrapped(a, b, buf, toHost).0 == Scatter(a + b, buf, toHost).0)
            <==> toHost || (OneReceiver(a, n) && OneReceiver(b, n - Taken(a, n)))
  {
    hide Copied, Scatter, OneReceiver, Taken, Wrapped;
    var c := Taken(a, n);
    forall buf: seq<uint8> | |buf| == n
      ensures Wrapped(a, b, buf, toHost).0 == Scatter(a + b, buf, toHost).0 <==>
              Copied(a, buf, 0, toHost).0 == Scatter(a, buf, toHost).0 &&
              Copied(b, buf[c..], 0, toHost).0 == Scatter(b, buf[c..], toHost).0
    {
      PartsMeetIntent(a, b, buf, toHost);
    }
    if toHost || (OneReceiver(a, n) && OneReceiver(b, n - c)) {
      CopyMeetsIntentExactly(a, n, toHost);
      CopyMeetsIntentExactly(b, n - c, toHost);
      forall buf: seq<uint8> | |buf| == n
        ensures Wrapped(a, b, buf, toHost).0 == Scatter(a + b, buf, toHost).0
      {
        assert |buf[c..]| == n - c;
      }
    } else if !OneReceiver(a, n) {
      TwoReceiversDiffer(a, n);
      assert |Marked(n)| == n;
    } else {
      TwoReceiversDiffer(b, n - c);
      var buf := seq(c, _ => 0) + Marked(n - c);
      assert |buf| == n && buf[c..] == Marked(n - c);
    }
  }

  lemma PartsMeetIntent(a: seq<DataSeg>, b: seq<DataSeg>, buf: seq<uint8>, toHost: bool)
    ensures var c := Taken(a, |buf|);
            Wrapped(a, b, buf, toHost).0 == Scatter(a + b, buf, toHost).0 <==>
            Copied(a, buf, 0, toHost).0 == Scatter(a, buf, toHost).0 &&
            Copied(b, buf[c..], 0, toHost).0 == Scatter(b, buf[c..], toHost).0
  {
    hide Copied, Scatter, Wrapped, Taken;
    var c := Taken(a, |buf|);
    WrappedAsTwo(a, b, buf, toHost);
    ScatterConcat(a, b, buf, toHost);
    ScatterTakes(a, buf, toHost);
    SameCount(a, buf, 0, toHost);
    var w, x := Copied(a, buf, 0, toHost).0, Scatter(a, buf, toHost).0;
    assert buf[0..] == buf;
    SameHalves(w, Copied(b, buf[c..], 0, toHost).0, x, Scatter(b, buf[c..], toHost).0);
  }

  lemma SameHalves(w: seq<Write>, y: seq<Write>, x: seq<Write>, z: seq<Write>)
    requires |w| == |x|
    ensures w + y == x + z <==> w == x && y == z
  {
    assert (w + y)[..|w|] == w && (x + z)[..|w|] == x && (w + y)[|w|..] == y && (x + z)[|w|..] == z;
  }

  lemma {:induction false} ScatterTakes(list: seq<DataSeg>, buf: seq<uint8>, toHost: bool)
    ensures Scatter(list, buf, toHost).1 == buf[Taken(list, |buf|)..]
    decreases |list|
  {
    hide Converted;
    if buf != [] && list != [] {
      var copy := Min(|buf|, list[0].byteCount);
      ScatterTakes(list[1..], buf[copy..], toHost);
    }
  }

  lemma {:induction false} SameCount(list: seq<DataSeg>, buf: seq<uint8>, pos: nat, toHost: bool)
    requires pos <= |buf|
    ensures |Copied(list, buf, pos, toHost).0| == |Scatter(list, buf[pos..], toHost).0|
    decreases |list|
  {
    hide Converted;
    if pos < |buf| && list != [] {
      var copy := Min(|buf| - pos, list[0].byteCount);
      SameCount(list[1..], buf, pos + copy, toHost);
      assert buf[pos..][copy..] == buf[pos + copy..];
    }
  }

  /** Two bytes through two entries of one byte: without conversion both entries receive the first
      byte, but with the end of the ring between them the second receives the second. */
  lemma SecondEntryGetsFirstByte()
    ensures var list := [DataSeg(1, 100), DataSeg(1, 200)];
            && Copied(list, [7, 9], 0, false) == ([Write(100, [7]), Write(200, [7])], 0)
            && Scatter(list, [7, 9], false) == ([Write(100, [7]), Write(200, [9])], [])
            && Wrapped(list[..1], list[1..], [7, 9], false) == ([Write(100, [7]), Write(200, [9])], 0)
  {
    var x, y := DataSeg(1, 100), DataSeg(1, 200);
    var buf: seq<uint8> := [7, 9];
    assert [x, y] == [x] + [y] && [x, y][..1] == [x] && [x, y][1..] == [y];
    assert buf[..1] == [7] && buf[1..] == [9] && buf[1..][..1] == [9] && buf[1..][1..] == [];
    OneByte(x, buf, 0);
    OneByte(y, buf, 1);
    OneByte(y, buf[1..], 0);
    hide Copied, Scatter, Taken;
    CopiedConcat([x], [y], buf, 0, false);
    ScatterConcat([x], [y], buf, false);
    assert [Write(100, [7])] + [Write(200, [7])] == [Write(100, [7]), Write(200, [7])];
    assert [Write(100, [7])] + [Write(200, [9])] == [Write(100, [7]), Write(200, [9])];
  }

  lemma OneByte(d: DataSeg, buf: seq<uint8>, pos: nat)
    requires d.byteCount == 1 && pos < |buf|
    ensures Copied([d], buf, pos, false) == ([Write(d.address, buf[..1])], |buf| - pos - 1)
    ensures Scatter([d], buf[pos..], false) == ([Write(d.address, buf[pos..][..1])], buf[pos..][1..])
    ensures buf[0..] == buf
  {
    var none: seq<DataSeg> := [];
    assert [d][1..] == none && buf[0..1] == buf[..1];
    CopiedFirst([d], buf, pos, false);
    CopiedNothing(none, buf, pos + 1, false);
    assert [Write(d.address, buf[..1])] + NOTHING == [Write(d.address, buf[..1])];
    var rest := buf[pos..];
    assert Scatter(none, rest[1..], false) == (NOTHING, rest[1..]);
    assert [Write(d.address, rest[..1])] + NOTHING == [Write(d.address, rest[..1])];
  }

  /** The scatter list of a request with its wrap at the end of the ring straightened out. */
  function Straightened(ring: seq<DataSeg>, first: nat, max: nat): (list: seq<DataSeg>)
    requires |ring| > 0
    ensures |list| == max
  {
    seq(max, j requires 0 <= j < max => ring[Place(first, j, |ring|)])
  }

  /** The units of a request before its scatter list, for the requests that have a response. */
  function ResponseHeader(op: Opcode): Option<nat> {
    match op
    case RdmaRead => Some((CTRL + RADDR) / 16)
    case AtomicCmpSwap => Some((CTRL + RADDR + ATOMIC) / 16)
    case AtomicFetchAdd => Some((CTRL + RADDR + ATOMIC) / 16)
    case _ => None
  }

  /** The scatter list of a response starts where the accounting of the post ended the header, and
      of a request whose entries are not inline it has every entry that is not empty. */
  lemma ResponseFollowsHeader(r: Request)
    ensures ResponseHeader(r.opcode).Some? <==>
              r.opcode == RdmaRead || r.opcode == AtomicCmpSwap || r.opcode == AtomicFetchAdd
    ensures ResponseHeader(r.opcode).Some? ==>
              var h := ResponseHeader(r.opcode).value;
              h == HeaderUnits(r.opcode) <= Units(r) && (!r.isInline ==> Units(r) - h == NonEmpty(r.lengths))
  {
    hide NonEmpty;
  }

  /** Where the end of the ring cuts a list of count entries from position scat on. */
  function CutAt(n: nat, scat: nat, count: nat): (cut: nat)
    ensures cut <= count
  {
    if scat >= n then 0 else Min(count, n - scat)
  }

  /** Scatters the response of the request at block idx, whose size is ds units. The ring is
      given as units of sixteen bytes. */
  method CopyToSendWqe(ring: seq<DataSeg>, wqeCnt: nat, wqeCtr: nat, op: Opcode, ds: nat, buf: seq<uint8>, toHost: bool)
    returns (status: WcStatus, writes: seq<Write>)
    requires wqeCnt > 0 && |ring| == 4 * wqeCnt
    requires ResponseHeader(op).Some? ==> ResponseHeader(op).value <= ds <= |ring|
    ensures status == RemInvReqErr <==> ResponseHeader(op).None?
    ensures ResponseHeader(op).None? ==> writes == []
    ensures ResponseHeader(op).Some? ==>
              var h := ResponseHeader(op).value;
              var first := 4 * (wqeCtr % wqeCnt) + h;
              var list := Straightened(ring, first, ds - h);
              var cut := CutAt(|ring|, first, ds - h);
              var (ws, left) := Wrapped(list[..cut], list[cut..], buf, toHost);
              && writes == ws && (status == WcSuccess <==> left == 0)
              && exists w1, w2 ::
                   && writes == w1 + w2 && AllReceive(list[..cut], buf, 0, toHost, w1)
                   && AllReceive(list[cut..], buf[Taken(list[..cut], |buf|)..], 0, toHost, w2)
  {
    hide Copied, AllReceive, Taken, Wrapped, Straightened;
    var header := ResponseHeader(op);
    if header.None? {
      return RemInvReqErr, [];
    }
    ghost var first, count := 4 * (wqeCtr % wqeCnt) + header.value, ds - header.value;
    ghost var list, cut := Straightened(ring, first, count), CutAt(|ring|, first, count);
    ghost var w1, w2 := WrappedByValue(list[..cut], list[cut..], buf, toHost);
    status, writes := ScatterFrom(ring, 4 * (wqeCtr % wqeCnt) + header.value, ds - header.value, buf, toHost);
    assert writes == w1 + w2;
  }

  method ScatterFrom(ring: seq<DataSeg>, scat: nat, count: nat, buf: seq<uint8>, toHost: bool)
    returns (status: WcStatus, writes: seq<Write>)
    requires |ring| > 0 && scat < 2 * |ring| && count <= |ring| && scat + count <= 2 * |ring|
    ensures var list := Straightened(ring, scat, count);
            var cut := CutAt(|ring|, scat, count);
            var (ws, left) := Wrapped(list[..cut], list[cut..], buf, toHost);
            writes == ws && status == if left == 0 then WcSuccess else LocLenErr
  {
    hide Copied, Straightened;
    var sqend := |ring|;
    ghost var list := Straightened(ring, scat, count);
    var size := |buf|;
    if scat + count > sqend {
      if scat < sqend {
        var tmp := sqend - scat;
        Head(ring, scat, count, tmp);
        Tail(ring, scat, count, count - tmp, 0);
        assert ring[0..] == ring;
        var s, w;
        s, w, size := CopyToScat(ring[scat..], buf, tmp, toHost);
        if s == WcSuccess {
          return WcSuccess, w;
        }
        var s2, w2, size2 := CopyToScat(ring, buf[|buf| - size..], count - tmp, toHost);
        return s2, w + w2;
      }
      var scatOffset := scat - sqend;
      Tail(ring, scat, count, count, scatOffset);
      assert list[0..] == list;
      NothingBefore(list, buf, toHost);
      var s3, w3, size3 := CopyToScat(ring[scatOffset..], buf, count, toHost);
      return s3, w3;
    }
    assert list[..count] == list && list[count..] == [];
    NothingAfter(list, buf, toHost);
    if count == 0 {
      assert list == [] == ring[..0];
      var s4, w4, size4 := CopyToScat(ring, buf, 0, toHost);
      return s4, w4;
    }
    Head(ring, scat, count, count);
    var s5, w5, size5 := CopyToScat(ring[scat..], buf, count, toHost);
    return s5, w5;
  }

  lemma NothingBefore(list: seq<DataSeg>, buf: seq<uint8>, toHost: bool)
    ensures Wrapped(list[..0], list[0..], buf, toHost) == Copied(list, buf, 0, toHost)
  {
    assert list[0..] == list && buf[0..] == buf;
    var w := Copied(list, buf, 0, toHost).0;
    var none: seq<Write> := [];
    assert none + w == w;
  }

  lemma NothingAfter(list: seq<DataSeg>, buf: seq<uint8>, toHost: bool)
    ensures Wrapped(list, [], buf, toHost) == Copied(list, buf, 0, toHost)
  {
    var w := Copied(list, buf, 0, toHost).0;
    assert w + [] == w;
  }

  lemma Head(ring: seq<DataSeg>, scat: nat, max: nat, tmp: nat)
    requires scat + tmp <= |ring| && tmp <= max && scat < |ring|
    ensures Straightened(ring, scat, max)[..tmp] == ring[scat..][..tmp]
  {
  }

  lemma Tail(ring: seq<DataSeg>, scat: nat, max: nat, left: nat, offset: nat)
    requires |ring| > 0 && left <= max && offset == scat + max - left - |ring| && 0 <= offset && offset + left <= |ring|
    ensures Straightened(ring, scat, max)[max - left..] == ring[offset..][..left]
  {
    forall j | 0 <= j < left
      ensures Straightened(ring, scat, max)[max - left..][j] == ring[offset..][..left][j]
    {
      NextLap(offset + j, |ring|);
      assert Place(scat, max - left + j, |ring|) == offset + j;
    }
  }
}
