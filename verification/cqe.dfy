/** Completion queue entries and compressed sessions.

    A slot of the ring holds 64 bytes. They are read either as one completion entry or as an
    array of eight mini entries; the last byte of the eighth mini entry is the byte that
    carries opcode, format and owner bit when the slot is read as a completion entry. */
module Cqe {
  import opened Words

  const REQ: nat := 0
  const RESIZE_CQ: nat := 5
  const REQ_ERR: nat := 13
  const INVALID: nat := 15
  const COMPRESSED: nat := 3
  const MINI_ARR_SIZE: nat := 8

  type opcode4 = x: int | 0 <= x < 16
  type format2 = x: int | 0 <= x < 4

  /** The words of an entry that matter only when its slot is read as mini entries. */
  datatype OtherWords = OtherWords(
    w0: uint32, w1: uint32, w2: uint32, w4: uint32, w5: uint32, w6: uint32, w7: uint32,
    w9: uint32, w10: uint32, w12: uint32, w13: uint32)

  datatype Entry = Entry(
    other: OtherWords, rxHash: uint32, srqnUidx: uint32, byteCnt: uint32,
    sop: uint8, qpn: uint24, wqeCounter: uint16, signature: uint8,
    opcode: opcode4, format: format2, se: bool, owner: bool)

  /** A mini entry: a word that is either a hash or a counter and an opcode, and a byte count. */
  datatype Mini = Mini(info: uint32, byteCnt: uint32)

  function Bit(b: bool): bit {
    if b then 1 else 0
  }

  function Minis(e: Entry): (ms: seq<Mini>)
    ensures |ms| == MINI_ARR_SIZE
  {
    [Mini(e.other.w0, e.other.w1), Mini(e.other.w2, e.rxHash),
     Mini(e.other.w4, e.other.w5), Mini(e.other.w6, e.other.w7),
     Mini(e.srqnUidx, e.other.w9), Mini(e.other.w10, e.byteCnt), Mini(e.other.w12, e.other.w13),
     Mini(e.sop * 0x100_0000 + e.qpn,
          e.wqeCounter * 0x1_0000 + e.signature * 0x100 + e.opcode * 16 + e.format * 4 + Bit(e.se) * 2 + Bit(e.owner))]
  }

  /** A word of n bytes, most significant byte first. */
  function Bytes(n: nat, v: nat): (b: seq<uint8>)
    ensures |b| == n
  {
    if n == 0 then [] else Bytes(n - 1, v / 0x100) + [v % 0x100]
  }

  /** The 64 bytes of an entry, field after field. */
  function EntryBytes(e: Entry): (b: seq<uint8>)
    ensures |b| == 64
  {
    Bytes(4, e.other.w0) + Bytes(4, e.other.w1) + Bytes(4, e.other.w2) + Bytes(4, e.rxHash) +
    Bytes(4, e.other.w4) + Bytes(4, e.other.w5) + Bytes(4, e.other.w6) + Bytes(4, e.other.w7) +
    Bytes(4, e.srqnUidx) + Bytes(4, e.other.w9) + Bytes(4, e.other.w10) + Bytes(4, e.byteCnt) +
    Bytes(4, e.other.w12) + Bytes(4, e.other.w13) + Bytes(1, e.sop) + Bytes(3, e.qpn) +
    Bytes(2, e.wqeCounter) + Bytes(1, e.signature) + [e.opcode * 16 + e.format * 4 + Bit(e.se) * 2 + Bit(e.owner)]
  }

  function MiniBytes(ms: seq<Mini>): seq<uint8> {
    if ms == [] then []
    else MiniBytes(ms[..|ms| - 1]) + Bytes(4, ms[|ms| - 1].info) + Bytes(4, ms[|ms| - 1].byteCnt)
  }

  lemma BytesJoin(n: nat, m: nat, a: nat, b: nat, p: nat)
    requires b < p && p == Power256(m)
    ensures Bytes(n + m, a * p + b) == Bytes(n, a) + Bytes(m, b)
    decreases m
  {
    if m == 0 {
      assert Bytes(0, b) == [] && Bytes(n, a) + [] == Bytes(n, a);
    } else {
      var q := Power256(m - 1);
      SplitLast(a, b, q);
      BytesJoin(n, m - 1, a, b / 0x100, q);
    }
  }

  function Power256(m: nat): (p: nat)
    ensures p > 0
  {
    if m == 0 then 1 else 0x100 * Power256(m - 1)
  }

  lemma SplitLast(a: nat, b: nat, q: nat)
    requires b < 0x100 * q
    ensures (a * (0x100 * q) + b) / 0x100 == a * q + b / 0x100 && (a * (0x100 * q) + b) % 0x100 == b % 0x100
    ensures b / 0x100 < q
  {
    Associate(a, 0x100, q);
    var r := b % 0x100;
    assert a * (0x100 * q) + b == (a * q + b / 0x100) * 0x100 + r;
    DivModUnique(a * q + b / 0x100, r, 0x100);
  }

  /** Read as mini entries, a slot holds the bytes that it holds as an entry. */
  lemma MinisAreBytes(e: Entry)
    ensures MiniBytes(Minis(e)) == EntryBytes(e)
  {
    var ms, b := Minis(e), e.opcode * 16 + e.format * 4 + Bit(e.se) * 2 + Bit(e.owner);
    hide Bytes, Bit, MiniBytes;
    LastInfo(e);
    LastCount(e.wqeCounter, e.signature, b);
    EightMinis(ms);
    var front := Bytes(4, ms[0].info) + Bytes(4, ms[0].byteCnt) + Bytes(4, ms[1].info) + Bytes(4, ms[1].byteCnt) +
      Bytes(4, ms[2].info) + Bytes(4, ms[2].byteCnt) + Bytes(4, ms[3].info) + Bytes(4, ms[3].byteCnt) +
      Bytes(4, ms[4].info) + Bytes(4, ms[4].byteCnt) + Bytes(4, ms[5].info) + Bytes(4, ms[5].byteCnt) +
      Bytes(4, ms[6].info) + Bytes(4, ms[6].byteCnt);
    Regroup(front, Bytes(1, e.sop), Bytes(3, e.qpn), Bytes(2, e.wqeCounter), Bytes(1, e.signature), [b]);
  }

  lemma Regroup(x: seq<uint8>, a: seq<uint8>, b: seq<uint8>, c: seq<uint8>, d: seq<uint8>, f: seq<uint8>)
    ensures x + (a + b) + (c + d + f) == x + a + b + c + d + f
  {
  }

  lemma LastInfo(e: Entry)
    ensures Bytes(4, e.sop * 0x100_0000 + e.qpn) == Bytes(1, e.sop) + Bytes(3, e.qpn)
  {
    hide Bytes;
    Powers();
    BytesJoin(1, 3, e.sop, e.qpn, 0x100_0000);
  }

  lemma LastCount(w: uint16, sig: uint8, b: uint8)
    ensures Bytes(4, w * 0x1_0000 + sig * 0x100 + b) == Bytes(2, w) + Bytes(1, sig) + [b]
  {
    hide Bytes, Power256;
    Powers();
    BytesJoin(2, 2, w, sig * 0x100 + b, 0x1_0000);
    BytesJoin(1, 1, sig, b, 0x100);
    OneByte(b);
  }

  lemma Powers()
    ensures Power256(1) == 0x100 && Power256(2) == 0x1_0000 && Power256(3) == 0x100_0000
  {
    assert Power256(0) == 1;
  }

  lemma OneByte(b: uint8)
    ensures Bytes(1, b) == [b]
  {
  }

  lemma EightMinis(ms: seq<Mini>)
    requires |ms| == 8
    ensures MiniBytes(ms) ==
            Bytes(4, ms[0].info) + Bytes(4, ms[0].byteCnt) + Bytes(4, ms[1].info) + Bytes(4, ms[1].byteCnt) +
            Bytes(4, ms[2].info) + Bytes(4, ms[2].byteCnt) + Bytes(4, ms[3].info) + Bytes(4, ms[3].byteCnt) +
            Bytes(4, ms[4].info) + Bytes(4, ms[4].byteCnt) + Bytes(4, ms[5].info) + Bytes(4, ms[5].byteCnt) +
            Bytes(4, ms[6].info) + Bytes(4, ms[6].byteCnt) + Bytes(4, ms[7].info) + Bytes(4, ms[7].byteCnt)
  {
    hide Bytes, MiniBytes;
    NoMini(ms);
    FourMinis(ms, 0);
    FourMinis(ms, 4);
    assert ms[..8] == ms;
    NothingFirst(Bytes(4, ms[0].info));
  }

  lemma NothingFirst(s: seq<uint8>)
    ensures [] + s == s
  {
  }

  lemma FourMinis(ms: seq<Mini>, n: nat)
    requires n + 4 <= |ms|
    ensures MiniBytes(ms[..n + 4]) == MiniBytes(ms[..n]) +
            Bytes(4, ms[n].info) + Bytes(4, ms[n].byteCnt) + Bytes(4, ms[n + 1].info) + Bytes(4, ms[n + 1].byteCnt) +
            Bytes(4, ms[n + 2].info) + Bytes(4, ms[n + 2].byteCnt) +
            Bytes(4, ms[n + 3].info) + Bytes(4, ms[n + 3].byteCnt)
  {
    hide Bytes, MiniBytes;
    NextMini(ms, n + 1);
    NextMini(ms, n + 2);
    NextMini(ms, n + 3);
    NextMini(ms, n + 4);
  }

  lemma NextMini(ms: seq<Mini>, n: nat)
    requires 0 < n <= |ms|
    ensures MiniBytes(ms[..n]) == MiniBytes(ms[..n - 1]) + Bytes(4, ms[n - 1].info) + Bytes(4, ms[n - 1].byteCnt)
  {
    assert ms[..n][..n - 1] == ms[..n - 1];
  }

  lemma NoMini(ms: seq<Mini>)
    ensures MiniBytes(ms[..0]) == []
  {
  }

  /** Stores a byte that holds nothing but an owner bit over opcode, format and owner bit. */
  function OwnerByteOnly(e: Entry, own: bool): Entry {
    e.(opcode := 0, format := 0, se := false, owner := own)
  }

  predicate IsRequestor(opcode: nat) {
    opcode == REQ || opcode == REQ_ERR
  }

  predicate IsResponder(opcode: nat) {
    opcode in {1, 2, 3, 4, 14, 6}
  }

  /** The resources that are striding receive queues, looked up by the version of the entry. */
  datatype Resources = Resources(cqeVersion: bool, striding: set<nat>)

  function ResourceOf(rs: Resources, e: Entry): nat {
    if rs.cqeVersion then e.srqnUidx % 0x100_0000 else e.qpn
  }

  predicate IsStriding(rs: Resources, e: Entry) {
    ResourceOf(rs, e) in rs.striding
  }

  /** One mini entry unpacked over its title. */
  function Fill(title: Entry, w: uint16, m: Mini): Entry {
    if IsRequestor(title.opcode) then
      title.(byteCnt := m.byteCnt, wqeCounter := m.info / 0x1_0000, sop := m.info / 0x100 % 0x100)
    else
      title.(byteCnt := m.byteCnt, rxHash := m.info, wqeCounter := w)
  }

  /** The work queue counter after one mini entry. */
  function NextCounter(title: Entry, striding: bool, w: uint16, m: Mini): uint16 {
    if IsRequestor(title.opcode) then w
    else if striding then (w + m.byteCnt / 0x1_0000 % 0x4000) % 0x1_0000
    else (w + 1) % 0x1_0000
  }

  /** What a consumer uses of an entry: all of it but the owner bit, and a compressed format
      is as good as no inline data. */
  function Content(e: Entry): Entry {
    e.(owner := false, format := if e.format == COMPRESSED then 0 else e.format)
  }

  /** The completions that a session stands for. */
  function Expand(title: Entry, striding: bool, w: uint16, ms: seq<Mini>): (q: seq<Entry>)
    ensures |q| == |ms|
    decreases |ms|
  {
    if ms == [] then [] else
      [Content(Fill(title, w, ms[0]))] + Expand(title, striding, NextCounter(title, striding, w, ms[0]), ms[1..])
  }

  /** Two titles that differ only in what every mini entry overwrites. */
  ghost predicate SameTitle(a: Entry, b: Entry) {
    Fill(a, 0, Mini(0, 0)).(owner := false, format := 0) == Fill(b, 0, Mini(0, 0)).(owner := false, format := 0)
  }

  /** The session may be unpacked over a title that earlier unpacking has already overwritten. */
  lemma {:induction false} ExpandSameTitle(a: Entry, b: Entry, striding: bool, w: uint16, ms: seq<Mini>)
    requires SameTitle(a, b) && a.format == b.format
    ensures Expand(a, striding, w, ms) == Expand(b, striding, w, ms)
    decreases |ms|
  {
    if ms != [] {
      ExpandSameTitle(a, b, striding, NextCounter(a, striding, w, ms[0]), ms[1..]);
    }
  }
}
