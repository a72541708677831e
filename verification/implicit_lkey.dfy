/** On-demand memory regions behind an implicit key: a two-level table that caches, for every
    aligned stretch of 2^28 bytes, one region that starts with it and one that starts halfway. */
module ImplicitLkey {
  import opened Words

  const MR: nat := 0x1000_0000
  const HALF: nat := 0x800_0000
  const LEVEL1: nat := 0x400
  const LEVEL2: nat := 0x800
  // the bits of an address that the keys and the offset use
  const SPAN: nat := 0x2_0000_0000_0000
  const ALL: nat := 0x1_0000_0000_0000_0000

  type uint64 = x: int | 0 <= x < ALL

  datatype Mr = Mr(addr: uint64, length: nat, lkey: uint32)
  datatype Pair = Pair(first: Option<Mr>, second: Option<Mr>)
  datatype Errno = Invalid | NoMemory | Other
  datatype Result<+T> = Ok(value: T) | Err(errno: Errno)

  /** What the calls outside the library answer: the two allocations, the registration with the
      key it gives, and the prefetch command. */
  datatype Answers = Answers(level1: bool, level2: bool, registered: Option<uint32>, prefetched: bool)

  predicate AllWell(a: Answers) {
    a.level1 && a.level2 && a.registered.Some? && a.prefetched
  }

  function Key1(addr: uint64): (k: nat)
    ensures k < LEVEL1
  {
    addr / (MR * LEVEL2) % LEVEL1
  }

  function Key2(addr: uint64): (k: nat)
    ensures k < LEVEL2
  {
    addr / MR % LEVEL2
  }

  /** Whether the byte after the next one past the request lies in another stretch. */
  function CrossesOver(addr: uint64, len: uint64): bool {
    addr / MR % 2 != (addr + len + 1) % ALL / MR % 2
  }

  function BaseAddress(addr: uint64, len: uint64): (base: nat)
    ensures base < ALL
  {
    addr / MR * MR + if CrossesOver(addr, len) then HALF else 0
  }

  /** The check the lookup makes on the bits above those it uses. */
  predicate Accepted(addr: uint64) {
    addr / SPAN == 0 || addr / SPAN == 0x7fff
  }

  /** The bits above bit 48 all equal bit 48. */
  predicate SignExtended(addr: uint64) {
    addr < SPAN / 2 || addr >= ALL - SPAN / 2
  }

  ghost predicate Covers(mr: Mr, addr: nat, len: nat) {
    mr.addr <= addr && addr + len <= mr.addr + mr.length
  }

  /** Where a request may lie in its stretch: before the end, or from the middle on. */
  predicate Fits(offset: nat, len: nat) {
    offset + len + 1 < MR || (HALF <= offset && offset + len <= HALF + MR)
  }

  /** The region chosen covers the request exactly when the request fits. */
  lemma BaseCovers(addr: uint64, len: uint64, lkey: uint32)
    requires len < MR
    ensures Covers(Mr(BaseAddress(addr, len), MR, lkey), addr, len) <==> Fits(addr % MR, len)
    ensures CrossesOver(addr, len) <==> addr % MR + len + 1 >= MR
  {
    var q, o := addr / MR, addr % MR;
    assert addr == q * MR + o;
    var next := (addr + len + 1) % ALL;
    NextStretch(q, o, len);
  }

  lemma NextStretch(q: nat, o: nat, len: nat)
    requires q < ALL / MR && o < MR && len < MR
    ensures (q * MR + o + len + 1) % ALL / MR % 2 == (if o + len + 1 < MR then q % 2 else (q + 1) % 2)
  {
  }

  /** Every request of less than 2^27 bytes fits, wherever it starts. */
  lemma ShortFits(offset: nat, len: nat)
    requires offset < MR && len < HALF
    ensures Fits(offset, len)
  {
  }

  /** The bound is sharp: at every larger length some start does not fit. */
  lemma LongMayNotFit(len: nat) returns (offset: nat)
    requires HALF <= len < MR
    ensures offset < MR && !Fits(offset, len)
  {
    offset := MR - len - 1;
  }

  /** The closing check of the lookup, in 64-bit arithmetic. */
  predicate ClosingCheck(mr: Mr, addr: uint64, len: uint64) {
    mr.addr <= addr && (addr + len) % ALL <= (mr.addr + mr.length) % ALL
  }

  /** Below the last stretch of the address space the closing check holds exactly when the request
      fits. In the last stretch the end of the region is past 2^64, and the check holds only for
      the requests that wrap round as well. */
  lemma ClosingCheckExactly(addr: uint64, len: uint64, lkey: uint32)
    requires len < MR
    ensures ClosingCheck(Mr(BaseAddress(addr, len), MR, lkey), addr, len) <==>
            Fits(addr % MR, len) && (addr < ALL - MR || addr + len >= ALL)
  {
    var o := addr % MR;
    BaseCovers(addr, len, lkey);
    BaseParts(addr, len);
    WrapOnce(addr + len);
    WrapOnce(BaseAddress(addr, len) + MR);
    hide BaseAddress, CrossesOver;
    assert addr + len < 2 * ALL;
    assert (ALL - MR) % MR == 0;
    LastStretch(addr);
  }

  /** Eight bytes sixteen before the end of the address space fit, and fail the check. */
  lemma ClosingCheckFails()
    ensures var addr: uint64 := ALL - 16;
            && SignExtended(addr) && Fits(addr % MR, 8)
            && Covers(Mr(BaseAddress(addr, 8), MR, 0), addr, 8)
            && !ClosingCheck(Mr(BaseAddress(addr, 8), MR, 0), addr, 8)
  {
    var addr: uint64 := ALL - 16;
    ClosingCheckExactly(addr, 8, 0);
    BaseCovers(addr, 8, 0);
  }

  lemma LastStretch(addr: uint64)
    ensures addr < ALL - MR <==> addr - addr % MR < ALL - MR
  {
  }

  lemma WrapOnce(x: nat)
    requires x < 2 * ALL
    ensures x % ALL == if x < ALL then x else x - ALL
  {
  }

  lemma BaseParts(addr: uint64, len: uint64)
    requires len < MR
    ensures BaseAddress(addr, len) == addr - addr % MR + if addr % MR + len + 1 >= MR then HALF else 0
  {
    BaseCovers(addr, len, 0);
  }

  /** Two accepted addresses with the same keys lie in the same stretch exactly when their upper
      bits agree. */
  lemma SameSlot(a: uint64, b: uint64)
    requires Accepted(a) && Accepted(b) && Key1(a) == Key1(b) && Key2(a) == Key2(b)
    ensures a / MR == b / MR <==> a / SPAN == b / SPAN
    ensures SignExtended(a) && SignExtended(b) ==> a / MR == b / MR
  {
    Stretch(a);
    Stretch(b);
  }

  lemma Stretch(a: uint64)
    ensures a / MR == a / SPAN * (LEVEL1 * LEVEL2) + Key1(a) * LEVEL2 + Key2(a)
    ensures a / SPAN == 0 && SignExtended(a) ==> Key1(a) < LEVEL1 / 2
    ensures a / SPAN == 0x7fff && SignExtended(a) ==> Key1(a) >= LEVEL1 / 2
  {
    var t, o := a / MR, a % MR;
    var u, k2 := t / LEVEL2, t % LEVEL2;
    var v, k1 := u / LEVEL1, u % LEVEL1;
    assert a == u * (MR * LEVEL2) + (k2 * MR + o);
    Quotient(a, u, k2 * MR + o, MR * LEVEL2);
    assert a == v * SPAN + (k1 * (MR * LEVEL2) + k2 * MR + o);
    Quotient(a, v, k1 * (MR * LEVEL2) + k2 * MR + o, SPAN);
  }

  lemma Quotient(a: nat, q: nat, r: nat, n: nat)
    requires r < n && a == q * n + r
    ensures a / n == q
  {
    DivModUnique(q, r, n);
  }

  const LOW: uint64 := 0x1_0000_0000_0000
  const HIGH: uint64 := 0xffff_0000_0000_0000

  /** Upper bits of zero are accepted whatever bit 48 is, so two addresses can share a slot of the
      table without lying in the same stretch. */
  lemma SlotsCollide()
    ensures Accepted(LOW) && Accepted(HIGH) && Key1(LOW) == Key1(HIGH) && Key2(LOW) == Key2(HIGH)
    ensures SignExtended(HIGH) && !SignExtended(LOW) && LOW / MR != HIGH / MR && LOW / SPAN != HIGH / SPAN
    ensures CrossesOver(LOW, 8) == CrossesOver(HIGH, 8) && Fits(HIGH % MR, 8)
  {
  }

  /** The sign-extended address at which the stretch of two keys starts. */
  function Home(k1: nat, k2: nat): nat
    requires k1 < LEVEL1 && k2 < LEVEL2
  {
    (k1 * LEVEL2 + k2) * MR + if k1 >= LEVEL1 / 2 then ALL - SPAN else 0
  }

  /** The base chosen for a sign-extended address depends on its keys alone. */
  lemma BaseIsHome(addr: uint64, len: uint64)
    requires SignExtended(addr)
    ensures Accepted(addr)
    ensures BaseAddress(addr, len) == Home(Key1(addr), Key2(addr)) + if CrossesOver(addr, len) then HALF else 0
  {
    Stretch(addr);
  }

  /** A region that some accepted address with these keys could have registered. */
  ghost predicate StartsAt(mr: Mr, k1: nat, k2: nat, second: bool)
    requires k1 < LEVEL1 && k2 < LEVEL2
  {
    var low := (k1 * LEVEL2 + k2) * MR + if second then HALF else 0;
    mr.length == MR && (mr.addr == low || mr.addr == low + (ALL - SPAN))
  }

  /** The region that a lookup chooses for itself. */
  lemma OwnRegion(addr: uint64, len: uint64, lkey: uint32)
    requires Accepted(addr)
    ensures StartsAt(Mr(BaseAddress(addr, len), MR, lkey), Key1(addr), Key2(addr), CrossesOver(addr, len))
    ensures BaseAddress(addr, len) / SPAN == addr / SPAN
  {
    hide CrossesOver, Key1, Key2;
    Stretch(addr);
    UpperBits(addr / SPAN, Key1(addr), Key2(addr), if CrossesOver(addr, len) then HALF else 0);
  }

  lemma UpperBits(u: nat, k1: nat, k2: nat, off: nat)
    requires k1 < LEVEL1 && k2 < LEVEL2 && off < MR
    ensures ((u * (LEVEL1 * LEVEL2) + k1 * LEVEL2 + k2) * MR + off) / SPAN == u
    ensures (u * (LEVEL1 * LEVEL2) + k1 * LEVEL2 + k2) * MR + off == u * SPAN + (k1 * LEVEL2 + k2) * MR + off
  {
    Quotient((u * (LEVEL1 * LEVEL2) + k1 * LEVEL2 + k2) * MR + off, u, (k1 * LEVEL2 + k2) * MR + off, SPAN);
  }

  lemma SpanApart(a: nat, b: nat)
    requires a == b + (ALL - SPAN) || b == a + (ALL - SPAN)
    ensures a / SPAN != b / SPAN
  {
  }

  /** A region found in the slot of a request covers it exactly when it was registered for the
      same upper bits and the request fits. */
  lemma RegionCovers(mr: Mr, addr: uint64, len: uint64)
    requires len < MR && Accepted(addr) && StartsAt(mr, Key1(addr), Key2(addr), CrossesOver(addr, len))
    ensures Covers(mr, addr, len) <==> mr.addr / SPAN == addr / SPAN && Fits(addr % MR, len)
  {
    hide CrossesOver, Key1, Key2, Fits, BaseAddress;
    OwnRegion(addr, len, mr.lkey);
    BaseCovers(addr, len, mr.lkey);
    BaseParts(addr, len);
    if mr.addr != BaseAddress(addr, len) {
      SpanApart(mr.addr, BaseAddress(addr, len));
    }
  }

  /** A request as it is handed to the prefetch command. */
  datatype Piece = Piece(mr: Mr, addr: uint64, len: nat)

  predicate Holds(piece: Piece, a: nat) {
    piece.addr <= a < piece.addr + piece.len
  }

  /** The pieces follow each other from one address to another. */
  ghost predicate Consecutive(pieces: seq<Piece>, from: nat, to: nat) {
    if pieces == [] then from == to
    else pieces[|pieces| - 1].len > 0
         && pieces[|pieces| - 1].addr + pieces[|pieces| - 1].len == to
         && Consecutive(pieces[..|pieces| - 1], from, pieces[|pieces| - 1].addr)
  }

  /** Every address from one end of the pieces to the other is in exactly one of them. */
  lemma {:induction false} CoveredOnce(pieces: seq<Piece>, from: nat, to: nat, a: nat)
    requires Consecutive(pieces, from, to) && from <= a < to
    ensures exists i :: 0 <= i < |pieces| && Holds(pieces[i], a)
    ensures forall i, j :: 0 <= i < |pieces| && 0 <= j < |pieces| && Holds(pieces[i], a) && Holds(pieces[j], a)
              ==> i == j
  {
    var n := |pieces| - 1;
    forall i | 0 <= i < n
      ensures pieces[i].addr + pieces[i].len <= pieces[n].addr
    {
      EndsBefore(pieces[..n], from, pieces[n].addr, i);
      assert pieces[..n][i] == pieces[i];
    }
    if a < pieces[n].addr {
      CoveredOnce(pieces[..n], from, pieces[n].addr, a);
      var i :| 0 <= i < n && Holds(pieces[..n][i], a);
      assert pieces[i] == pieces[..n][i];
      forall i, j | 0 <= i < |pieces| && 0 <= j < |pieces| && Holds(pieces[i], a) && Holds(pieces[j], a)
        ensures i == j
      {
        assert i < n && j < n;
        assert pieces[i] == pieces[..n][i] && pieces[j] == pieces[..n][j];
      }
    } else {
      assert Holds(pieces[n], a);
    }
  }

  lemma {:induction false} EndsBefore(pieces: seq<Piece>, from: nat, to: nat, i: nat)
    requires Consecutive(pieces, from, to) && i < |pieces|
    ensures pieces[i].addr + pieces[i].len <= to
  {
    var n := |pieces| - 1;
    if i < n {
      EndsBefore(pieces[..n], from, pieces[n].addr, i);
    }
  }

  class ImplicitKey {
    var table: array?<Option<seq<Pair>>>

    ghost predicate Valid()
      reads this, table
    {
      table != null ==>
        && table.Length == LEVEL1
        && forall k :: 0 <= k < LEVEL1 && table[k].Some? ==> |table[k].value| == LEVEL2
    }

    ghost function Entry(k1: nat, k2: nat, second: bool): Option<Mr>
      requires Valid() && k1 < LEVEL1 && k2 < LEVEL2
      reads this, table
    {
      if table == null || table[k1].None? then None
      else if second then table[k1].value[k2].second
      else table[k1].value[k2].first
    }

    /** Every cached region starts at the home of its keys or halfway from there. */
    ghost predicate Signed()
      requires Valid()
      reads this, table
    {
      forall k1: nat, k2: nat, second: bool :: k1 < LEVEL1 && k2 < LEVEL2 && Entry(k1, k2, second).Some? ==>
        Entry(k1, k2, second).value.length == MR
        && Entry(k1, k2, second).value.addr == Home(k1, k2) + if second then HALF else 0
    }

    /** Every cached region was registered for some accepted address of its slot. */
    ghost predicate Cached()
      requires Valid()
      reads this, table
    {
      forall k1: nat, k2: nat, second: bool :: k1 < LEVEL1 && k2 < LEVEL2 && Entry(k1, k2, second).Some? ==>
        StartsAt(Entry(k1, k2, second).value, k1, k2, second)
    }

    /** The entry of a request, registered the first time it is asked for. */
    method FindOrRegister(addr: uint64, len: uint64, answers: Answers) returns (r: Result<Mr>)
      requires Valid()
      modifies this, table
      ensures Valid() && (table == old(table) || fresh(table))
      ensures r == Err(Invalid) <==> len >= MR || !Accepted(addr)
      ensures r.Err? ==> r.errno.Invalid? || r.errno.NoMemory?
      ensures var was := old(Entry(Key1(addr), Key2(addr), CrossesOver(addr, len)));
        && (was.Some? ==> r == Err(Invalid) || r == Ok(was.value))
        && (was.None? && r.Ok? ==>
             answers.registered.Some? && r.value == Mr(BaseAddress(addr, len), MR, answers.registered.value))
        && (was.None? && r == Err(NoMemory) ==> !answers.level1 || !answers.level2 || answers.registered.None?)
      ensures forall k1: nat, k2: nat, second :: k1 < LEVEL1 && k2 < LEVEL2 ==>
        Entry(k1, k2, second) ==
          if r.Ok? && k1 == Key1(addr) && k2 == Key2(addr) && second == CrossesOver(addr, len) then Some(r.value)
          else old(Entry(k1, k2, second))
    {
      hide Key1, Key2, CrossesOver, BaseAddress, Accepted;
      var key1, key2, second := Key1(addr), Key2(addr), CrossesOver(addr, len);
      if len >= MR || !Accepted(addr) {
        return Err(Invalid);
      }
      var ready := Prepare(key1, answers);
      if !ready {
        return Err(NoMemory);
      }
      var row := table[key1].value;
      var pair := row[key2];
      if (if second then pair.second else pair.first).None? {
        if answers.registered.None? {
          return Err(NoMemory);
        }
        var mr := Some(Mr(BaseAddress(addr, len), MR, answers.registered.value));
        pair := if second then pair.(second := mr) else pair.(first := mr);
        table[key1] := Some(row[key2 := pair]);
      }
      r := Ok((if second then pair.second else pair.first).value);
    }

    /** Allocates the levels of the table that are still missing. */
    method Prepare(key1: nat, answers: Answers) returns (ready: bool)
      requires Valid() && key1 < LEVEL1
      modifies this, table
      ensures Valid() && (table == old(table) || fresh(table))
      ensures ready ==> table != null && table[key1].Some?
      ensures !ready ==>
        (old(table) == null && !answers.level1) || (old(table == null || table[key1].None?) && !answers.level2)
      ensures forall k1: nat, k2: nat, second :: k1 < LEVEL1 && k2 < LEVEL2 ==>
        Entry(k1, k2, second) == old(Entry(k1, k2, second))
    {
      if table == null {
        if !answers.level1 {
          return false;
        }
        table := new Option<seq<Pair>>[LEVEL1](_ => None);
      }
      if table[key1].None? {
        if !answers.level2 {
          return false;
        }
        table[key1] := Some(seq(LEVEL2, _ => Pair(None, None)));
      }
      return true;
    }

    /** The region found covers the request exactly when the request fits and the region was
        registered for the same upper bits. */
    method FindRegion(addr: uint64, len: uint64, answers: Answers) returns (r: Result<Mr>)
      requires Valid()
      modifies this, table
      ensures Valid() && (table == old(table) || fresh(table))
      ensures r == Err(Invalid) <==> len >= MR || !Accepted(addr)
      ensures len < MR && Accepted(addr) && AllWell(answers) ==> r.Ok?
      ensures forall k1: nat, k2: nat, second :: k1 < LEVEL1 && k2 < LEVEL2 ==>
        Entry(k1, k2, second) ==
          if r.Ok? && k1 == Key1(addr) && k2 == Key2(addr) && second == CrossesOver(addr, len) then Some(r.value)
          else old(Entry(k1, k2, second))
      ensures var was := old(Entry(Key1(addr), Key2(addr), CrossesOver(addr, len)));
        r.Ok? ==> if was.Some? then r.value == was.value
                  else r.value.addr == BaseAddress(addr, len) && r.value.length == MR
      ensures old(Cached()) ==> Cached()
      ensures old(Cached()) && r.Ok? ==>
        (Covers(r.value, addr, len) <==> r.value.addr / SPAN == addr / SPAN && Fits(addr % MR, len))
    {
      hide Key1, Key2, CrossesOver, BaseAddress, Accepted, Fits, Covers, StartsAt;
      r := FindOrRegister(addr, len, answers);
      if r.Ok? {
        OwnRegion(addr, len, r.value.lkey);
        if old(Cached()) {
          RegionCovers(r.value, addr, len);
        }
      }
    }

    /** Looks up the region of a request. Nothing but its entry changes, and that only once. The
        region covers the request exactly when the request fits and the region was registered for
        the same upper bits, as it must have been while only sign-extended addresses were looked
        up. */
    method GetRealMr(addr: uint64, len: uint64, answers: Answers) returns (r: Result<Mr>)
      requires Valid()
      modifies this, table
      ensures Valid() && (table == old(table) || fresh(table))
      ensures r == Err(Invalid) <==> len >= MR || !Accepted(addr)
      ensures len < MR && Accepted(addr) && AllWell(answers) ==> r.Ok?
      ensures forall k1: nat, k2: nat, second :: k1 < LEVEL1 && k2 < LEVEL2 ==>
        Entry(k1, k2, second) ==
          if r.Ok? && k1 == Key1(addr) && k2 == Key2(addr) && second == CrossesOver(addr, len) then Some(r.value)
          else old(Entry(k1, k2, second))
      ensures forall k1: nat, k2: nat, second :: k1 < LEVEL1 && k2 < LEVEL2 && old(Entry(k1, k2, second)).Some? ==>
        Entry(k1, k2, second) == old(Entry(k1, k2, second))
      ensures old(Cached()) ==> Cached()
      ensures old(Cached()) && r.Ok? ==>
        (Covers(r.value, addr, len) <==> r.value.addr / SPAN == addr / SPAN && Fits(addr % MR, len))
      ensures r.Ok? && old(Entry(Key1(addr), Key2(addr), CrossesOver(addr, len))).None? ==>
        r.value.addr / SPAN == addr / SPAN
      ensures old(Signed()) && SignExtended(addr) ==> Signed()
      ensures old(Signed()) && SignExtended(addr) && r.Ok? ==>
        && (Covers(r.value, addr, len) <==> Fits(addr % MR, len))
        && (ClosingCheck(r.value, addr, len) <==> Fits(addr % MR, len) && (addr < ALL - MR || addr + len >= ALL))
    {
      hide Key1, Key2, CrossesOver, BaseAddress, Accepted, SignExtended, Fits, Covers, ClosingCheck, Home, StartsAt;
      hide ImplicitKey.Cached;
      r := FindRegion(addr, len, answers);
      if r.Ok? {
        OwnRegion(addr, len, r.value.lkey);
        if old(Signed()) && SignExtended(addr) {
          OwnHome(r.value, addr, len);
        }
      }
    }

    lemma OwnHome(mr: Mr, addr: uint64, len: uint64)
      requires SignExtended(addr) && len < MR
      ensures var base := Home(Key1(addr), Key2(addr)) + if CrossesOver(addr, len) then HALF else 0;
              && BaseAddress(addr, len) == base
              && (mr.length == MR && mr.addr == base ==>
                    && (Covers(mr, addr, len) <==> Fits(addr % MR, len))
                    && (ClosingCheck(mr, addr, len) <==>
                          Fits(addr % MR, len) && (addr < ALL - MR || addr + len >= ALL)))
    {
      hide Key1, Key2, CrossesOver, BaseAddress, Accepted, SignExtended, Fits, Covers, ClosingCheck, Home;
      BaseIsHome(addr, len);
      BaseCovers(addr, len, mr.lkey);
      ClosingCheckExactly(addr, len, mr.lkey);
    }

    /** Prefetches a range piece by piece, each up to the next multiple of 2^27. The pieces follow
        each other from the start, and reach the end unless a call fails. */
    method Prefetch(addr: uint64, len: uint64, answers: nat -> Answers) returns (r: Result<()>, pieces: seq<Piece>)
      requires Valid()
      modifies this, table
      ensures Valid()
      ensures addr + len >= ALL ==> r == Err(Invalid) && pieces == []
      ensures r.Ok? ==> Consecutive(pieces, addr, addr + len)
      ensures r.Err? ==> exists to :: addr <= to <= addr + len && Consecutive(pieces, addr, to)
      ensures addr + len < ALL && InRange(addr, len) && (forall i :: AllWell(answers(i))) ==> r.Ok?
      ensures forall p <- pieces :: p.addr % HALF + p.len <= HALF
      ensures old(Signed()) && InRange(addr, len) ==> Signed() && forall p <- pieces :: Covers(p.mr, p.addr, p.len)
    {
      hide Key1, Key2, CrossesOver, BaseAddress, Accepted, SignExtended, Fits, Covers, ClosingCheck, InRange;
      hide ImplicitKey.Cached, ImplicitKey.Signed, ImplicitKey.Valid;
      pieces := [];
      var end := (addr + len) % ALL;
      if addr > end {
        assert Consecutive(pieces, addr, addr);
        return Err(Invalid), [];
      }
      var at, i := addr, 0;
      while at < end
        invariant Valid() && (table == old(table) || fresh(table))
        invariant addr <= at <= end
        invariant Consecutive(pieces, addr, at)
        invariant forall p <- pieces :: p.addr % HALF + p.len <= HALF
        invariant old(Signed()) && InRange(addr, len) ==> Signed() && forall p <- pieces :: Covers(p.mr, p.addr, p.len)
      {
        var length := Min(HALF - at % HALF, end - at);
        PieceFits(at, length);
        if InRange(addr, len) {
          InsideRange(addr, len, at);
        }
        var mr := GetRealMr(at, length, answers(i));
        if mr.Err? {
          return Err(mr.errno), pieces;
        }
        if !answers(i).prefetched {
          return Err(Other), pieces;
        }
        assert (pieces + [Piece(mr.value, at, length)])[..|pieces|] == pieces;
        pieces := pieces + [Piece(mr.value, at, length)];
        at, i := at + length, i + 1;
      }
      return Ok(()), pieces;
    }
  }

  /** After a request at 2^48 has registered its region, a request for eight bytes whose address
      differs in the upper bits only is given that region, although it fits in one of its own. */
  method WrongRegion(key: ImplicitKey, answers: Answers) returns (r: Result<Mr>)
    requires key.Valid() && key.table == null && AllWell(answers)
    modifies key
    ensures SignExtended(HIGH) && Fits(HIGH % MR, 8) && r.Ok? && !Covers(r.value, HIGH, 8)
  {
    hide CrossesOver, Key1, Key2, Fits, BaseAddress, Covers, SignExtended, Accepted;
    SlotsCollide();
    var first := key.GetRealMr(LOW, 8, answers);
    ghost var k1, k2, second := Key1(HIGH), Key2(HIGH), CrossesOver(HIGH, 8);
    assert key.Entry(k1, k2, second) == Some(first.value);
    r := key.GetRealMr(HIGH, 8, answers);
    assert key.Entry(k1, k2, second) == Some(first.value) == Some(r.value);
  }

  /** All addresses of a range are sign-extended. */
  ghost predicate InRange(addr: uint64, len: uint64) {
    addr + len < ALL && (addr + len <= SPAN / 2 || addr >= ALL - SPAN / 2)
  }

  lemma InsideRange(addr: uint64, len: uint64, at: uint64)
    requires InRange(addr, len) && addr <= at < addr + len
    ensures SignExtended(at) && Accepted(at)
  {
  }

  /** A piece that does not pass a multiple of 2^27 fits. */
  lemma PieceFits(addr: nat, len: nat)
    requires addr % HALF + len <= HALF
    ensures Fits(addr % MR, len) && len < MR
  {
  }
}
