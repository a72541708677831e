/** The allocator of doorbell records: pages cut into cache lines, each with a bit map of the
    lines that are free, on a doubly linked list. */
module Dbrec {
  import opened Words

  const WORD_BITS: nat := 64

  type Bits = w: seq<bool> | |w| == WORD_BITS witness seq(WORD_BITS, _ => true)
  type Positive = n: nat | n > 0 witness 1

  function BitAt(free: seq<Bits>, b: nat): bool
    requires b < WORD_BITS * |free|
  {
    free[b / WORD_BITS][b % WORD_BITS]
  }

  function SetBit(free: seq<Bits>, b: nat, v: bool): (free': seq<Bits>)
    requires b < WORD_BITS * |free|
    ensures |free'| == |free|
    ensures forall c :: 0 <= c < WORD_BITS * |free| ==> BitAt(free', c) == if c == b then v else BitAt(free, c)
  {
    free[b / WORD_BITS := free[b / WORD_BITS][b % WORD_BITS := v]]
  }

  /** All lines of a page of n lines. */
  ghost function Lines(n: nat): (lines: set<nat>)
    ensures |lines| == n && forall b: nat :: b in lines <==> b < n
  {
    if n == 0 then {} else Lines(n - 1) + {n - 1}
  }

  lemma Subset(a: set<nat>, b: set<nat>)
    requires a <= b
    ensures |a| <= |b| && (|a| == |b| ==> a == b)
  {
    assert b == a + (b - a);
  }

  /** With fewer records in use than there are lines, some line is not in use. */
  lemma Pigeonhole(used: set<nat>, n: nat) returns (b: nat)
    requires used <= Lines(n) && |used| < n
    ensures b < n && b !in used
  {
    if Lines(n) <= used {
      Subset(Lines(n), used);
      assert false;
    }
    b :| b in Lines(n) && b !in used;
  }

  class DbPage {
    var prev: DbPage?
    var next: DbPage?
    const base: nat
    const numDb: nat
    var useCnt: nat
    var free: seq<Bits>
    // the lines that hold live records
    ghost var used: set<nat>

    constructor (base: nat, numDb: nat)
      ensures this.base == base && this.numDb == numDb && Ok() && used == {} && prev == null
    {
      this.base := base;
      this.numDb := numDb;
      prev, next := null, null;
      useCnt := 0;
      free := seq((numDb + WORD_BITS - 1) / WORD_BITS, _ => seq(WORD_BITS, _ => true));
      used := {};
    }

    /** The bits past the last line stay set for ever. */
    ghost predicate Ok()
      reads this`useCnt, this`free, this`used
    {
      && numDb <= WORD_BITS * |free|
      && used <= Lines(numDb) && useCnt == |used|
      && forall b :: 0 <= b < WORD_BITS * |free| ==> (BitAt(free, b) <==> b !in used)
    }

    lemma AtMostAll()
      requires Ok()
      ensures useCnt <= numDb
    {
      Subset(used, Lines(numDb));
    }

    /** Takes the first line whose bit is set; it is never one of the bits past the last line. */
    method Take() returns (b: nat)
      requires Ok() && useCnt < numDb
      modifies this`useCnt, this`free, this`used
      ensures Ok() && b < numDb && b !in old(used) && used == old(used) + {b}
      ensures forall c :: 0 <= c < b ==> c in old(used)
    {
      hide Lines;
      ghost var w := Pigeonhole(used, numDb);
      useCnt := useCnt + 1;
      b := FirstFree(free, w);
      hide BitAt;
      free := SetBit(free, b, false);
      used := used + {b};
    }

    /** The first bit that is set, given that the witness is. */
    static method FirstFree(free: seq<Bits>, ghost w: nat) returns (b: nat)
      requires w < WORD_BITS * |free| && BitAt(free, w)
      ensures b < WORD_BITS * |free| && BitAt(free, b) && b <= w
      ensures forall c :: 0 <= c < b ==> !BitAt(free, c)
    {
      var i := 0;
      while forall j :: 0 <= j < WORD_BITS ==> !free[i][j]
        invariant 0 <= i <= w / WORD_BITS
        invariant forall c :: 0 <= c < WORD_BITS * i ==> !BitAt(free, c)
        decreases |free| - i
      {
        WordUnset(free, i);
        i := i + 1;
      }
      var j := FirstSet(free[i]);
      b := WORD_BITS * i + j;
      forall c | WORD_BITS * i <= c < b
        ensures !BitAt(free, c)
      {
        assert BitAt(free, c) == free[i][c - WORD_BITS * i];
      }
      assert BitAt(free, b);
    }

    static lemma WordUnset(free: seq<Bits>, i: nat)
      requires i < |free| && forall j :: 0 <= j < WORD_BITS ==> !free[i][j]
      ensures forall c :: WORD_BITS * i <= c < WORD_BITS * i + WORD_BITS ==> !BitAt(free, c)
    {
      forall c | WORD_BITS * i <= c < WORD_BITS * i + WORD_BITS
        ensures !BitAt(free, c)
      {
        assert c / WORD_BITS == i;
      }
    }

    static method FirstSet(word: Bits) returns (j: nat)
      requires exists k :: 0 <= k < WORD_BITS && word[k]
      ensures j < WORD_BITS && word[j] && forall k :: 0 <= k < j ==> !word[k]
    {
      j := 0;
      while !word[j]
        invariant 0 <= j < WORD_BITS && forall k :: 0 <= k < j ==> !word[k]
        decreases WORD_BITS - j
      {
        j := j + 1;
        assert exists k :: 0 <= k < WORD_BITS && word[k];
      }
    }

    method Give(b: nat)
      requires Ok() && b in used
      modifies this`useCnt, this`free, this`used
      ensures Ok() && used == old(used) - {b} && useCnt == |used|
    {
      assert b in Lines(numDb);
      free := SetBit(free, b, true);
      used := used - {b};
      useCnt := useCnt - 1;
    }
  }

  ghost predicate DistinctPages(pages: seq<DbPage>) {
    forall i, j :: 0 <= i < j < |pages| ==> pages[i] != pages[j] && pages[i].base != pages[j].base
  }

  /** The list runs through the pages in order, in both directions. */
  ghost predicate Linked(head: DbPage?, pages: seq<DbPage>)
    reads pages`next, pages`prev
  {
    && (pages == [] <==> head == null)
    && (pages != [] ==> head == pages[0] && pages[0].prev == null && pages[|pages| - 1].next == null)
    && forall i, j :: 0 <= i < j < |pages| && j == i + 1 ==> pages[i].next == pages[j] && pages[j].prev == pages[i]
  }

  /** A live record: the address of its page and its line there. */
  datatype Record = Record(base: nat, line: nat)

  function Address(r: Record, cacheLine: nat): nat {
    r.base + r.line * cacheLine
  }

  /** Records of different lines or different pages have different addresses, each aligned to a
      cache line and inside its page. */
  lemma AddressesDistinct(r: Record, s: Record, ps: Positive, cl: Positive)
    requires ps % cl == 0 && r.base % ps == 0 && s.base % ps == 0
    requires r.line < ps / cl && s.line < ps / cl && r != s
    ensures Address(r, cl) != Address(s, cl)
  {
    InsidePage(r, ps, cl);
    InsidePage(s, ps, cl);
    if r.base == s.base {
      Distribute(cl, r.line, s.line);
      Distribute(cl, r.line, 0);
      Distribute(cl, s.line, 0);
      Multiple(cl, r.line - s.line);
    }
  }

  /** A record is aligned to a cache line and lies inside its page, and masking its address
      gives back the page and the line. */
  lemma InsidePage(r: Record, ps: Positive, cl: Positive)
    requires ps % cl == 0 && r.base % ps == 0 && r.line < ps / cl
    ensures Address(r, cl) % cl == 0 && r.base <= Address(r, cl) && Address(r, cl) + cl <= r.base + ps
    ensures Address(r, cl) / ps * ps == r.base && (Address(r, cl) - r.base) / cl == r.line
  {
    var n := ps / cl;
    assert ps == cl * n;
    Distribute(cl, n, r.line + 1);
    Multiple(cl, n - (r.line + 1));
    assert cl * (n - (r.line + 1)) >= 0;
    Distribute(cl, r.line, 1);
    Distribute(cl, r.line, 0);
    DivModUnique(r.line, 0, cl);
    var q := r.base / ps;
    assert r.base == ps * q;
    Distribute(ps, q, 0);
    DivModUnique(q, r.line * cl, ps);
    Associate(cl, n, q);
    Distribute(cl, n * q, r.line);
    Distribute(cl, n * q + r.line, 0);
    DivModUnique(n * q + r.line, 0, cl);
  }

  /** The records in use on the pages. */
  ghost function Records(pages: seq<DbPage>, used: seq<set<nat>>): set<Record>
    requires |pages| == |used|
  {
    set i, b | 0 <= i < |pages| && b in used[i] :: Record(pages[i].base, b)
  }

  /** A line is recorded exactly when it is in use on its page. */
  lemma RecordedLine(pages: seq<DbPage>, used: seq<set<nat>>, k: nat, b: nat)
    requires |pages| == |used| && k < |pages| && DistinctPages(pages)
    ensures Record(pages[k].base, b) in Records(pages, used) <==> b in used[k]
  {
    if Record(pages[k].base, b) in Records(pages, used) {
      var i, c :| 0 <= i < |pages| && c in used[i] && Record(pages[i].base, c) == Record(pages[k].base, b);
      assert i == k;
    }
  }

  lemma NotRecorded(pages: seq<DbPage>, used: seq<set<nat>>, r: Record)
    requires |pages| == |used| && forall i :: 0 <= i < |pages| ==> pages[i].base != r.base
    ensures r !in Records(pages, used)
  {
  }

  /** Taking a line adds one record. */
  lemma RecordAdded(pages: seq<DbPage>, used: seq<set<nat>>, k: nat, b: nat)
    requires |pages| == |used| && k < |pages|
    ensures Records(pages, used[k := used[k] + {b}]) == Records(pages, used) + {Record(pages[k].base, b)}
  {
    var used' := used[k := used[k] + {b}];
    forall i, c | 0 <= i < |pages| && c in used'[i]
      ensures Record(pages[i].base, c) in Records(pages, used) + {Record(pages[k].base, b)}
    {
      if i != k || c != b { assert c in used[i]; }
    }
    forall i, c | 0 <= i < |pages| && c in used[i]
      ensures Record(pages[i].base, c) in Records(pages, used')
    {
      assert c in used'[i];
    }
    assert b in used'[k];
  }

  /** Giving a line back removes one record. */
  lemma RecordRemoved(pages: seq<DbPage>, used: seq<set<nat>>, k: nat, b: nat)
    requires |pages| == |used| && k < |pages| && DistinctPages(pages)
    ensures Records(pages, used[k := used[k] - {b}]) == Records(pages, used) - {Record(pages[k].base, b)}
  {
    var used' := used[k := used[k] - {b}];
    forall i, c | 0 <= i < |pages| && c in used'[i]
      ensures Record(pages[i].base, c) in Records(pages, used) - {Record(pages[k].base, b)}
    {
      assert c in used[i];
    }
    forall i, c | 0 <= i < |pages| && c in used[i] && (i != k || c != b)
      ensures Record(pages[i].base, c) in Records(pages, used')
    {
      assert c in used'[i];
    }
  }

  /** A page without records, wherever it stands, adds none. */
  lemma EmptyPage(pages: seq<DbPage>, used: seq<set<nat>>, k: nat)
    requires |pages| == |used| && k < |pages| && used[k] == {}
    ensures Records(pages, used) == Records(pages[..k] + pages[k + 1..], used[..k] + used[k + 1..])
  {
    var pages', used' := pages[..k] + pages[k + 1..], used[..k] + used[k + 1..];
    forall i, c | 0 <= i < |pages| && c in used[i]
      ensures Record(pages[i].base, c) in Records(pages', used')
    {
      var j := if i < k then i else i - 1;
      assert pages'[j] == pages[i] && used'[j] == used[i];
    }
    forall j, c | 0 <= j < |pages'| && c in used'[j]
      ensures Record(pages'[j].base, c) in Records(pages, used)
    {
      var i := if j < k then j else j + 1;
      assert pages'[j] == pages[i] && used'[j] == used[i];
    }
  }

  lemma FrontPage(page: DbPage, pages: seq<DbPage>, used: seq<set<nat>>)
    requires |pages| == |used|
    ensures Records([page] + pages, [{}] + used) == Records(pages, used)
  {
    var pages', used' := [page] + pages, [{}] + used;
    EmptyPage(pages', used', 0);
    assert pages'[..0] + pages'[1..] == pages && used'[..0] + used'[1..] == used;
  }

  class DbContext {
    const ps: Positive
    const cacheLine: Positive
    var dbList: DbPage?
    ghost var pages: seq<DbPage>

    constructor (ps: Positive, cacheLine: Positive)
      requires ps % cacheLine == 0
      ensures Valid() && pages == [] && this.ps == ps && this.cacheLine == cacheLine
    {
      this.ps := ps;
      this.cacheLine := cacheLine;
      dbList := null;
      pages := [];
    }

    ghost predicate Valid()
      reads this, pages
    {
      && ps % cacheLine == 0
      && DistinctPages(pages) && Linked(dbList, pages)
      && forall i :: 0 <= i < |pages| ==> PageFits(pages[i])
    }

    /** Every listed page holds at least one live record. */
    ghost predicate PageFits(p: DbPage)
      reads p`useCnt, p`free, p`used
    {
      p.Ok() && p.numDb == ps / cacheLine && p.base % ps == 0 && p.useCnt > 0
    }

    ghost function Used(): (used: seq<set<nat>>)
      reads this, pages
      ensures |used| == |pages| && forall i :: 0 <= i < |pages| ==> used[i] == pages[i].used
    {
      seq(|pages|, i requires 0 <= i < |pages| reads this, pages => pages[i].used)
    }

    ghost function Live(): set<Record>
      reads this, pages
    {
      Records(pages, Used())
    }

    /** All live records have distinct addresses, each aligned and inside a listed page. */
    lemma LiveDistinct(r: Record, s: Record)
      requires Valid() && r in Live() && s in Live()
      ensures r != s ==> Address(r, cacheLine) != Address(s, cacheLine)
      ensures Address(r, cacheLine) % cacheLine == 0
      ensures exists i :: 0 <= i < |pages| && pages[i].base <= Address(r, cacheLine) < pages[i].base + ps
    {
      var i, b :| 0 <= i < |pages| && b in Used()[i] && r == Record(pages[i].base, b);
      var j, c :| 0 <= j < |pages| && c in Used()[j] && s == Record(pages[j].base, c);
      assert PageFits(pages[i]) && PageFits(pages[j]);
      InsidePage(r, ps, cacheLine);
      if r != s { AddressesDistinct(r, s, ps, cacheLine); }
    }

    /** The address that is handed out for a record names that record. */
    lemma AddressNamesRecord(r: Record)
      requires Valid() && r in Live()
      ensures RecordAt(Address(r, cacheLine)) == r
    {
      LiveDistinct(r, r);
      var i, b :| 0 <= i < |pages| && b in Used()[i] && r == Record(pages[i].base, b);
      assert PageFits(pages[i]);
      hide DbContext.Valid, Records;
      InsidePage(r, ps, cacheLine);
    }

    /** Finds the first page with room. */
    method FindRoom() returns (page: DbPage?, ghost k: nat)
      requires Valid()
      ensures page != null ==> k < |pages| && page == pages[k] && page.useCnt < page.numDb
      ensures page == null ==> forall i :: 0 <= i < |pages| ==> pages[i].useCnt == pages[i].numDb
    {
      page := dbList;
      k := 0;
      while page != null
        invariant 0 <= k <= |pages| && page == (if k < |pages| then pages[k] else null)
        invariant forall i :: 0 <= i < k ==> pages[i].useCnt == pages[i].numDb
        decreases |pages| - k
      {
        assert PageFits(pages[k]);
        if page.useCnt < page.numDb {
          return;
        }
        page.AtMostAll();
        page := page.next;
        k := k + 1;
      }
    }

    /** Puts a new page without records at the front of the list. */
    method AddPage(base: nat) returns (page: DbPage)
      requires Valid() && forall i :: 0 <= i < |pages| ==> pages[i].base != base
      modifies this`dbList, this`pages, pages
      ensures fresh(page) && page.Ok() && page.used == {} && page.useCnt == 0
      ensures page.base == base && page.numDb == ps / cacheLine
      ensures pages == [page] + old(pages) && DistinctPages(pages) && Linked(dbList, pages)
      ensures Used() == [{}] + old(Used()) && forall p <- old(pages) :: PageFits(p)
    {
      hide PageFits, Used, DbPage.Ok, Linked, DistinctPages, Lines, BitAt;
      page := new DbPage(base, ps / cacheLine);
      ghost var used := Used();
      assert forall p <- pages :: PageFits(p) && p != page && p.base != base;
      LinkFront(page);
      pages := [page] + pages;
      assert Used() == [{}] + used;
    }

    /** Links a page in front of the list. */
    method LinkFront(page: DbPage)
      requires DistinctPages(pages) && Linked(dbList, pages)
      requires page.prev == null && forall p <- pages :: p != page && p.base != page.base
      modifies this`dbList, page`next, pages`prev
      ensures DistinctPages([page] + pages) && Linked(dbList, [page] + pages)
    {
      page.next := dbList;
      dbList := page;
      if page.next != null {
        page.next.prev := page;
      }
      LinkedFront(page, pages);
    }

    lemma LinkedFront(page: DbPage, pages: seq<DbPage>)
      requires DistinctPages(pages) && forall p <- pages :: p != page && p.base != page.base
      requires page.prev == null
      requires pages == [] ==> page.next == null
      requires pages != [] ==> page.next == pages[0] && pages[0].prev == page && pages[|pages| - 1].next == null
      requires forall i, j :: 0 <= i < j < |pages| && j == i + 1 ==>
               pages[i].next == pages[j] && pages[j].prev == pages[i]
      ensures DistinctPages([page] + pages) && Linked(page, [page] + pages)
    {
    }

    /** Allocates a record. The buffer for a new page is aligned to the page size and belongs to
        no listed page; without one, allocation fails when all pages are full. */
    method AllocDbrec(buffer: Option<nat>) returns (db: Option<Record>)
      requires Valid()
      requires buffer.Some? ==> buffer.value % ps == 0 && forall i :: 0 <= i < |pages| ==> pages[i].base != buffer.value
      modifies this`dbList, this`pages, pages
      ensures Valid()
      ensures db.None? <==> buffer.None? && forall i :: 0 <= i < |old(pages)| ==> old(pages[i].useCnt == pages[i].numDb)
      ensures db.None? ==> Live() == old(Live())
      ensures db.Some? ==> db.value !in old(Live()) && Live() == old(Live()) + {db.value}
    {
      hide DbPage.Ok, Linked, Records, Usable, DistinctPages, PageFits, Used;
      var page, k := FindOrAdd(buffer);
      if page == null {
        return None;
      }
      ghost var used := Used();
      var b := TakeOn(page, k);
      RecordedLine(pages, used, k, b);
      RecordAdded(pages, used, k, b);
      assert Used() == used[k := used[k] + {b}];
      db := Some(Record(page.base, b));
    }

    /** A page with room, found on the list or added to it. */
    method FindOrAdd(buffer: Option<nat>) returns (page: DbPage?, ghost k: nat)
      requires Valid()
      requires buffer.Some? ==> buffer.value % ps == 0 && forall i :: 0 <= i < |pages| ==> pages[i].base != buffer.value
      modifies this`dbList, this`pages, pages
      ensures Live() == old(Live())
      ensures page == null <==> buffer.None? && forall i :: 0 <= i < |old(pages)| ==>
              old(pages[i].useCnt == pages[i].numDb)
      ensures page == null ==> Valid()
      ensures page != null ==> ps % cacheLine == 0 && DistinctPages(pages) && Linked(dbList, pages)
      ensures page != null ==> k < |pages| && page == pages[k] && Usable(page) && (fresh(page) || page in old(pages))
      ensures page != null ==> forall i :: 0 <= i < |pages| && i != k ==> PageFits(pages[i])
    {
      hide DbPage.Ok, Linked, Records, Usable, DistinctPages, PageFits, Used;
      page, k := FindRoom();
      if page == null {
        if buffer.None? {
          return;
        }
        k := 0;
        page := AddPage(buffer.value);
        FrontPage(page, old(pages), old(Used()));
        NewUsable(page);
      } else {
        NowUsable(page);
      }
    }

    lemma NowUsable(p: DbPage)
      requires PageFits(p) && p.useCnt < p.numDb
      ensures Usable(p)
    {
    }

    lemma NewUsable(p: DbPage)
      requires ps % cacheLine == 0
      requires p.Ok() && p.useCnt == 0 && p.numDb == ps / cacheLine && p.base % ps == 0
      ensures Usable(p)
    {
    }

    /** A page that may be empty, but not full. */
    ghost predicate Usable(p: DbPage)
      reads p`useCnt, p`free, p`used
    {
      p.Ok() && p.numDb == ps / cacheLine && p.base % ps == 0 && p.useCnt < p.numDb
    }

    /** Takes a line on the page found. */
    method TakeOn(page: DbPage, ghost k: nat) returns (b: nat)
      requires ps % cacheLine == 0 && DistinctPages(pages) && Linked(dbList, pages)
      requires k < |pages| && page == pages[k] && Usable(page)
      requires forall i :: 0 <= i < |pages| && i != k ==> PageFits(pages[i])
      modifies page`useCnt, page`free, page`used
      ensures Valid()
      ensures b !in old(page.used) && page.used == old(page.used) + {b}
      ensures forall i :: 0 <= i < |pages| && i != k ==> pages[i].used == old(pages[i].used)
    {
      hide DbPage.Ok, Lines, Linked, PageFits, BitAt;
      UsableParts(page);
      assert forall i :: 0 <= i < |pages| && i != k ==> PageFits(pages[i]) && pages[i] != page;
      b := page.Take();
      NowFits(page, b);
    }

    lemma UsableParts(p: DbPage)
      requires Usable(p)
      ensures p.Ok() && p.numDb == ps / cacheLine && p.base % ps == 0 && p.useCnt < p.numDb
    {
    }

    lemma NowFits(p: DbPage, b: nat)
      requires p.Ok() && p.numDb == ps / cacheLine && p.base % ps == 0 && b in p.used
      ensures PageFits(p)
    {
      assert p.used != {};
    }

    /** The record an address belongs to. */
    function RecordAt(db: nat): Record {
      Record(db / ps * ps, (db - db / ps * ps) / cacheLine)
    }

    /** Finds the page an address lies on. */
    method FindPage(db: nat) returns (page: DbPage?, ghost k: nat)
      requires Valid()
      ensures page != null ==> k < |pages| && page == pages[k] && page.base == db / ps * ps
      ensures page == null ==> forall i :: 0 <= i < |pages| ==> pages[i].base != db / ps * ps
    {
      hide PageFits;
      page := dbList;
      k := 0;
      while page != null && db / ps * ps != page.base
        invariant 0 <= k <= |pages| && page == (if k < |pages| then pages[k] else null)
        invariant forall i :: 0 <= i < k ==> pages[i].base != db / ps * ps
        decreases |pages| - k
      {
        page := page.next;
        k := k + 1;
      }
    }

    /** Takes a page out of the list. */
    method UnlinkPage(page: DbPage, ghost k: nat)
      requires DistinctPages(pages) && Linked(dbList, pages) && k < |pages| && page == pages[k]
      modifies this`dbList, pages`next, pages`prev
      ensures DistinctPages(Without(pages, k)) && Linked(dbList, Without(pages, k))
    {
      Neighbours(pages, k);
      if page.prev != null {
        page.prev.next := page.next;
      } else {
        dbList := page.next;
      }
      if page.next != null {
        page.next.prev := page.prev;
      }
      ghost var left := Without(pages, k);
      forall i, j | 0 <= i < j < |left| && j == i + 1
        ensures left[i].next == left[j] && left[j].prev == left[i]
      {
        if i >= k {
          assert left[i] == pages[i + 1] && left[j] == pages[j + 1];
        }
      }
      if k == 0 && left != [] { assert left[0] == pages[1]; }
    }

    lemma Neighbours(pages: seq<DbPage>, k: nat)
      requires Linked(dbList, pages) && k < |pages|
      ensures pages[k].prev == if k > 0 then pages[k - 1] else null
      ensures pages[k].next == if k + 1 < |pages| then pages[k + 1] else null
      ensures k == 0 ==> dbList == pages[k]
    {
    }

    /** Gives a line of a page back; a page that is left without records comes off the list. */
    method GiveOn(page: DbPage, ghost k: nat, line: nat)
      requires Valid() && k < |pages| && page == pages[k] && line in page.used
      modifies page`useCnt, page`free, page`used, this`dbList, this`pages, pages`next, pages`prev
      ensures Valid()
      ensures pages == if old(page.used) == {line} then Without(old(pages), k) else old(pages)
      ensures Used() ==
        if old(page.used) == {line} then Without(old(Used()), k) else old(Used())[k := old(page.used) - {line}]
    {
      hide DbPage.Ok, Linked, Lines, BitAt, PageFits, Used;
      ghost var used := Used();
      FitsParts(page);
      assert forall i :: 0 <= i < |pages| && i != k ==> PageFits(pages[i]) && pages[i] != page;
      page.Give(line);
      assert Used() == used[k := used[k] - {line}];
      if page.useCnt == 0 {
        assert page.used == {};
        DropPage(page, k);
        assert Without(used[k := {}], k) == Without(used, k);
      } else {
        StillFits(page);
      }
    }

    method DropPage(page: DbPage, ghost k: nat)
      requires ps % cacheLine == 0 && DistinctPages(pages) && Linked(dbList, pages)
      requires k < |pages| && page == pages[k]
      requires forall i :: 0 <= i < |pages| && i != k ==> PageFits(pages[i])
      modifies this`dbList, this`pages, pages`next, pages`prev
      ensures Valid() && pages == Without(old(pages), k) && Used() == Without(old(Used()), k)
    {
      hide PageFits, Linked, DistinctPages, Used;
      ghost var used := Used();
      UnlinkPage(page, k);
      pages := Without(pages, k);
      assert Used() == Without(used, k);
    }

    lemma StillFits(p: DbPage)
      requires p.Ok() && p.numDb == ps / cacheLine && p.base % ps == 0 && p.useCnt > 0
      ensures PageFits(p)
    {
    }

    lemma FitsParts(p: DbPage)
      requires PageFits(p)
      ensures p.Ok() && p.useCnt == |p.used| && p.numDb == ps / cacheLine && p.base % ps == 0
    {
    }

    /** Gives a record back. An address on a listed page must be that of a live record; any other
        address is ignored. A page leaves the list exactly when its last record is given back. */
    method FreeDb(db: nat)
      requires Valid()
      requires (exists i :: 0 <= i < |pages| && pages[i].base == RecordAt(db).base) ==> RecordAt(db) in Live()
      modifies this`dbList, this`pages, pages
      ensures Valid()
      ensures Live() == old(Live()) - {RecordAt(db)}
      ensures forall r :: r in old(Live()) && Address(r, cacheLine) == db ==> Live() == old(Live()) - {r}
      ensures pages == old(pages) || exists k :: 0 <= k < |old(pages)| && pages == Without(old(pages), k)
      ensures forall p <- old(pages) :: p in pages <==> exists b :: Record(p.base, b) in Live()
    {
      hide DbPage.Ok, PageFits, Linked, Records, Used;
      forall r | r in Live() && Address(r, cacheLine) == db
        ensures RecordAt(db) == r
      {
        AddressNamesRecord(r);
      }
      var page, k := FindPage(db);
      ghost var used := Used();
      if page == null {
        NotRecorded(pages, used, RecordAt(db));
      } else {
        var line := (db - page.base) / cacheLine;
        RecordedLine(pages, used, k, line);
        GiveOn(page, k, line);
        GivenBack(old(pages), used, k, line);
      }
      ListedHaveRecords(old(pages));
    }

    /** After a line is given back, and its page taken off the list if that was its last record,
        the records left are all but that one. */
    lemma GivenBack(pages: seq<DbPage>, used: seq<set<nat>>, k: nat, line: nat)
      requires |pages| == |used| && k < |pages| && DistinctPages(pages) && line in used[k]
      ensures (if used[k] == {line} then Records(Without(pages, k), Without(used, k))
               else Records(pages, used[k := used[k] - {line}])) ==
              Records(pages, used) - {Record(pages[k].base, line)}
    {
      hide Records, DistinctPages;
      RecordRemoved(pages, used, k, line);
      if used[k] == {line} {
        EmptyPage(pages, used[k := {}], k);
        assert used[k] - {line} == {};
        assert Without(used[k := {}], k) == Without(used, k);
      }
    }

    /** Every listed page has a live record, and a page of another base has none. */
    lemma ListedHaveRecords(was: seq<DbPage>)
      requires Valid() && DistinctPages(was) && forall p <- pages :: p in was
      ensures forall p <- was :: p in pages <==> exists b :: Record(p.base, b) in Live()
    {
      forall p | p in was
        ensures p in pages <==> exists b :: Record(p.base, b) in Live()
      {
        if p in pages {
          var i :| 0 <= i < |pages| && pages[i] == p;
          FitsParts(p);
          var b :| b in p.used;
          RecordedLine(pages, Used(), i, b);
        } else if exists b :: Record(p.base, b) in Live() {
          var b :| Record(p.base, b) in Live();
          var i, c :| 0 <= i < |pages| && c in Used()[i] && Record(pages[i].base, c) == Record(p.base, b);
          SameBase(was, p, pages[i]);
          assert false;
        }
      }
    }

    lemma SameBase(was: seq<DbPage>, p: DbPage, q: DbPage)
      requires DistinctPages(was) && p in was && q in was && p.base == q.base
      ensures p == q
    {
      var i, j :| 0 <= i < |was| && was[i] == p && 0 <= j < |was| && was[j] == q;
    }
  }
}
