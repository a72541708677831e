/** Machine words and ring indices.

    A ring of n slots is addressed by a free-running 32-bit index. The slot is the index
    modulo n, and the owner bit of an index is the parity of the number of times the index
    has gone round the ring. Both are the same whether they are taken from the free-running
    index or from its value modulo 2^32, because 2n divides 2^32. */
module Words {
  const WORD: nat := 0x1_0000_0000

  type uint8 = x: int | 0 <= x < 0x100
  type uint16 = x: int | 0 <= x < 0x1_0000
  type uint24 = x: int | 0 <= x < 0x100_0000
  type uint32 = x: int | 0 <= x < WORD
  type bit = x: int | 0 <= x < 2

  datatype Option<+T> = None | Some(value: T)

  function Min(a: int, b: int): (m: int)
    ensures m <= a && m <= b && (m == a || m == b)
  {
    if a < b then a else b
  }

  function Max(a: int, b: int): (m: int)
    ensures m >= a && m >= b && (m == a || m == b)
  {
    if a < b then b else a
  }

  ghost predicate Distinct<T>(s: seq<T>) {
    forall i, j :: 0 <= i < j < |s| ==> s[i] != s[j]
  }

  /** A sequence without its element k. */
  function Without<T>(s: seq<T>, k: nat): (t: seq<T>)
    requires k < |s|
    ensures |t| == |s| - 1
    ensures forall i :: 0 <= i < |t| ==> t[i] == if i < k then s[i] else s[i + 1]
    ensures forall x :: x in t ==> x in s
  {
    s[..k] + s[k + 1..]
  }

  /** What is left of a free-running index in 32 bits. */
  function Low32(i: nat): uint32 {
    i % WORD
  }

  /** The value a 32-bit subtraction leaves when it is read as a signed number. */
  function SignedDifference(a: uint32, b: uint32): (d: int)
    ensures -0x8000_0000 <= d < 0x8000_0000
  {
    var d := (a - b) % WORD;
    if d < 0x8000_0000 then d else d - WORD
  }

  function Pow2(e: nat): (p: nat)
    ensures p >= 1
  {
    if e == 0 then 1 else 2 * Pow2(e - 1)
  }

  lemma Pow2Add(a: nat, b: nat)
    ensures Pow2(a + b) == Pow2(a) * Pow2(b)
  {
    if a != 0 {
      Pow2Add(a - 1, b);
      Associate(2, Pow2(a - 1), Pow2(b));
    }
  }

  lemma Pow2Monotone(a: nat, b: nat)
    requires a <= b
    ensures Pow2(a) <= Pow2(b)
  {
    if a < b {
      Pow2Monotone(a, b - 1);
    }
  }

  /** A ring size is a power of two whose double divides 2^32. */
  ghost predicate IsRingSize(n: nat) {
    exists e: nat :: e <= 31 && n == Pow2(e)
  }

  /** The slot of an index: what is left after all whole laps. */
  function Slot(i: nat, n: nat): (s: nat)
    requires n > 0
    ensures s < n
  {
    if i < n then i else Slot(i - n, n)
  }

  /** The owner bit of an index: the parity of the number of whole laps. */
  function Owner(i: nat, n: nat): (o: bool)
    requires n > 0
  {
    if i < n then false else !Owner(i - n, n)
  }

  /** The slot k places after a starting index. */
  function Place(start: nat, k: nat, n: nat): (s: nat)
    requires n > 0
    ensures s < n
  {
    Slot(start + k, n)
  }

  lemma Multiple(n: nat, k: int)
    ensures k >= 1 ==> n * k >= n
    ensures k <= -1 ==> n * k <= -(n as int)
  {
    if k >= 1 {
      assert n * k == n + n * (k - 1) && n * (k - 1) >= 0;
    } else if k <= -1 {
      assert n * -k == n + n * (-k - 1) && n * (-k - 1) >= 0;
    }
  }

  lemma Distribute(n: int, a: int, b: int)
    ensures n * a - n * b == n * (a - b) && n * a + n * b == n * (a + b) && n * a == a * n
  {
  }

  lemma DivModUnique(q: nat, r: nat, n: nat)
    requires r < n
    ensures (q * n + r) / n == q && (q * n + r) % n == r
  {
    var x := q * n + r;
    var q', r' := x / n, x % n;
    assert x == n * q' + r' && 0 <= r' < n;
    Distribute(n, q, q');
    Multiple(n, q - q');
  }

  /** Slot and owner bit are the remainder and the parity of the quotient, which is what the
      masks i & (n - 1) and !!(i & n) compute when n is a power of two. */
  lemma {:induction false} SlotIsRemainder(i: nat, n: nat)
    requires n > 0
    ensures Slot(i, n) == i % n && Owner(i, n) == ((i / n) % 2 == 1)
  {
    if i < n {
      DivModUnique(0, i, n);
    } else {
      SlotIsRemainder(i - n, n);
      OneLapMore(i - n, n);
    }
  }

  lemma OneLapMore(x: nat, n: nat)
    requires n > 0
    ensures (x + n) / n == x / n + 1 && (x + n) % n == x % n
  {
    var q, r := x / n, x % n;
    assert x == q * n + r;
    assert (q + 1) * n == q * n + n;
    DivModUnique(q + 1, r, n);
  }

  /** Distinct indices less than one lap apart use distinct slots. */
  lemma {:induction false} SlotsDistinct(i: nat, j: nat, n: nat)
    requires i < j < i + n
    ensures Slot(i, n) != Slot(j, n)
  {
    if i >= n {
      SlotsDistinct(i - n, j - n, n);
    }
  }

  /** One lap later the slot is the same and the owner bit is flipped. */
  lemma NextLap(i: nat, n: nat)
    requires n > 0
    ensures Slot(i + n, n) == Slot(i, n) && Owner(i + n, n) == !Owner(i, n)
  {
  }

  /** Inside one lap the owner bit does not change; past the end of the ring it flips. */
  lemma {:induction false} OwnerAhead(i: nat, d: nat, n: nat)
    requires n > 0 && d <= n
    ensures Slot(i, n) + d < n ==> Slot(i + d, n) == Slot(i, n) + d && Owner(i + d, n) == Owner(i, n)
    ensures Slot(i, n) + d >= n && d < n ==>
              Slot(i + d, n) == Slot(i, n) + d - n && Owner(i + d, n) == !Owner(i, n)
  {
    if i >= n {
      OwnerAhead(i - n, d, n);
    }
  }

  lemma WordIsTwoRings(n: nat) returns (m: nat)
    requires IsRingSize(n)
    ensures 0 < n <= 0x8000_0000 && WORD == 2 * n * m
  {
    var e: nat :| e <= 31 && n == Pow2(e);
    Pow2Add(e, 31 - e);
    Pow2Monotone(e, 31);
    m := Pow2(31 - e);
    Pow2Of31();
    assert n * m == 0x8000_0000;
    Associate(2, n, m);
  }

  lemma Associate(a: int, b: int, c: int)
    ensures a * b * c == a * (b * c) && a * (b * c) == b * (a * c) && a * (b * c) == (a * c) * b
  {
  }

  lemma Pow2Of31()
    ensures Pow2(31) == 0x8000_0000
  {
    assert Pow2(8) == 256;
    Pow2Add(8, 8);
    Pow2Add(16, 8);
    assert Pow2(7) == 128;
    Pow2Add(24, 7);
  }

  /** Reading slot and owner bit off the 32-bit index is exact, across index wrap. */
  lemma {:induction false} WrapIsHarmless(i: nat, n: nat)
    requires IsRingSize(n)
    ensures n > 0 && Slot(Low32(i), n) == Slot(i, n) && Owner(Low32(i), n) == Owner(i, n)
  {
    var m := WordIsTwoRings(n);
    var w, x := i / WORD, i % WORD;
    WholeLaps(n, m, w);
    ShiftByLaps(x, m * w, n);
    assert i == WORD * w + x;
  }

  lemma WholeLaps(n: nat, m: nat, w: nat)
    requires WORD == 2 * n * m
    ensures WORD * w == n * (2 * (m * w))
  {
    calc {
      WORD * w;
      (2 * n * m) * w;
      { Associate(2, n, m); Associate(2, m, n); }
      (n * (2 * m)) * w;
      { Associate(n, 2 * m, w); Associate(2, m, w); }
      n * (2 * (m * w));
    }
  }

  lemma {:induction false} ShiftByLaps(x: nat, h: nat, n: nat)
    requires n > 0
    ensures n * (2 * h) >= 0
    ensures Slot(n * (2 * h) + x, n) == Slot(x, n) && Owner(n * (2 * h) + x, n) == Owner(x, n)
  {
    if h != 0 {
      ShiftByLaps(x, h - 1, n);
      var y := n * (2 * (h - 1)) + x;
      Distribute(n, 2 * (h - 1), 2);
      assert n * (2 * h) + x == y + n + n;
      NextLap(y, n);
      NextLap(y + n, n);
    }
  }
}
