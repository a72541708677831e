/** Erasure coding over any ring of characteristic two: the algebra behind updating code
    blocks without reading the data blocks that did not change. */
module EcAlgebra {

  datatype Algebra<!T> = Algebra(zero: T, one: T, add: (T, T) -> T, mul: (T, T) -> T)

  ghost predicate CharacteristicTwo<T(!new)>(g: Algebra<T>) {
    && (forall a, b, c :: g.add(g.add(a, b), c) == g.add(a, g.add(b, c)))
    && (forall a, b :: g.add(a, b) == g.add(b, a))
    && (forall a :: g.add(g.zero, a) == a)
    && (forall a :: g.add(a, a) == g.zero)
    && (forall a :: g.mul(g.one, a) == a)
    && (forall a :: g.mul(g.zero, a) == g.zero)
  }

  lemma Associative<T(!new)>(g: Algebra<T>, a: T, b: T, c: T)
    requires CharacteristicTwo(g)
    ensures g.add(g.add(a, b), c) == g.add(a, g.add(b, c))
  {
  }

  lemma Commutes<T(!new)>(g: Algebra<T>, a: T, b: T)
    requires CharacteristicTwo(g)
    ensures g.add(a, b) == g.add(b, a)
  {
  }

  lemma DoubleIsZero<T(!new)>(g: Algebra<T>, a: T)
    requires CharacteristicTwo(g)
    ensures g.add(a, a) == g.zero
  {
  }

  lemma ZeroRight<T(!new)>(g: Algebra<T>, a: T)
    requires CharacteristicTwo(g)
    ensures g.add(a, g.zero) == a && g.add(g.zero, a) == a && g.mul(g.zero, a) == g.zero && g.mul(g.one, a) == a
  {
    assert g.add(a, g.zero) == g.add(g.zero, a);
  }

  /** Output c of the vector calculation: the sum of every input times its row's coefficient. */
  function Apply<T>(g: Algebra<T>, rows: seq<seq<T>>, xs: seq<T>, c: nat): T
    requires |rows| == |xs| && forall i :: 0 <= i < |rows| ==> c < |rows[i]|
  {
    if rows == [] then g.zero
    else
      var n := |rows| - 1;
      g.add(Apply(g, rows[..n], xs[..n], c), g.mul(rows[n][c], xs[n]))
  }

  lemma {:induction false} ApplyConcat<T(!new)>(g: Algebra<T>, a: seq<seq<T>>, b: seq<seq<T>>, xs: seq<T>,
                                                ys: seq<T>, c: nat)
    requires CharacteristicTwo(g) && |a| == |xs| && |b| == |ys|
    requires forall i :: 0 <= i < |a| ==> c < |a[i]|
    requires forall i :: 0 <= i < |b| ==> c < |b[i]|
    ensures Apply(g, a + b, xs + ys, c) == g.add(Apply(g, a, xs, c), Apply(g, b, ys, c))
    decreases |b|
  {
    hide CharacteristicTwo;
    if b == [] {
      assert a + b == a && xs + ys == xs;
      ZeroRight(g, Apply(g, a, xs, c));
    } else {
      var n := |b| - 1;
      Associative(g, Apply(g, a, xs, c), Apply(g, b[..n], ys[..n], c), g.mul(b[n][c], ys[n]));
      assert (a + b)[..|a| + n] == a + b[..n] && (xs + ys)[..|xs| + n] == xs + ys[..n];
      ApplyConcat(g, a, b[..n], xs, ys[..n], c);
    }
  }

  /** An output depends on one column only. */
  lemma {:induction false} ApplyColumn<T>(g: Algebra<T>, rows: seq<seq<T>>, c: nat, rows': seq<seq<T>>, c': nat,
                                          xs: seq<T>)
    requires |rows| == |rows'| == |xs|
    requires forall i :: 0 <= i < |rows| ==> c < |rows[i]| && c' < |rows'[i]| && rows[i][c] == rows'[i][c']
    ensures Apply(g, rows, xs, c) == Apply(g, rows', xs, c')
    decreases |rows|
  {
    if rows != [] {
      var n := |rows| - 1;
      ApplyColumn(g, rows[..n], c, rows'[..n], c', xs[..n]);
    }
  }

  /** Row r of the identity matrix. */
  function Unit<T>(g: Algebra<T>, m: nat, r: nat): (u: seq<T>)
    ensures |u| == m
  {
    seq(m, c requires 0 <= c < m => if c == r then g.one else g.zero)
  }

  function UnitRows<T>(g: Algebra<T>, m: nat, n: nat): (rows: seq<seq<T>>)
    ensures |rows| == n && forall r :: 0 <= r < n ==> rows[r] == Unit(g, m, r)
  {
    seq(n, r requires 0 <= r < n => Unit(g, m, r))
  }

  /** The identity part of a matrix passes its input through. */
  lemma {:induction false} ApplyUnitRows<T(!new)>(g: Algebra<T>, m: nat, n: nat, xs: seq<T>, c: nat)
    requires CharacteristicTwo(g) && |xs| == n <= m && c < m
    ensures Apply(g, UnitRows(g, m, n), xs, c) == if c < n then xs[c] else g.zero
    decreases n
  {
    hide CharacteristicTwo;
    if n != 0 {
      assert UnitRows(g, m, n)[..n - 1] == UnitRows(g, m, n - 1);
      ApplyUnitRows(g, m, n - 1, xs[..n - 1], c);
      ZeroRight(g, xs[n - 1]);
      if c < n - 1 { ZeroRight(g, xs[c]); } else { ZeroRight(g, g.zero); }
    }
  }

  /** The coefficients of data block i for the chosen code blocks. */
  function CodeRow<T>(e: seq<seq<T>>, codes: seq<nat>, i: nat): (row: seq<T>)
    requires i < |e| && forall c :: 0 <= c < |codes| ==> codes[c] < |e[i]|
    ensures |row| == |codes|
  {
    seq(|codes|, c requires 0 <= c < |codes| => e[i][codes[c]])
  }

  ghost predicate Rectangular<T>(e: seq<seq<T>>, m: nat) {
    forall i :: 0 <= i < |e| ==> |e[i]| == m
  }

  ghost predicate Below(codes: seq<nat>, m: nat) {
    forall c :: 0 <= c < |codes| ==> codes[c] < m
  }

  /** Two equal rows for every updated data block among the first n. */
  function PairRows<T>(e: seq<seq<T>>, m: nat, codes: seq<nat>, updated: seq<bool>, n: nat): (rows: seq<seq<T>>)
    requires Rectangular(e, m) && Below(codes, m) && n <= |e| == |updated|
    ensures forall r :: 0 <= r < |rows| ==> |rows[r]| == |codes|
    ensures |rows| == 2 * CountTrue(updated[..n])
  {
    if n == 0 then []
    else
      assert updated[..n][..n - 1] == updated[..n - 1];
      PairRows(e, m, codes, updated, n - 1) +
      if updated[n - 1] then [CodeRow(e, codes, n - 1), CodeRow(e, codes, n - 1)] else []
  }

  function CountTrue(s: seq<bool>): (n: nat)
    ensures n <= |s|
  {
    if s == [] then 0 else CountTrue(s[..|s| - 1]) + if s[|s| - 1] then 1 else 0
  }

  /** The old and the new contents of every updated data block among the first n. */
  function PairInputs<T>(old_: seq<T>, new_: seq<T>, updated: seq<bool>, n: nat): (xs: seq<T>)
    requires n <= |old_| == |new_| == |updated|
    ensures |xs| == 2 * CountTrue(updated[..n])
  {
    if n == 0 then []
    else
      assert updated[..n][..n - 1] == updated[..n - 1];
      PairInputs(old_, new_, updated, n - 1) + if updated[n - 1] then [old_[n - 1], new_[n - 1]] else []
  }

  /** The code block j of the data. */
  function Encode<T>(g: Algebra<T>, e: seq<seq<T>>, data: seq<T>, j: nat): T
    requires |e| == |data| && forall i :: 0 <= i < |e| ==> j < |e[i]|
  {
    Apply(g, e, data, j)
  }

  /** The rows of the changed blocks turn the old sum into the new sum. */
  lemma {:induction false} PairsFlip<T(!new)>(g: Algebra<T>, e: seq<seq<T>>, m: nat, codes: seq<nat>,
                                              updated: seq<bool>, old_: seq<T>, new_: seq<T>, n: nat, c: nat)
    requires CharacteristicTwo(g) && Rectangular(e, m) && Below(codes, m) && c < |codes|
    requires n <= |e| == |updated| == |old_| == |new_|
    requires forall i :: 0 <= i < n && !updated[i] ==> new_[i] == old_[i]
    ensures g.add(Apply(g, e[..n], old_[..n], codes[c]),
                  Apply(g, PairRows(e, m, codes, updated, n), PairInputs(old_, new_, updated, n), c))
            == Apply(g, e[..n], new_[..n], codes[c])
    decreases n
  {
    hide CharacteristicTwo;
    if n == 0 {
      ZeroRight(g, g.zero);
    } else {
      var j := codes[c];
      PairsFlip(g, e, m, codes, updated, old_, new_, n - 1, c);
      assert e[..n][..n - 1] == e[..n - 1] && old_[..n][..n - 1] == old_[..n - 1]
        && new_[..n][..n - 1] == new_[..n - 1];
      PairsStep(g, e, m, codes, updated, old_, new_, n, c);
      var a := Apply(g, e[..n - 1], old_[..n - 1], j);
      var p := Apply(g, PairRows(e, m, codes, updated, n - 1), PairInputs(old_, new_, updated, n - 1), c);
      var x, y := g.mul(e[n - 1][j], old_[n - 1]), g.mul(e[n - 1][j], new_[n - 1]);
      if updated[n - 1] { Cancel(g, a, x, p, y); } else { Shuffle(g, a, x, p); }
    }
  }

  lemma PairsStep<T(!new)>(g: Algebra<T>, e: seq<seq<T>>, m: nat, codes: seq<nat>,
                           updated: seq<bool>, old_: seq<T>, new_: seq<T>, n: nat, c: nat)
    requires CharacteristicTwo(g) && Rectangular(e, m) && Below(codes, m) && c < |codes|
    requires 0 < n <= |e| == |updated| == |old_| == |new_|
    ensures var p := Apply(g, PairRows(e, m, codes, updated, n - 1), PairInputs(old_, new_, updated, n - 1), c);
            var k := e[n - 1][codes[c]];
            Apply(g, PairRows(e, m, codes, updated, n), PairInputs(old_, new_, updated, n), c)
            == if updated[n - 1] then g.add(p, g.add(g.mul(k, old_[n - 1]), g.mul(k, new_[n - 1]))) else p
  {
    hide CharacteristicTwo;
    var rows, ins := PairRows(e, m, codes, updated, n - 1), PairInputs(old_, new_, updated, n - 1);
    if updated[n - 1] {
      var row := CodeRow(e, codes, n - 1);
      ApplyConcat(g, rows, [row, row], ins, [old_[n - 1], new_[n - 1]], c);
      ApplyPair(g, row, old_[n - 1], new_[n - 1], c);
    } else {
      assert rows + [] == rows && ins + [] == ins;
    }
  }

  lemma ApplyPair<T(!new)>(g: Algebra<T>, row: seq<T>, u: T, v: T, c: nat)
    requires CharacteristicTwo(g) && c < |row|
    ensures Apply(g, [row, row], [u, v], c) == g.add(g.mul(row[c], u), g.mul(row[c], v))
  {
    hide CharacteristicTwo;
    ZeroRight(g, g.mul(row[c], u));
    assert [row, row][..1] == [row] && [u, v][..1] == [u] && [row][..0] == [] && [u][..0] == [];
    assert Apply(g, [row], [u], c) == g.add(g.zero, g.mul(row[c], u));
  }

  lemma Cancel<T(!new)>(g: Algebra<T>, a: T, x: T, p: T, y: T)
    requires CharacteristicTwo(g)
    ensures g.add(g.add(a, x), g.add(p, g.add(x, y))) == g.add(g.add(a, p), y)
  {
    hide CharacteristicTwo;
    calc {
      g.add(g.add(a, x), g.add(p, g.add(x, y)));
      { Associative(g, a, x, g.add(p, g.add(x, y))); }
      g.add(a, g.add(x, g.add(p, g.add(x, y))));
      { Associative(g, p, x, y); Commutes(g, p, x); Associative(g, x, p, y); }
      g.add(a, g.add(x, g.add(x, g.add(p, y))));
      { Associative(g, x, x, g.add(p, y)); DoubleIsZero(g, x); ZeroRight(g, g.add(p, y)); }
      g.add(a, g.add(p, y));
      { Associative(g, a, p, y); }
      g.add(g.add(a, p), y);
    }
  }

  lemma Shuffle<T(!new)>(g: Algebra<T>, a: T, x: T, p: T)
    requires CharacteristicTwo(g)
    ensures g.add(g.add(a, x), p) == g.add(g.add(a, p), x)
  {
    hide CharacteristicTwo;
    Associative(g, a, x, p);
    Commutes(g, x, p);
    Associative(g, a, p, x);
  }

  /** The update matrix: the identity for the old code blocks, then the pair rows. */
  function UpdateRows<T>(g: Algebra<T>, e: seq<seq<T>>, m: nat, codes: seq<nat>,
                         updated: seq<bool>): (rows: seq<seq<T>>)
    requires Rectangular(e, m) && Below(codes, m) && |e| == |updated|
    ensures forall r :: 0 <= r < |rows| ==> |rows[r]| == |codes|
    ensures |rows| == |codes| + 2 * CountTrue(updated)
  {
    assert updated[..|e|] == updated;
    UnitRows(g, |codes|, |codes|) + PairRows(e, m, codes, updated, |e|)
  }

  /** Updating the code blocks of a section equals encoding the new data again. */
  lemma UpdateIsReencode<T(!new)>(g: Algebra<T>, e: seq<seq<T>>, m: nat, codes: seq<nat>, updated: seq<bool>,
                                  old_: seq<T>, new_: seq<T>, c: nat)
    requires CharacteristicTwo(g) && Rectangular(e, m) && Below(codes, m) && c < |codes|
    requires |e| == |updated| == |old_| == |new_|
    requires forall i :: 0 <= i < |e| && !updated[i] ==> new_[i] == old_[i]
    ensures var oldCodes := seq(|codes|, d requires 0 <= d < |codes| => Encode(g, e, old_, codes[d]));
            var input := oldCodes + PairInputs(old_, new_, updated, |e|);
            |input| == |UpdateRows(g, e, m, codes, updated)| &&
            Apply(g, UpdateRows(g, e, m, codes, updated), input, c) == Encode(g, e, new_, codes[c])
  {
    hide CharacteristicTwo;
    var oldCodes := seq(|codes|, d requires 0 <= d < |codes| => Encode(g, e, old_, codes[d]));
    assert updated[..|e|] == updated && e[..|e|] == e && old_[..|e|] == old_ && new_[..|e|] == new_;
    ApplyUnitRows(g, |codes|, |codes|, oldCodes, c);
    ApplyConcat(g, UnitRows(g, |codes|, |codes|), PairRows(e, m, codes, updated, |e|),
                oldCodes, PairInputs(old_, new_, updated, |e|), c);
    PairsFlip(g, e, m, codes, updated, old_, new_, |e|, c);
  }

  /** The sum over the first n blocks of the data times the coefficients of column j of a matrix
      given row by row. */
  function Dot<T>(g: Algebra<T>, matrix: seq<T>, m: nat, j: nat, data: seq<T>, n: nat): T
    requires n <= |data| && forall i :: 0 <= i < n ==> 0 <= i * m + j < |matrix|
  {
    if n == 0 then g.zero
    else g.add(Dot(g, matrix, m, j, data, n - 1), g.mul(matrix[(n - 1) * m + j], data[n - 1]))
  }

  /** A column of rows that are those of the matrix. */
  lemma {:induction false} ApplyIsDot<T>(g: Algebra<T>, rows: seq<seq<T>>, c: nat, matrix: seq<T>, m: nat, j: nat,
                                         data: seq<T>, n: nat)
    requires n <= |rows| == |data| && forall i :: 0 <= i < n ==> 0 <= i * m + j < |matrix|
    requires forall i :: 0 <= i < |rows| ==> c < |rows[i]|
    requires forall i :: 0 <= i < n ==> rows[i][c] == matrix[i * m + j]
    ensures Apply(g, rows[..n], data[..n], c) == Dot(g, matrix, m, j, data, n)
    decreases n
  {
    if n > 0 {
      assert rows[..n][..n - 1] == rows[..n - 1] && data[..n][..n - 1] == data[..n - 1];
      ApplyIsDot(g, rows, c, matrix, m, j, data, n - 1);
    }
  }
}
