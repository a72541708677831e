/** What becomes of the pair rows when the number of codes announced for an update differs from the
    number that are marked. The rows are stored one coefficient per marked code, in a matrix as
    wide as the announcement, so the tail of the first row of a pair lands in the second. */
module EcLoose {
  import opened Words
  import opened EcAlgebra

  /** The marked code whose coefficient ends up in column v of the second row of a pair, after u
      codes have been stored. */
  function Landed(u: nat, cols: nat, v: nat): (l: nat)
    ensures v < u ==> l < u
  {
    if cols + v < u then cols + v else v
  }

  /** The first w columns of the first row of a pair after u coefficients have been stored. */
  function FirstRow<T>(row: seq<T>, w: nat, u: nat): (r: seq<T>)
    requires u <= |row|
    ensures |r| == Min(u, w)
  {
    row[..Min(u, w)]
  }

  function SecondRow<T>(row: seq<T>, cols: nat, w: nat, u: nat): (r: seq<T>)
    requires u <= |row|
    ensures |r| == Min(u, w)
  {
    seq(Min(u, w), v requires 0 <= v < Min(u, w) => row[Landed(u, cols, v)])
  }

  /** The rows of all changed blocks among the first n. */
  function LooseRows<T>(e: seq<seq<T>>, m: nat, codes: seq<nat>, cols: nat, w: nat, updated: seq<bool>, n: nat):
    (rows: seq<seq<T>>)
    requires Rectangular(e, m) && Below(codes, m) && n <= |e| == |updated|
    ensures forall r :: 0 <= r < |rows| ==> |rows[r]| == Min(|codes|, w)
    ensures |rows| == 2 * CountTrue(updated[..n])
  {
    if n == 0 then []
    else
      assert updated[..n][..n - 1] == updated[..n - 1];
      var row := CodeRow(e, codes, n - 1);
      LooseRows(e, m, codes, cols, w, updated, n - 1) +
      if updated[n - 1] then [FirstRow(row, w, |row|), SecondRow(row, cols, w, |row|)] else []
  }

  /** With as many codes announced as are marked the rows are the pair rows. */
  lemma {:induction false} LooseIsPairs<T>(e: seq<seq<T>>, m: nat, codes: seq<nat>, cols: nat, updated: seq<bool>,
                                          n: nat)
    requires Rectangular(e, m) && Below(codes, m) && n <= |e| == |updated| && |codes| <= cols
    ensures LooseRows(e, m, codes, cols, |codes|, updated, n) == PairRows(e, m, codes, updated, n)
    decreases n
  {
    if n != 0 {
      LooseIsPairs(e, m, codes, cols, updated, n - 1);
      var row := CodeRow(e, codes, n - 1);
      assert FirstRow(row, |row|, |row|) == row && SecondRow(row, cols, |row|, |row|) == row;
    }
  }

  /** The update matrix for an announcement of a codes. */
  function LooseMatrix<T>(g: Algebra<T>, e: seq<seq<T>>, m: nat, codes: seq<nat>, a: nat, cols: nat,
                          updated: seq<bool>): (rows: seq<seq<T>>)
    requires Rectangular(e, m) && Below(codes, m) && |e| == |updated|
    ensures |rows| == a + 2 * CountTrue(updated)
    ensures forall r :: 0 <= r < |rows| ==> Min(|codes|, a) <= |rows[r]| <= a
  {
    assert updated[..|e|] == updated;
    UnitRows(g, a, a) + LooseRows(e, m, codes, cols, Min(|codes|, a), updated, |e|)
  }

  // ---------------------------------------------------------------- when an output is right

  /** In every changed block the two coefficients of column v agree. */
  ghost predicate SameCoefficients<T>(e: seq<seq<T>>, m: nat, codes: seq<nat>, cols: nat, updated: seq<bool>, v: nat)
    requires Rectangular(e, m) && Below(codes, m) && |e| == |updated| && v < |codes|
  {
    forall i :: 0 <= i < |e| && updated[i] ==> e[i][codes[Landed(|codes|, cols, v)]] == e[i][codes[v]]
  }

  /** Data before and after, and the announced blocks read with them: block v holds the old code. */
  ghost predicate Given<T>(g: Algebra<T>, e: seq<seq<T>>, m: nat, codes: seq<nat>, a: nat, updated: seq<bool>, v: nat,
                           old_: seq<T>, new_: seq<T>, xs: seq<T>)
    requires Rectangular(e, m) && Below(codes, m) && |e| == |updated| && v < |codes| && v < a
  {
    && |old_| == |new_| == |e| && |xs| == a
    && (forall i :: 0 <= i < |e| && !updated[i] ==> new_[i] == old_[i])
    && xs[v] == Encode(g, e, old_, codes[v])
  }

  /** Output v is the marked code block of the new data. */
  ghost predicate Right<T>(g: Algebra<T>, e: seq<seq<T>>, m: nat, codes: seq<nat>, a: nat, cols: nat,
                           updated: seq<bool>, v: nat, old_: seq<T>, new_: seq<T>, xs: seq<T>)
    requires Rectangular(e, m) && Below(codes, m) && |e| == |updated| && v < |codes| && v < a
    requires |old_| == |new_| == |e| && |xs| == a
  {
    assert updated[..|e|] == updated;
    Apply(g, LooseMatrix(g, e, m, codes, a, cols, updated), xs + PairInputs(old_, new_, updated, |e|), v)
    == Encode(g, e, new_, codes[v])
  }

  /** One is a unit on the right as well, and zero annihilates. */
  ghost predicate UnitRight<T(!new)>(g: Algebra<T>) {
    (forall x :: g.mul(x, g.one) == x) && forall x :: g.mul(x, g.zero) == g.zero
  }

  /** Output v of an update is right for all data if and only if the coefficients that the tail of
      the first rows has put in its column are those that belong there. */
  lemma OutputRightExactly<T(!new)>(g: Algebra<T>, e: seq<seq<T>>, m: nat, codes: seq<nat>, a: nat, cols: nat,
                                    updated: seq<bool>, v: nat)
    requires CharacteristicTwo(g) && UnitRight(g)
    requires Rectangular(e, m) && Below(codes, m) && |e| == |updated| && v < |codes| && v < a <= cols
    ensures (forall old_, new_, xs :: Given(g, e, m, codes, a, updated, v, old_, new_, xs) ==>
               Right(g, e, m, codes, a, cols, updated, v, old_, new_, xs))
            <==> SameCoefficients(e, m, codes, cols, updated, v)
  {
    hide CharacteristicTwo, UnitRight, Right;
    if SameCoefficients(e, m, codes, cols, updated, v) {
      forall old_, new_, xs | Given(g, e, m, codes, a, updated, v, old_, new_, xs)
        ensures Right(g, e, m, codes, a, cols, updated, v, old_, new_, xs)
      {
        SameIsRight(g, e, m, codes, a, cols, updated, v, old_, new_, xs);
      }
    } else {
      var i :| 0 <= i < |e| && updated[i] && e[i][codes[Landed(|codes|, cols, v)]] != e[i][codes[v]];
      DifferenceShows(g, e, m, codes, a, cols, updated, v, i);
    }
  }

  /** No marked code lands in column v when the announcement reaches that far. */
  lemma ReachesFarEnough<T>(e: seq<seq<T>>, m: nat, codes: seq<nat>, cols: nat, updated: seq<bool>, v: nat)
    requires Rectangular(e, m) && Below(codes, m) && |e| == |updated| && v < |codes| <= cols + v
    ensures SameCoefficients(e, m, codes, cols, updated, v)
  {
  }

  lemma {:induction false} SameColumn<T>(e: seq<seq<T>>, m: nat, codes: seq<nat>, a: nat, cols: nat, updated: seq<bool>,
                                         v: nat, n: nat)
    requires Rectangular(e, m) && Below(codes, m) && n <= |e| == |updated| && v < |codes| && v < a
    requires SameCoefficients(e, m, codes, cols, updated, v)
    ensures var loose := LooseRows(e, m, codes, cols, Min(|codes|, a), updated, n);
            var pairs := PairRows(e, m, codes, updated, n);
            |loose| == |pairs| && forall r :: 0 <= r < |pairs| ==> loose[r][v] == pairs[r][v]
    decreases n
  {
    if n != 0 {
      SameColumn(e, m, codes, a, cols, updated, v, n - 1);
    }
  }

  lemma SameIsRight<T(!new)>(g: Algebra<T>, e: seq<seq<T>>, m: nat, codes: seq<nat>, a: nat, cols: nat,
                             updated: seq<bool>, v: nat, old_: seq<T>, new_: seq<T>, xs: seq<T>)
    requires CharacteristicTwo(g) && Rectangular(e, m) && Below(codes, m) && |e| == |updated| && v < |codes| && v < a
    requires SameCoefficients(e, m, codes, cols, updated, v)
    requires Given(g, e, m, codes, a, updated, v, old_, new_, xs)
    ensures Right(g, e, m, codes, a, cols, updated, v, old_, new_, xs)
  {
    hide CharacteristicTwo, SameCoefficients;
    assert updated[..|e|] == updated && e[..|e|] == e && old_[..|e|] == old_ && new_[..|e|] == new_;
    var loose := LooseRows(e, m, codes, cols, Min(|codes|, a), updated, |e|);
    var pairs := PairRows(e, m, codes, updated, |e|);
    var ins := PairInputs(old_, new_, updated, |e|);
    SameColumn(e, m, codes, a, cols, updated, v, |e|);
    ApplyColumn(g, loose, v, pairs, v, ins);
    ApplyUnitRows(g, a, a, xs, v);
    ApplyConcat(g, UnitRows(g, a, a), loose, xs, ins, v);
    PairsFlip(g, e, m, codes, updated, old_, new_, |e|, v);
  }

  function Zeros<T>(g: Algebra<T>, n: nat): (z: seq<T>)
    ensures |z| == n && forall i :: 0 <= i < n ==> z[i] == g.zero
  {
    seq(n, _ => g.zero)
  }

  /** A single one in block i sets the two coefficients apart. */
  lemma DifferenceShows<T(!new)>(g: Algebra<T>, e: seq<seq<T>>, m: nat, codes: seq<nat>, a: nat, cols: nat,
                                 updated: seq<bool>, v: nat, i: nat)
    requires CharacteristicTwo(g) && UnitRight(g)
    requires Rectangular(e, m) && Below(codes, m) && |e| == |updated| && v < |codes| && v < a <= cols
    requires i < |e| && updated[i] && e[i][codes[Landed(|codes|, cols, v)]] != e[i][codes[v]]
    ensures var old_, new_, xs := Zeros(g, |e|), Zeros(g, |e|)[i := g.one], Zeros(g, a);
            && Given(g, e, m, codes, a, updated, v, old_, new_, xs)
            && !Right(g, e, m, codes, a, cols, updated, v, old_, new_, xs)
  {
    hide CharacteristicTwo, UnitRight;
    var old_, new_, xs := Zeros(g, |e|), Zeros(g, |e|)[i := g.one], Zeros(g, a);
    var loose, ins := LooseRows(e, m, codes, cols, Min(|codes|, a), updated, |e|), PairInputs(old_, new_, updated, |e|);
    assert updated[..|e|] == updated && e[..|e|] == e && old_[..|e|] == old_ && new_[..|e|] == new_;
    SumOfZeros(g, e, codes[v]);
    SumWithOne(g, e, codes[v], i, |e|);
    ApplyUnitRows(g, a, a, xs, v);
    ApplyConcat(g, UnitRows(g, a, a), loose, xs, ins, v);
    LooseWithOne(g, e, m, codes, a, cols, updated, v, i, |e|);
    ZeroRight(g, Apply(g, loose, ins, v));
  }

  lemma {:induction false} SumOfZeros<T(!new)>(g: Algebra<T>, e: seq<seq<T>>, j: nat)
    requires CharacteristicTwo(g) && UnitRight(g) && forall r :: 0 <= r < |e| ==> j < |e[r]|
    ensures Apply(g, e, Zeros(g, |e|), j) == g.zero
    decreases |e|
  {
    hide CharacteristicTwo;
    if e != [] {
      var n := |e| - 1;
      assert Zeros(g, |e|)[..n] == Zeros(g, n);
      SumOfZeros(g, e[..n], j);
      ZeroRight(g, g.zero);
    }
  }

  lemma {:induction false} SumWithOne<T(!new)>(g: Algebra<T>, e: seq<seq<T>>, j: nat, i: nat, n: nat)
    requires CharacteristicTwo(g) && UnitRight(g) && i < |e| && n <= |e| && forall r :: 0 <= r < |e| ==> j < |e[r]|
    ensures Apply(g, e[..n], Zeros(g, |e|)[i := g.one][..n], j) == if i < n then e[i][j] else g.zero
    decreases n
  {
    hide CharacteristicTwo;
    if n != 0 {
      var new_ := Zeros(g, |e|)[i := g.one];
      SumWithOne(g, e, j, i, n - 1);
      assert e[..n][..n - 1] == e[..n - 1] && new_[..n][..n - 1] == new_[..n - 1];
      ZeroRight(g, e[i][j]);
      ZeroRight(g, g.zero);
    }
  }

  lemma {:induction false} LooseWithOne<T(!new)>(g: Algebra<T>, e: seq<seq<T>>, m: nat, codes: seq<nat>, a: nat,
                                                 cols: nat, updated: seq<bool>, v: nat, i: nat, n: nat)
    requires CharacteristicTwo(g) && UnitRight(g)
    requires Rectangular(e, m) && Below(codes, m) && n <= |e| == |updated| && v < |codes| && v < a
    requires i < |e| && updated[i]
    ensures var loose := LooseRows(e, m, codes, cols, Min(|codes|, a), updated, n);
            var ins := PairInputs(Zeros(g, |e|), Zeros(g, |e|)[i := g.one], updated, n);
            Apply(g, loose, ins, v) == if i < n then e[i][codes[Landed(|codes|, cols, v)]] else g.zero
    decreases n
  {
    hide CharacteristicTwo;
    if n != 0 {
      var old_, new_ := Zeros(g, |e|), Zeros(g, |e|)[i := g.one];
      var rows := LooseRows(e, m, codes, cols, Min(|codes|, a), updated, n - 1);
      var ins := PairInputs(old_, new_, updated, n - 1);
      LooseWithOne(g, e, m, codes, a, cols, updated, v, i, n - 1);
      if updated[n - 1] {
        var row := CodeRow(e, codes, n - 1);
        var p, q := FirstRow(row, Min(|codes|, a), |row|), SecondRow(row, cols, Min(|codes|, a), |row|);
        assert q[v] == e[n - 1][codes[Landed(|codes|, cols, v)]];
        PairWithOne(g, rows, ins, p, q, new_[n - 1], v);
      } else {
        assert rows + [] == rows && ins + [] == ins;
      }
    }
  }

  lemma PairWithOne<T(!new)>(g: Algebra<T>, rows: seq<seq<T>>, ins: seq<T>, p: seq<T>, q: seq<T>, y: T, v: nat)
    requires CharacteristicTwo(g) && UnitRight(g) && |rows| == |ins| && v < |p| && v < |q|
    requires y == g.zero || y == g.one
    requires forall r :: 0 <= r < |rows| ==> v < |rows[r]|
    ensures Apply(g, rows + [p, q], ins + [g.zero, y], v) ==
            g.add(Apply(g, rows, ins, v), if y == g.one then q[v] else g.zero)
    ensures g.add(Apply(g, rows, ins, v), g.zero) == Apply(g, rows, ins, v) && g.add(g.zero, q[v]) == q[v]
  {
    hide CharacteristicTwo;
    ApplyConcat(g, rows, [p, q], ins, [g.zero, y], v);
    ApplyTwo(g, p, q, g.zero, y, v);
    ZeroRight(g, g.mul(q[v], y));
    ZeroRight(g, Apply(g, rows, ins, v));
    ZeroRight(g, q[v]);
  }

  lemma ApplyTwo<T(!new)>(g: Algebra<T>, p: seq<T>, q: seq<T>, x: T, y: T, c: nat)
    requires CharacteristicTwo(g) && c < |p| && c < |q|
    ensures Apply(g, [p, q], [x, y], c) == g.add(g.mul(p[c], x), g.mul(q[c], y))
  {
    hide CharacteristicTwo;
    ZeroRight(g, g.mul(p[c], x));
    assert [p, q][..1] == [p] && [x, y][..1] == [x] && [p][..0] == [] && [x][..0] == [];
    assert Apply(g, [p], [x], c) == g.add(g.zero, g.mul(p[c], x));
  }

  /** Of two marked codes one is announced, and the changed block has coefficients one and zero for
      them: already the first output is wrong. */
  lemma AnnouncedTooFew<T(!new)>(g: Algebra<T>)
    requires CharacteristicTwo(g) && UnitRight(g) && g.one != g.zero
    ensures var e := [[g.one, g.zero]];
            && Given(g, e, 2, [0, 1], 1, [true], 0, [g.zero], [g.one], [g.zero])
            && !Right(g, e, 2, [0, 1], 1, 1, [true], 0, [g.zero], [g.one], [g.zero])
  {
    hide Given, Right, CharacteristicTwo, UnitRight;
    DifferenceShows(g, [[g.one, g.zero]], 2, [0, 1], 1, 1, [true], 0, 0);
    assert Zeros(g, 1) == [g.zero] && Zeros(g, 1)[0 := g.one] == [g.one];
  }
}
