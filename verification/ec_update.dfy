/** Building the update matrix of one section in a buffer of the matrix pool. */
module EcUpdate {
  import opened Words
  import opened EcAlgebra
  import opened EcLoose
  import opened EcMatrix

  /** The code blocks from start to end that are updated, among the first n. */
  function Codes(updated: seq<bool>, start: nat, end: int, n: nat): (codes: seq<nat>)
    requires n <= |updated|
    ensures |codes| <= n && Below(codes, n)
  {
    if n == 0 then []
    else Codes(updated, start, end, n - 1) + if start <= n - 1 <= end && updated[n - 1] then [n - 1] else []
  }

  lemma {:induction false} CodesGrow(updated: seq<bool>, start: nat, end: int, n: nat, n': nat)
    requires n <= n' <= |updated|
    ensures Codes(updated, start, end, n) <= Codes(updated, start, end, n')
    decreases n' - n
  {
    if n < n' {
      CodesGrow(updated, start, end, n, n' - 1);
      assert Codes(updated, start, end, n' - 1) <= Codes(updated, start, end, n');
    }
  }

  /** The chosen blocks are exactly the marked ones of the range, in rising order. */
  lemma {:induction false} CodesExactly(updated: seq<bool>, start: nat, end: int, n: nat)
    requires n <= |updated|
    ensures forall b: nat :: b in Codes(updated, start, end, n) <==> b < n && start <= b <= end && updated[b]
    ensures Rising(Codes(updated, start, end, n))
  {
    if n > 0 {
      CodesExactly(updated, start, end, n - 1);
      RisingStill(Codes(updated, start, end, n - 1), n - 1);
    }
  }

  ghost predicate Rising(s: seq<nat>) {
    forall i, j :: 0 <= i < j < |s| ==> s[i] < s[j]
  }

  lemma RisingStill(s: seq<nat>, x: nat)
    requires Rising(s) && forall b <- s :: b < x
    ensures Rising(s + [x])
    ensures forall b: nat :: b in s + [x] <==> b in s || b == x
  {
    forall i, j | 0 <= i < j < |s| + 1
      ensures (s + [x])[i] < (s + [x])[j]
    {
      assert (s + [x])[i] == s[i] && s[i] in s;
    }
  }

  /** What the next block adds to the marked ones. */
  lemma NextCode(updated: seq<bool>, start: nat, end: int, j: nat)
    requires j < |updated|
    ensures var all, n := Codes(updated, start, end, |updated|), |Codes(updated, start, end, j)|;
            if start <= j <= end && updated[j] then
              n < |all| && all[n] == j && |Codes(updated, start, end, j + 1)| == n + 1
            else n <= |all| && |Codes(updated, start, end, j + 1)| == n
  {
    CodesGrow(updated, start, end, j + 1, |updated|);
  }

  lemma NoCodes(updated: seq<bool>, start: nat, end: int)
    ensures Codes(updated, start, end, 0) == []
  {
  }

  /** The matrix in the buffer begins with these rows, each possibly cut short; their bytes carry
      the formatting bit or not. */
  ghost predicate HasRows<T>(buf: seq<Coef<T>>, cols: nat, rows: seq<seq<T>>, tag: bool) {
    && (forall r :: 0 <= r < |rows| ==> |rows[r]| <= cols)
    && forall r, c :: 0 <= r < |rows| && 0 <= c < |rows[r]| ==> CellIs(buf, cols, r, c, Coef(rows[r][c], tag))
  }

  ghost predicate CellIs<T>(buf: seq<Coef<T>>, cols: nat, r: nat, c: nat, x: Coef<T>) {
    Cell(r, c, cols) < |buf| && buf[Cell(r, c, cols)] == x
  }

  /** Storing the next coefficient of a row. */
  lemma ExtendRow<T>(buf: seq<Coef<T>>, cols: nat, rows: seq<seq<T>>, r: nat, x: Coef<T>, tag: bool)
    requires HasRows(buf, cols, rows, tag) && r < |rows| && |rows[r]| < cols && Cell(r, |rows[r]|, cols) < |buf|
    requires x.tag == tag
    ensures HasRows(buf[Cell(r, |rows[r]|, cols) := x], cols, rows[r := rows[r] + [x.value]], tag)
  {
    var p := Cell(r, |rows[r]|, cols);
    var buf', rows' := buf[p := x], rows[r := rows[r] + [x.value]];
    forall r', c' | 0 <= r' < |rows'| && 0 <= c' < |rows'[r']|
      ensures CellIs(buf', cols, r', c', Coef(rows'[r'][c'], tag))
    {
      hide Cell;
      if r' == r && c' == |rows[r]| {
      } else {
        assert CellIs(buf, cols, r', c', Coef(rows[r'][c'], tag));
        if Cell(r', c', cols) == p { CellInjective(r', c', r, |rows[r]|, cols); }
      }
    }
  }

  /** Storing outside all rows changes none of them. */
  lemma PadRow<T>(buf: seq<Coef<T>>, cols: nat, rows: seq<seq<T>>, r: nat, c: nat, x: Coef<T>, tag: bool)
    requires HasRows(buf, cols, rows, tag) && c < cols && Cell(r, c, cols) < |buf|
    requires r < |rows| ==> |rows[r]| <= c
    ensures HasRows(buf[Cell(r, c, cols) := x], cols, rows, tag)
  {
    var p := Cell(r, c, cols);
    forall r', c' | 0 <= r' < |rows| && 0 <= c' < |rows[r']|
      ensures CellIs(buf[p := x], cols, r', c', Coef(rows[r'][c'], tag))
    {
      hide Cell;
      assert CellIs(buf, cols, r', c', Coef(rows[r'][c'], tag));
      if Cell(r', c', cols) == p { CellInjective(r', c', r, c, cols); }
    }
  }

  /** A matrix of rows by cols fits into a buffer of the pool. */
  lemma FitsPool(cfg: Calc, rows: nat, numCode: nat, r: nat, c: nat)
    requires numCode <= cfg.m && rows <= cfg.k && r < rows && c < NOutputs(numCode)
    ensures Cell(r, c, NOutputs(numCode)) < cfg.k * NOutputs(cfg.m)
  {
    CellBound(r, c, cfg.k, NOutputs(numCode));
    assert NOutputs(numCode) <= NOutputs(cfg.m);
    ScaleUp(NOutputs(numCode), 0, NOutputs(cfg.m), cfg.k);
  }

  method FillIdentity<T>(g: Algebra<T>, cfg: Calc, buf: array<Coef<T>>, m: nat)
    requires m <= cfg.m && m <= cfg.k && buf.Length == cfg.k * NOutputs(cfg.m)
    modifies buf
    ensures HasRows(buf[..], NOutputs(m), UnitRows(g, m, m), cfg.w != 8)
  {
    hide HasRows, Cell;
    var cols := NOutputs(m);
    NoRows(buf[..], cols, UnitRows(g, m, 0), cfg.w != 8);
    var uraw := 0;
    while uraw < m
      invariant 0 <= uraw <= m && HasRows(buf[..], cols, UnitRows(g, m, uraw), cfg.w != 8)
    {
      FillUnitRow(g, cfg, buf, m, uraw);
      assert UnitRows(g, m, uraw) + [Unit(g, m, uraw)] == UnitRows(g, m, uraw + 1);
      uraw := uraw + 1;
    }
  }

  lemma NoRows<T>(buf: seq<Coef<T>>, cols: nat, rows: seq<seq<T>>, tag: bool)
    requires rows == []
    ensures HasRows(buf, cols, rows, tag)
  {
  }

  lemma EmptyRows<T>(buf: seq<Coef<T>>, cols: nat, rows: seq<seq<T>>, n: nat, tag: bool)
    requires HasRows(buf, cols, rows, tag)
    ensures HasRows(buf, cols, rows + seq(n, _ => []), tag)
  {
    var rows' := rows + seq(n, _ => []);
    forall r', c' | 0 <= r' < |rows'| && 0 <= c' < |rows'[r']|
      ensures CellIs(buf, cols, r', c', Coef(rows'[r'][c'], tag))
    {
      assert rows'[r'] == rows[r'];
      assert CellIs(buf, cols, r', c', Coef(rows[r'][c'], tag));
    }
  }

  method FillUnitRow<T>(g: Algebra<T>, cfg: Calc, buf: array<Coef<T>>, m: nat, uraw: nat)
    requires uraw < m <= cfg.m && m <= cfg.k && buf.Length == cfg.k * NOutputs(cfg.m)
    requires HasRows(buf[..], NOutputs(m), UnitRows(g, m, uraw), cfg.w != 8)
    modifies buf
    ensures HasRows(buf[..], NOutputs(m), UnitRows(g, m, uraw) + [Unit(g, m, uraw)], cfg.w != 8)
  {
    hide HasRows, Cell;
    var cols := NOutputs(m);
    ghost var rows := UnitRows(g, m, uraw);
    EmptyRows(buf[..], cols, rows, 1, cfg.w != 8);
    assert rows + seq(1, _ => []) == rows + [Unit(g, m, uraw)[..0]];
    var ucol := 0;
    while ucol < m
      invariant 0 <= ucol <= m && HasRows(buf[..], cols, rows + [Unit(g, m, uraw)[..ucol]], cfg.w != 8)
    {
      var x := Coef(if uraw == ucol then g.one else g.zero, cfg.w != 8);
      FitsPool(cfg, m, m, uraw, ucol);
      ghost var rs := rows + [Unit(g, m, uraw)[..ucol]];
      ExtendRow(buf[..], cols, rs, uraw, x, cfg.w != 8);
      assert Unit(g, m, uraw)[..ucol] + [x.value] == Unit(g, m, uraw)[..ucol + 1];
      assert rs[uraw := rs[uraw] + [x.value]] == rows + [Unit(g, m, uraw)[..ucol + 1]];
      buf[Cell(uraw, ucol, cols)] := x;
      ucol := ucol + 1;
    }
    assert Unit(g, m, uraw)[..m] == Unit(g, m, uraw);
  }

  /** Copies the coefficients of one updated data block into two rows, one of each marked code,
      however many were announced. */
  method FillPair<T>(cfg: Calc, mat: array<Coef<T>>, buf: array<Coef<T>>, ghost e: seq<seq<T>>, ghost rows: seq<seq<T>>,
                     numCode: nat, i: nat, uraw: nat, codeUpdates: seq<bool>, start: nat, end: int)
    requires mat != buf && Registered(mat[..], e, cfg.k, cfg.m, cfg.w != 8) && |codeUpdates| == cfg.m && i < cfg.k
    requires buf.Length == cfg.k * NOutputs(cfg.m) && uraw + 3 <= cfg.k && |rows| == uraw && numCode <= cfg.m
    requires HasRows(buf[..], NOutputs(numCode), rows, cfg.w != 8)
    modifies buf
    ensures var row, cols := CodeRow(e, Codes(codeUpdates, start, end, cfg.m), i), NOutputs(numCode);
            var w := Min(|row|, numCode);
            HasRows(buf[..], cols, rows + [FirstRow(row, w, |row|), SecondRow(row, cols, w, |row|)], cfg.w != 8)
  {
    hide HasRows, Cell, Registered, SecondRow, FirstRow, Codes;
    EncodeIsRectangular(mat[..], e, cfg);
    var cols := NOutputs(numCode);
    ghost var codes := Codes(codeUpdates, start, end, cfg.m);
    ghost var row := CodeRow(e, codes, i);
    ghost var w := Min(|row|, numCode);
    var ucol := 0;
    EmptyRows(buf[..], cols, rows, 2, cfg.w != 8);
    assert rows + seq(2, _ => []) == rows + [FirstRow(row, w, 0), SecondRow(row, cols, w, 0)];
    NoCodes(codeUpdates, start, end);
    var j := 0;
    while j < cfg.m
      invariant 0 <= j <= cfg.m && ucol == |Codes(codeUpdates, start, end, j)| <= |row|
      invariant HasRows(buf[..], cols, rows + [FirstRow(row, w, ucol), SecondRow(row, cols, w, ucol)], cfg.w != 8)
    {
      NextCode(codeUpdates, start, end, j);
      if start <= j <= end && codeUpdates[j] {
        var x := ReadEncode(cfg, mat, e, i, j);
        FillTwo(cfg, buf, rows, row, numCode, w, uraw, ucol, x);
        ucol := ucol + 1;
      }
      j := j + 1;
    }
  }

  /** Reads the encode matrix, which is split into several when there are more than four
      code blocks. */
  method ReadEncode<T>(cfg: Calc, mat: array<Coef<T>>, ghost e: seq<seq<T>>, i: nat, j: nat) returns (x: Coef<T>)
    requires Registered(mat[..], e, cfg.k, cfg.m, cfg.w != 8) && i < cfg.k && j < cfg.m
    ensures x == Coef(e[i][j], cfg.w != 8)
  {
    hide EncodeBytes;
    assert HasCoef(mat[..], e, cfg.k, cfg.m, i, j, cfg.w != 8);
    var base, enCols, enIdx := 0, NOutputs(cfg.m), j;
    if cfg.m > NUM_OUTPUTS {
      var matOffset := j / NUM_OUTPUTS;
      base := matOffset * NUM_OUTPUTS * cfg.k;
      enCols := NOutputs(Cols(matOffset, MultNum(cfg.m), cfg.m));
      enIdx := j % NUM_OUTPUTS;
    }
    x := mat[base + (i * enCols + enIdx)];
  }

  /** The second row when the next coefficient has been stored in the first only: past its end the
      first row runs on into the second. */
  function RunOn<T>(row: seq<T>, cols: nat, w: nat, u: nat): (r: seq<T>)
    requires u < |row|
  {
    var second := SecondRow(row, cols, w, u);
    if 0 <= u - cols < |second| then second[u - cols := row[u]] else second
  }

  lemma RowAndColumn(r: nat, u: nat, cols: nat)
    requires cols > 0
    ensures r * cols + u == Cell(r + u / cols, u % cols, cols) && u % cols < cols
    ensures u < cols ==> u / cols == 0 && u % cols == u
    ensures cols <= u < 2 * cols ==> u / cols == 1 && u % cols == u - cols
    ensures u >= 2 * cols ==> u / cols >= 2
  {
    var q, c := u / cols, u % cols;
    assert u == cols * q + c;
    Distribute(cols, r, 0);
    Distribute(cols, r + q, r);
    if u < cols {
      DivModUnique(0, u, cols);
    } else if u < 2 * cols {
      DivModUnique(1, u - cols, cols);
    } else if q <= 1 {
      Distribute(cols, 1, q);
      Multiple(cols, 1 - q);
      assert false;
    }
  }

  /** Storing over a coefficient that is already there. */
  lemma OverwriteCell<T>(buf: seq<Coef<T>>, cols: nat, rows: seq<seq<T>>, r: nat, c: nat, x: Coef<T>, tag: bool)
    requires HasRows(buf, cols, rows, tag) && r < |rows| && c < |rows[r]| && Cell(r, c, cols) < |buf| && x.tag == tag
    ensures HasRows(buf[Cell(r, c, cols) := x], cols, rows[r := rows[r][c := x.value]], tag)
  {
    var p := Cell(r, c, cols);
    var buf', rows' := buf[p := x], rows[r := rows[r][c := x.value]];
    forall r', c' | 0 <= r' < |rows'| && 0 <= c' < |rows'[r']|
      ensures CellIs(buf', cols, r', c', Coef(rows'[r'][c'], tag))
    {
      hide Cell;
      assert CellIs(buf, cols, r', c', Coef(rows[r'][c'], tag));
      if Cell(r', c', cols) == p { CellInjective(r', c', r, c, cols); }
    }
  }

  lemma NoWidth<T>(buf: seq<Coef<T>>, rows: seq<seq<T>>, buf': seq<Coef<T>>, tag: bool)
    requires HasRows(buf, 0, rows, tag)
    ensures HasRows(buf', 0, rows, tag) && forall r :: 0 <= r < |rows| ==> rows[r] == []
  {
  }

  /** Storing coefficient u in the first row of a pair. */
  lemma StoreFirst<T>(buf: seq<Coef<T>>, cols: nat, rows: seq<seq<T>>, row: seq<T>, w: nat, u: nat, x: Coef<T>,
                      tag: bool)
    requires u < |row| && w <= cols && w <= |row| && cols > 0 && x == Coef(row[u], tag)
    requires HasRows(buf, cols, rows + [FirstRow(row, w, u), SecondRow(row, cols, w, u)], tag)
    requires |rows| * cols + u < |buf|
    ensures HasRows(buf[|rows| * cols + u := x], cols, rows + [FirstRow(row, w, u + 1), RunOn(row, cols, w, u)], tag)
  {
    hide HasRows, Cell;
    var r, second := |rows|, SecondRow(row, cols, w, u);
    var rs := rows + [FirstRow(row, w, u), second];
    RowAndColumn(r, u, cols);
    if u < w {
      ExtendRow(buf, cols, rs, r, x, tag);
      assert FirstRow(row, w, u) + [x.value] == FirstRow(row, w, u + 1);
      assert rs[r := FirstRow(row, w, u + 1)] == rows + [FirstRow(row, w, u + 1), second];
    } else if 0 <= u - cols < w {
      OverwriteCell(buf, cols, rs, r + 1, u - cols, x, tag);
      assert rs[r + 1 := second[u - cols := x.value]] == rows + [FirstRow(row, w, u), second[u - cols := x.value]];
    } else {
      PadRow(buf, cols, rs, r + u / cols, u % cols, x, tag);
    }
  }

  /** Storing it in the second row. */
  lemma StoreSecond<T>(buf: seq<Coef<T>>, cols: nat, rows: seq<seq<T>>, first: seq<T>, row: seq<T>, w: nat, u: nat,
                       x: Coef<T>, tag: bool)
    requires u < |row| && w <= cols && w <= |row| && cols > 0 && x == Coef(row[u], tag)
    requires HasRows(buf, cols, rows + [first, RunOn(row, cols, w, u)], tag)
    requires (|rows| + 1) * cols + u < |buf|
    ensures HasRows(buf[(|rows| + 1) * cols + u := x], cols, rows + [first, SecondRow(row, cols, w, u + 1)], tag)
  {
    hide HasRows, Cell;
    var r, second := |rows|, RunOn(row, cols, w, u);
    var rs := rows + [first, second];
    RowAndColumn(r + 1, u, cols);
    if u < w {
      ExtendRow(buf, cols, rs, r + 1, x, tag);
      assert second + [x.value] == SecondRow(row, cols, w, u + 1);
      assert rs[r + 1 := SecondRow(row, cols, w, u + 1)] == rows + [first, SecondRow(row, cols, w, u + 1)];
    } else {
      PadRow(buf, cols, rs, r + 1 + u / cols, u % cols, x, tag);
      assert second == SecondRow(row, cols, w, u + 1);
    }
  }

  /** However many codes are marked, the two rows of a pair stay inside a matrix of the pool. */
  lemma PairFitsPool(cfg: Calc, numCode: nat, uraw: nat, ucol: nat)
    requires numCode <= cfg.m && uraw + 3 <= cfg.k && ucol < cfg.m
    ensures 0 <= uraw * NOutputs(numCode) + ucol < cfg.k * NOutputs(cfg.m)
    ensures 0 <= (uraw + 1) * NOutputs(numCode) + ucol < cfg.k * NOutputs(cfg.m)
  {
    var cols, all := NOutputs(numCode), NOutputs(cfg.m);
    assert cols <= all && ucol < all;
    Distribute(cols, uraw, 0);
    Distribute(cols, uraw, 1);
    Bounded(uraw, cols, cfg.k, all);
    Bounded(uraw + 1, cols, cfg.k, all);
  }

  lemma Bounded(r: nat, cols: nat, k: nat, all: nat)
    requires r + 1 < k && cols <= all
    ensures 0 <= r * cols && r * cols + all <= k * all
  {
    ScaleUp(cols, 0, all, r);
    ScaleUp(r, 1, k, all);
    Distribute(all, r, 0);
    Distribute(cols, r, 0);
  }

  method FillTwo<T>(cfg: Calc, buf: array<Coef<T>>, ghost rows: seq<seq<T>>, ghost row: seq<T>,
                    numCode: nat, ghost w: nat, uraw: nat, ucol: nat, x: Coef<T>)
    requires buf.Length == cfg.k * NOutputs(cfg.m) && uraw + 3 <= cfg.k && |rows| == uraw && numCode <= cfg.m
    requires ucol < |row| <= cfg.m && w == Min(|row|, numCode) && x == Coef(row[ucol], cfg.w != 8)
    requires HasRows(buf[..], NOutputs(numCode), rows + [FirstRow(row, w, ucol),
                     SecondRow(row, NOutputs(numCode), w, ucol)], cfg.w != 8)
    modifies buf
    ensures HasRows(buf[..], NOutputs(numCode), rows + [FirstRow(row, w, ucol + 1),
                    SecondRow(row, NOutputs(numCode), w, ucol + 1)], cfg.w != 8)
  {
    hide HasRows, FirstRow, SecondRow, RunOn;
    var cols := NOutputs(numCode);
    PairFitsPool(cfg, numCode, uraw, ucol);
    ghost var b0 := buf[..];
    if cols > 0 {
      StoreFirst(b0, cols, rows, row, w, ucol, x, cfg.w != 8);
    }
    buf[uraw * cols + ucol] := x;
    ghost var b1 := b0[uraw * cols + ucol := x];
    assert buf[..] == b1;
    if cols > 0 {
      StoreSecond(b1, cols, rows, FirstRow(row, w, ucol + 1), row, w, ucol, x, cfg.w != 8);
    }
    buf[(uraw + 1) * cols + ucol] := x;
    assert buf[..] == b1[(uraw + 1) * cols + ucol := x];
    if cols == 0 {
      NoWidth(b0, rows + [FirstRow(row, w, ucol), SecondRow(row, 0, w, ucol)], buf[..], cfg.w != 8);
      assert [FirstRow(row, w, ucol + 1), SecondRow(row, 0, w, ucol + 1)]
          == [FirstRow(row, w, ucol), SecondRow(row, 0, w, ucol)];
    }
  }

  /** The rows of one data block, if it is updated. */
  method FillBlock<T>(g: Algebra<T>, cfg: Calc, mat: array<Coef<T>>, buf: array<Coef<T>>, ghost e: seq<seq<T>>,
                      numCode: nat, dataUpdates: seq<bool>, codeUpdates: seq<bool>, start: nat, end: int, i: nat,
                      uraw: nat)
    returns (uraw': nat)
    requires mat != buf && Registered(mat[..], e, cfg.k, cfg.m, cfg.w != 8) && buf.Length == cfg.k * NOutputs(cfg.m)
    requires |dataUpdates| == cfg.k == |e| && Rectangular(e, cfg.m) && |codeUpdates| == cfg.m && i < cfg.k
    requires numCode <= cfg.m && cfg.m + 2 * CountTrue(dataUpdates) < cfg.k
    requires uraw == numCode + 2 * CountTrue(dataUpdates[..i])
    requires var codes, cols := Codes(codeUpdates, start, end, cfg.m), NOutputs(numCode);
             HasRows(buf[..], cols, UnitRows(g, numCode, numCode) +
                     LooseRows(e, cfg.m, codes, cols, Min(|codes|, numCode), dataUpdates, i), cfg.w != 8)
    modifies buf
    ensures uraw' == numCode + 2 * CountTrue(dataUpdates[..i + 1])
    ensures var codes, cols := Codes(codeUpdates, start, end, cfg.m), NOutputs(numCode);
            HasRows(buf[..], cols, UnitRows(g, numCode, numCode) +
                    LooseRows(e, cfg.m, codes, cols, Min(|codes|, numCode), dataUpdates, i + 1), cfg.w != 8)
  {
    hide HasRows, Cell, CellIs, LooseRows, Registered, FirstRow, SecondRow, CountTrue, Unit, CodeRow, Codes;
    var cols := NOutputs(numCode);
    ghost var codes := Codes(codeUpdates, start, end, cfg.m);
    ghost var w := Min(|codes|, numCode);
    OneMoreBlock(e, cfg.m, codes, cols, w, dataUpdates, i);
    ghost var pairs := LooseRows(e, cfg.m, codes, cols, w, dataUpdates, i);
    uraw' := uraw;
    if dataUpdates[i] {
      ghost var units := UnitRows(g, numCode, numCode);
      CountMonotone(dataUpdates, i + 1, cfg.k);
      assert dataUpdates[..cfg.k] == dataUpdates;
      FillPair(cfg, mat, buf, e, units + pairs, numCode, i, uraw, codeUpdates, start, end);
      ghost var row := CodeRow(e, codes, i);
      ghost var pair := [FirstRow(row, w, |row|), SecondRow(row, cols, w, |row|)];
      assert (units + pairs) + pair == units + (pairs + pair);
      uraw' := uraw + 2;
    } else {
      assert pairs + [] == pairs;
    }
  }

  /** The update matrix of the section from start to end, for any announced number of codes. With
      as many announced as are marked in the section it is the update matrix. */
  method GetUpdateMat<T>(g: Algebra<T>, cfg: Calc, mat: array<Coef<T>>, buf: array<Coef<T>>, ghost e: seq<seq<T>>,
                         numData: nat, numCode: nat, dataUpdates: seq<bool>, codeUpdates: seq<bool>, start: nat,
                         end: int)
    requires mat != buf && Registered(mat[..], e, cfg.k, cfg.m, cfg.w != 8) && buf.Length == cfg.k * NOutputs(cfg.m)
    requires |dataUpdates| == cfg.k && |codeUpdates| == cfg.m
    requires numCode <= cfg.m && numData <= cfg.k && cfg.m + 2 * CountTrue(dataUpdates) < cfg.k
    modifies buf
    ensures var codes, cols := Codes(codeUpdates, start, end, cfg.m), NOutputs(numCode);
            && HasRows(buf[..], cols, LooseMatrix(g, e, cfg.m, codes, numCode, cols, dataUpdates), cfg.w != 8)
            && (numCode == |codes| ==> HasRows(buf[..], cols, UpdateRows(g, e, cfg.m, codes, dataUpdates), cfg.w != 8))
    ensures numCode == 3 ==> forall r :: 0 <= r < numData ==>
            CellIs(buf[..], NOutputs(numCode), r, 3, Coef(g.zero, false))
  {
    hide HasRows, Cell, CellIs, LooseRows, PairRows, Registered, FirstRow, SecondRow, Unit, CodeRow, Codes;
    var cols := NOutputs(numCode);
    ghost var codes := Codes(codeUpdates, start, end, cfg.m);
    ghost var w := Min(|codes|, numCode);
    FillIdentity(g, cfg, buf, numCode);
    var uraw := numCode;
    var i := 0;
    EncodeIsRectangular(mat[..], e, cfg);
    NoPairs(e, cfg.m, codes, cols, w, dataUpdates);
    assert UnitRows(g, numCode, numCode) + [] == UnitRows(g, numCode, numCode);
    while i < cfg.k
      invariant 0 <= i <= cfg.k && uraw == numCode + 2 * CountTrue(dataUpdates[..i])
      invariant HasRows(buf[..], cols, UnitRows(g, numCode, numCode) +
                LooseRows(e, cfg.m, codes, cols, w, dataUpdates, i), cfg.w != 8)
      invariant unchanged(mat)
    {
      uraw := FillBlock(g, cfg, mat, buf, e, numCode, dataUpdates, codeUpdates, start, end, i, uraw);
      i := i + 1;
    }
    assert dataUpdates[..cfg.k] == dataUpdates;
    if numCode == |codes| {
      LooseIsPairs(e, cfg.m, codes, cols, dataUpdates, cfg.k);
    }
    if numCode == 3 {
      ZeroColumn(g, cfg, buf, numData, LooseMatrix(g, e, cfg.m, codes, numCode, cols, dataUpdates));
    }
  }

  lemma EncodeIsRectangular<T>(mat: seq<Coef<T>>, e: seq<seq<T>>, cfg: Calc)
    requires Registered(mat, e, cfg.k, cfg.m, cfg.w != 8)
    ensures |e| == cfg.k && Rectangular(e, cfg.m)
  {
  }

  lemma NoPairs<T>(e: seq<seq<T>>, m: nat, codes: seq<nat>, cols: nat, w: nat, updated: seq<bool>)
    requires Rectangular(e, m) && Below(codes, m) && |e| == |updated|
    ensures LooseRows(e, m, codes, cols, w, updated, 0) == [] && CountTrue(updated[..0]) == 0
  {
  }

  lemma OneMoreBlock<T>(e: seq<seq<T>>, m: nat, codes: seq<nat>, cols: nat, w: nat, updated: seq<bool>, i: nat)
    requires Rectangular(e, m) && Below(codes, m) && i < |e| == |updated|
    ensures var row := CodeRow(e, codes, i);
            LooseRows(e, m, codes, cols, w, updated, i + 1) == LooseRows(e, m, codes, cols, w, updated, i) +
              if updated[i] then [FirstRow(row, w, |row|), SecondRow(row, cols, w, |row|)] else []
    ensures CountTrue(updated[..i + 1]) == CountTrue(updated[..i]) + if updated[i] then 1 else 0
  {
    assert updated[..i + 1][..i] == updated[..i];
  }

  lemma {:induction false} CountMonotone(s: seq<bool>, a: nat, b: nat)
    requires a <= b <= |s|
    ensures CountTrue(s[..a]) <= CountTrue(s[..b])
    decreases b - a
  {
    if a < b {
      CountMonotone(s, a, b - 1);
      assert s[..b][..b - 1] == s[..b - 1];
    }
  }

  method ZeroColumn<T>(g: Algebra<T>, cfg: Calc, buf: array<Coef<T>>, numData: nat, ghost rows: seq<seq<T>>)
    requires 3 <= cfg.m && numData <= cfg.k && buf.Length == cfg.k * NOutputs(cfg.m)
    requires HasRows(buf[..], 4, rows, cfg.w != 8) && forall r :: 0 <= r < |rows| ==> |rows[r]| <= 3
    modifies buf
    ensures HasRows(buf[..], 4, rows, cfg.w != 8)
    ensures forall r :: 0 <= r < numData ==> CellIs(buf[..], 4, r, 3, Coef(g.zero, false))
  {
    hide HasRows, Cell;
    var uraw := 0;
    while uraw < numData
      invariant 0 <= uraw <= numData && HasRows(buf[..], 4, rows, cfg.w != 8)
      invariant forall r :: 0 <= r < uraw ==> CellIs(buf[..], 4, r, 3, Coef(g.zero, false))
    {
      FitsPool(cfg, cfg.k, 3, uraw, 3);
      PadRow(buf[..], 4, rows, uraw, 3, Coef(g.zero, false), cfg.w != 8);
      forall r | 0 <= r < uraw ensures Cell(r, 3, 4) != Cell(uraw, 3, 4) {
        if Cell(r, 3, 4) == Cell(uraw, 3, 4) { CellInjective(r, 3, uraw, 3, 4); }
      }
      ghost var before := buf[..];
      buf[Cell(uraw, 3, 4)] := Coef(g.zero, false);
      forall r | 0 <= r < uraw + 1 ensures CellIs(buf[..], 4, r, 3, Coef(g.zero, false)) {
        assert r < uraw ==> CellIs(before, 4, r, 3, Coef(g.zero, false));
      }
      uraw := uraw + 1;
    }
  }

  /** Column c of n rows lies inside the buffer. */
  ghost predicate ColumnInside<T>(buf: seq<Coef<T>>, n: nat, c: nat, cols: nat) {
    forall r :: 0 <= r < n ==> Cell(r, c, cols) < |buf|
  }

  /** What the hardware computes with a matrix in a buffer: it ignores the formatting bit. */
  ghost function Output<T>(g: Algebra<T>, buf: seq<Coef<T>>, cols: nat, xs: seq<T>, c: nat): T
    requires ColumnInside(buf, |xs|, c, cols)
  {
    if xs == [] then g.zero
    else
      var n := |xs| - 1;
      g.add(Output(g, buf, cols, xs[..n], c), g.mul(buf[Cell(n, c, cols)].value, xs[n]))
  }

  lemma {:induction false} OutputOfRows<T>(g: Algebra<T>, buf: seq<Coef<T>>, cols: nat, rows: seq<seq<T>>, xs: seq<T>,
                                         c: nat, tag: bool)
    requires HasRows(buf, cols, rows, tag) && |rows| == |xs|
    requires forall r :: 0 <= r < |rows| ==> c < |rows[r]|
    ensures ColumnInside(buf, |xs|, c, cols)
    ensures Output(g, buf, cols, xs, c) == Apply(g, rows, xs, c)
    decreases |xs|
  {
    forall r | 0 <= r < |xs|
      ensures Cell(r, c, cols) < |buf|
    {
      assert CellIs(buf, cols, r, c, Coef(rows[r][c], tag));
    }
    if xs != [] {
      var n := |xs| - 1;
      assert CellIs(buf, cols, n, c, Coef(rows[n][c], tag));
      forall r', c' | 0 <= r' < n && 0 <= c' < |rows[..n][r']|
        ensures CellIs(buf, cols, r', c', Coef(rows[..n][r'][c'], tag))
      {
        assert CellIs(buf, cols, r', c', Coef(rows[r'][c'], tag));
      }
      OutputOfRows(g, buf, cols, rows[..n], xs[..n], c, tag);
    }
  }

  /** Running the vector calculation with the update matrix on the old code blocks of the
      section and the old and new contents of the changed data blocks gives the code blocks of
      the new data, as the registered encode matrix defines them. */
  lemma UpdateMatrixReencodes<T(!new)>(g: Algebra<T>, cfg: Calc, buf: seq<Coef<T>>, e: seq<seq<T>>,
                                       dataUpdates: seq<bool>, codeUpdates: seq<bool>, start: nat, end: int,
                                       old_: seq<T>, new_: seq<T>, c: nat)
    requires CharacteristicTwo(g) && |e| == cfg.k && Rectangular(e, cfg.m)
    requires |dataUpdates| == |old_| == |new_| == cfg.k && |codeUpdates| == cfg.m
    requires forall i :: 0 <= i < cfg.k && !dataUpdates[i] ==> new_[i] == old_[i]
    requires var codes := Codes(codeUpdates, start, end, cfg.m);
             c < |codes| && HasRows(buf, NOutputs(|codes|), UpdateRows(g, e, cfg.m, codes, dataUpdates), cfg.w != 8)
    ensures var codes := Codes(codeUpdates, start, end, cfg.m);
            var oldCodes := seq(|codes|, d requires 0 <= d < |codes| => Encode(g, e, old_, codes[d]));
            var input := oldCodes + PairInputs(old_, new_, dataUpdates, cfg.k);
            && ColumnInside(buf, |input|, c, NOutputs(|codes|))
            && Output(g, buf, NOutputs(|codes|), input, c) == Encode(g, e, new_, codes[c])
  {
    hide CharacteristicTwo, HasRows, UpdateRows, Cell;
    var codes := Codes(codeUpdates, start, end, cfg.m);
    var oldCodes := seq(|codes|, d requires 0 <= d < |codes| => Encode(g, e, old_, codes[d]));
    var input := oldCodes + PairInputs(old_, new_, dataUpdates, cfg.k);
    UpdateIsReencode(g, e, cfg.m, codes, dataUpdates, old_, new_, c);
    OutputOfRows(g, buf, NOutputs(|codes|), UpdateRows(g, e, cfg.m, codes, dataUpdates), input, c, cfg.w != 8);
  }

  /** What the hardware writes: one block for every announced code. */
  ghost function Outputs<T>(g: Algebra<T>, buf: seq<Coef<T>>, cols: nat, xs: seq<T>, a: nat): (ys: seq<T>)
    requires forall v :: 0 <= v < a ==> ColumnInside(buf, |xs|, v, cols)
    ensures |ys| == a && forall v :: 0 <= v < a ==> ys[v] == Output(g, buf, cols, xs, v)
  {
    seq(a, v requires 0 <= v < a => Output(g, buf, cols, xs, v))
  }

  ghost function CodeBlocks<T>(g: Algebra<T>, e: seq<seq<T>>, m: nat, data: seq<T>, codes: seq<nat>): (ys: seq<T>)
    requires Rectangular(e, m) && |e| == |data| && Below(codes, m)
    ensures |ys| == |codes| && forall v :: 0 <= v < |codes| ==> ys[v] == Encode(g, e, data, codes[v])
  {
    seq(|codes|, v requires 0 <= v < |codes| => Encode(g, e, data, codes[v]))
  }

  /** Output v of an update with a codes announced, computed with the matrix in the pool. */
  lemma OutputIsLoose<T(!new)>(g: Algebra<T>, cfg: Calc, buf: seq<Coef<T>>, e: seq<seq<T>>, updated: seq<bool>,
                               codes: seq<nat>, a: nat, old_: seq<T>, new_: seq<T>, xs: seq<T>, v: nat)
    requires Rectangular(e, cfg.m) && Below(codes, cfg.m) && v < |codes| && v < a
    requires |e| == |updated| == |old_| == |new_| && |xs| == a
    requires HasRows(buf, NOutputs(a), LooseMatrix(g, e, cfg.m, codes, a, NOutputs(a), updated), cfg.w != 8)
    ensures var input := xs + PairInputs(old_, new_, updated, |e|);
            && ColumnInside(buf, |input|, v, NOutputs(a))
            && (Output(g, buf, NOutputs(a), input, v) == Encode(g, e, new_, codes[v]) <==>
                Right(g, e, cfg.m, codes, a, NOutputs(a), updated, v, old_, new_, xs))
  {
    hide HasRows, Cell;
    assert updated[..|e|] == updated;
    var input := xs + PairInputs(old_, new_, updated, |e|);
    OutputOfRows(g, buf, NOutputs(a), LooseMatrix(g, e, cfg.m, codes, a, NOutputs(a), updated), input, v, cfg.w != 8);
  }

  /** An update that is not split writes exactly the marked code blocks of the new data if and only
      if as many codes are announced as are marked. */
  lemma UnsplitReencodesExactly<T(!new)>(g: Algebra<T>, cfg: Calc, buf: seq<Coef<T>>, e: seq<seq<T>>,
                                         updated: seq<bool>, codes: seq<nat>, a: nat, old_: seq<T>, new_: seq<T>,
                                         xs: seq<T>)
    requires CharacteristicTwo(g) && Rectangular(e, cfg.m) && Below(codes, cfg.m) && |e| == cfg.k
    requires |e| == |updated| == |old_| == |new_| && |xs| == a <= cfg.m
    requires forall i :: 0 <= i < |e| && !updated[i] ==> new_[i] == old_[i]
    requires forall v :: 0 <= v < a && v < |codes| ==> xs[v] == Encode(g, e, old_, codes[v])
    requires |buf| == cfg.k * NOutputs(cfg.m) && cfg.m + 2 * CountTrue(updated) < cfg.k
    requires HasRows(buf, NOutputs(a), LooseMatrix(g, e, cfg.m, codes, a, NOutputs(a), updated), cfg.w != 8)
    ensures var input := xs + PairInputs(old_, new_, updated, |e|);
            && (forall v :: 0 <= v < a ==> ColumnInside(buf, |input|, v, NOutputs(a)))
            && (Outputs(g, buf, NOutputs(a), input, a) == CodeBlocks(g, e, cfg.m, new_, codes) <==> a == |codes|)
  {
    hide HasRows, Cell, CharacteristicTwo, Right, SameCoefficients, Encode, Output, LooseMatrix;
    assert updated[..|e|] == updated;
    var input := xs + PairInputs(old_, new_, updated, |e|);
    forall v | 0 <= v < a
      ensures ColumnInside(buf, |input|, v, NOutputs(a))
    {
      forall r | 0 <= r < |input|
        ensures Cell(r, v, NOutputs(a)) < |buf|
      {
        FitsPool(cfg, cfg.k, a, r, v);
      }
    }
    if a == |codes| {
      forall v | 0 <= v < a
        ensures Output(g, buf, NOutputs(a), input, v) == Encode(g, e, new_, codes[v])
      {
        ReachesFarEnough(e, cfg.m, codes, NOutputs(a), updated, v);
        SameIsRight(g, e, cfg.m, codes, a, NOutputs(a), updated, v, old_, new_, xs);
        OutputIsLoose(g, cfg, buf, e, updated, codes, a, old_, new_, xs, v);
      }
    }
  }

  /** From the bytes of the user: the code blocks that an update writes. */
  lemma CodeBlocksFromBytes<T>(g: Algebra<T>, matrix: seq<T>, k: nat, m: nat, data: seq<T>, codes: seq<nat>, v: nat)
    requires |matrix| == k * m && |data| == k && Below(codes, m) && v < |codes|
    ensures forall i :: 0 <= i < k ==> 0 <= i * m + codes[v] < |matrix|
    ensures CodeBlocks(g, UserRows(matrix, k, m), m, data, codes)[v] == Dot(g, matrix, m, codes[v], data, k)
  {
    EncodeIsDot(g, matrix, k, m, data, codes[v]);
  }
}
