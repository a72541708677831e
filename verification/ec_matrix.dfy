/** The byte matrices of the erasure-coding offload: how the encode matrix is registered, and
    how an update matrix is put together from it in a buffer of the matrix pool. */
module EcMatrix {
  import opened Words
  import opened EcAlgebra

  const NUM_OUTPUTS: nat := 4

  /** A coefficient byte: its value, and the formatting bit that is set unless w is 8. */
  datatype Coef<T> = Coef(value: T, tag: bool)

  datatype Calc = Calc(k: nat, m: nat, w: nat)

  function NOutputs(m: nat): nat {
    if m == 3 then NUM_OUTPUTS else m
  }

  function MultNum(m: nat): nat {
    (m + NUM_OUTPUTS - 1) / NUM_OUTPUTS
  }

  function LastCols(m: nat): nat {
    if m % NUM_OUTPUTS != 0 then m % NUM_OUTPUTS else NUM_OUTPUTS
  }

  function Cols(idx: nat, numMatrices: nat, m: nat): nat {
    if idx == numMatrices - 1 then LastCols(m) else NUM_OUTPUTS
  }

  /** Bytes of the buffer that holds all encode matrices. */
  function EncodeBytes(k: nat, m: nat): nat {
    ((m / NUM_OUTPUTS) * NUM_OUTPUTS + NOutputs(LastCols(m))) * k
  }

  /** Row-major position in a matrix. */
  function Cell(row: nat, col: nat, cols: nat): nat {
    row * cols + col
  }

  lemma CellInjective(r: nat, c: nat, r': nat, c': nat, cols: nat)
    requires c < cols && c' < cols && Cell(r, c, cols) == Cell(r', c', cols)
    ensures r == r' && c == c'
  {
    DivModUnique(r, c, cols);
    DivModUnique(r', c', cols);
  }

  lemma CellBound(r: nat, c: nat, rows: nat, cols: nat)
    requires r < rows && c < cols
    ensures Cell(r, c, cols) < rows * cols
  {
    Distribute(cols, rows, r);
    Distribute(cols, r, 0);
    Multiple(cols, rows - r);
  }

  /** Where the encode matrix keeps the coefficient of data block i for code block j: the
      columns are cut into matrices of four, stored one after the other. */
  function EncodeCell(k: nat, m: nat, i: nat, j: nat): nat {
    var mi := j / NUM_OUTPUTS;
    mi * NUM_OUTPUTS * k + Cell(i, j % NUM_OUTPUTS, NOutputs(Cols(mi, MultNum(m), m)))
  }

  /** A last matrix of three columns is stored with a fourth one. */
  function PaddedCols(m: nat): nat {
    if m % NUM_OUTPUTS == 3 then m + 1 else m
  }

  /** Column j lies in an existing matrix, at a column that matrix has. */
  lemma ColumnFits(m: nat, j: nat)
    requires j < PaddedCols(m)
    ensures var mi := j / NUM_OUTPUTS;
            && mi < MultNum(m) && Cols(mi, MultNum(m), m) <= NUM_OUTPUTS
            && j % NUM_OUTPUTS < NOutputs(Cols(mi, MultNum(m), m))
            && (j < m ==> j % NUM_OUTPUTS < Cols(mi, MultNum(m), m))
            && Cols(mi, MultNum(m), m) <= NOutputs(Cols(mi, MultNum(m), m)) <= NUM_OUTPUTS
            && mi * NUM_OUTPUTS + NOutputs(Cols(mi, MultNum(m), m))
               <= (m / NUM_OUTPUTS) * NUM_OUTPUTS + NOutputs(LastCols(m))
  {
  }

  lemma EncodeCellBound(k: nat, m: nat, i: nat, j: nat)
    requires i < k && j < PaddedCols(m)
    ensures EncodeCell(k, m, i, j) < EncodeBytes(k, m)
  {
    ColumnFits(m, j);
    var mi := j / NUM_OUTPUTS;
    var cols := NOutputs(Cols(mi, MultNum(m), m));
    CellBound(i, j % NUM_OUTPUTS, k, cols);
    ScaleUp(mi * NUM_OUTPUTS, cols, (m / NUM_OUTPUTS) * NUM_OUTPUTS + NOutputs(LastCols(m)), k);
  }

  lemma ScaleUp(a: nat, b: nat, c: nat, k: nat)
    requires a + b <= c
    ensures a * k + k * b <= c * k
  {
    assert c * k == a * k + b * k + (c - a - b) * k;
  }

  lemma EncodeCellInjective(k: nat, m: nat, i: nat, j: nat, i': nat, j': nat)
    requires i < k && j < PaddedCols(m) && i' < k && j' < PaddedCols(m)
    requires EncodeCell(k, m, i, j) == EncodeCell(k, m, i', j')
    ensures i == i' && j == j'
  {
    if j / NUM_OUTPUTS == j' / NUM_OUTPUTS {
      ColumnFits(m, j);
      ColumnFits(m, j');
      CellInjective(i, j % NUM_OUTPUTS, i', j' % NUM_OUTPUTS, NOutputs(Cols(j / NUM_OUTPUTS, MultNum(m), m)));
    } else if j / NUM_OUTPUTS < j' / NUM_OUTPUTS {
      MatricesInOrder(k, m, i, j, i', j');
    } else {
      MatricesInOrder(k, m, i', j', i, j);
    }
  }

  lemma MatricesInOrder(k: nat, m: nat, i: nat, j: nat, i': nat, j': nat)
    requires i < k && j < PaddedCols(m) && i' < k && j' < PaddedCols(m) && j / NUM_OUTPUTS < j' / NUM_OUTPUTS
    ensures EncodeCell(k, m, i, j) < EncodeCell(k, m, i', j')
  {
    ColumnFits(m, j);
    var mi, mi' := j / NUM_OUTPUTS, j' / NUM_OUTPUTS;
    var cols := NOutputs(Cols(mi, MultNum(m), m));
    CellBound(i, j % NUM_OUTPUTS, k, cols);
    ScaleUp(mi * NUM_OUTPUTS, cols, mi' * NUM_OUTPUTS, k);
  }

  /** The registered buffer holds the user's matrix, coefficient by coefficient, each with the
      formatting bit or each without. */
  ghost predicate Registered<T>(mat: seq<Coef<T>>, e: seq<seq<T>>, k: nat, m: nat, tag: bool)
  {
    && |mat| == EncodeBytes(k, m) && |e| == k && Rectangular(e, m)
    && forall i, j :: 0 <= i < k && 0 <= j < m ==> HasCoef(mat, e, k, m, i, j, tag)
  }

  ghost predicate HasCoef<T>(mat: seq<Coef<T>>, e: seq<seq<T>>, k: nat, m: nat, i: nat, j: nat, tag: bool) {
    && EncodeCell(k, m, i, j) < |mat| && i < |e| && j < |e[i]|
    && mat[EncodeCell(k, m, i, j)] == Coef(e[i][j], tag)
  }

  function UserRow<T>(matrix: seq<T>, k: nat, m: nat, i: nat): (row: seq<T>)
    requires |matrix| == k * m && i < k
    ensures |row| == m
    ensures forall j :: 0 <= j < m ==> 0 <= i * m + j < |matrix| && row[j] == matrix[i * m + j]
  {
    CellRow(i, k, m);
    matrix[i * m..i * m + m]
  }

  /** The user's k by m matrix, row by row. */
  function UserRows<T>(matrix: seq<T>, k: nat, m: nat): (e: seq<seq<T>>)
    requires |matrix| == k * m
    ensures |e| == k && Rectangular(e, m)
  {
    seq(k, i requires 0 <= i < k => UserRow(matrix, k, m, i))
  }

  lemma CellRow(i: nat, k: nat, m: nat)
    requires i < k
    ensures 0 <= i * m <= (i + 1) * m <= k * m && (i + 1) * m == i * m + m
  {
    Distribute(m, k, i + 1);
    Multiple(m, k - i - 1);
    assert m * (k - (i + 1)) >= 0;
  }

  /** Every coefficient of the columns below j0, and of column j0 on in rows below i0 or in
      row i0 left of column j1, has been stored. */
  ghost predicate Stored<T>(mat: seq<Coef<T>>, e: seq<seq<T>>, k: nat, m: nat, lo: nat, i0: nat, c0: nat, tag: bool)
    requires |e| == k && Rectangular(e, m)
  {
    forall i, j :: 0 <= i < k && 0 <= j < m
                   && (j < lo || (j < lo + NUM_OUTPUTS && (i < i0 || (i == i0 && j < lo + c0))))
                   ==> HasCoef(mat, e, k, m, i, j, tag)
  }

  lemma StoreOne<T>(mat: seq<Coef<T>>, e: seq<seq<T>>, k: nat, m: nat, lo: nat, i0: nat, c0: nat, x: Coef<T>, tag: bool)
    requires |e| == k && Rectangular(e, m) && |mat| == EncodeBytes(k, m) && Stored(mat, e, k, m, lo, i0, c0, tag)
    requires i0 < k && lo + c0 < m && x == Coef(e[i0][lo + c0], tag)
    ensures EncodeCell(k, m, i0, lo + c0) < |mat|
    ensures Stored(mat[EncodeCell(k, m, i0, lo + c0) := x], e, k, m, lo, i0, c0 + 1, tag)
  {
    EncodeCellBound(k, m, i0, lo + c0);
    var p := EncodeCell(k, m, i0, lo + c0);
    var mat' := mat[p := x];
    forall i, j | 0 <= i < k && 0 <= j < m
                  && (j < lo || (j < lo + NUM_OUTPUTS && (i < i0 || (i == i0 && j < lo + c0 + 1))))
      ensures HasCoef(mat', e, k, m, i, j, tag)
    {
      hide EncodeCell;
      if i != i0 || j != lo + c0 {
        assert HasCoef(mat, e, k, m, i, j, tag);
        if EncodeCell(k, m, i, j) == p { EncodeCellInjective(k, m, i, j, i0, lo + c0); }
      }
    }
  }

  /** The fourth column beside a last matrix of three stays as the buffer was cleared. */
  ghost predicate Padding<T>(mat: seq<Coef<T>>, zero: T, k: nat, m: nat) {
    |mat| == EncodeBytes(k, m) && forall i :: 0 <= i < k && PaddedCols(m) > m ==> IsPad(mat, zero, k, m, i)
  }

  ghost predicate IsPad<T>(mat: seq<Coef<T>>, zero: T, k: nat, m: nat, i: nat) {
    EncodeCell(k, m, i, m) < |mat| && mat[EncodeCell(k, m, i, m)] == Coef(zero, false)
  }

  lemma PaddingStays<T>(mat: seq<Coef<T>>, zero: T, k: nat, m: nat, i: nat, j: nat, x: Coef<T>)
    requires Padding(mat, zero, k, m) && i < k && j < m
    ensures EncodeCell(k, m, i, j) < |mat| && Padding(mat[EncodeCell(k, m, i, j) := x], zero, k, m)
  {
    hide EncodeCell, EncodeBytes;
    EncodeCellBound(k, m, i, j);
    var mat' := mat[EncodeCell(k, m, i, j) := x];
    forall r | 0 <= r < k && PaddedCols(m) > m
      ensures IsPad(mat', zero, k, m, r)
    {
      assert IsPad(mat, zero, k, m, r);
      if EncodeCell(k, m, r, m) == EncodeCell(k, m, i, j) {
        EncodeCellInjective(k, m, r, m, i, j);
      }
    }
  }

  lemma PaddingClear<T>(mat: seq<Coef<T>>, zero: T, k: nat, m: nat)
    requires |mat| == EncodeBytes(k, m) && forall c :: 0 <= c < |mat| ==> mat[c] == Coef(zero, false)
    ensures Padding(mat, zero, k, m)
  {
    hide EncodeCell, EncodeBytes;
    forall i | 0 <= i < k && PaddedCols(m) > m
      ensures IsPad(mat, zero, k, m, i)
    {
      EncodeCellBound(k, m, i, m);
    }
  }

  /** The coefficient of data block i for code block j is byte i * m + j of the user's matrix. */
  ghost predicate HoldsByte<T>(mat: seq<Coef<T>>, matrix: seq<T>, k: nat, m: nat, tag: bool, i: nat, j: nat) {
    && i * m + j < |matrix| && EncodeCell(k, m, i, j) < |mat|
    && mat[EncodeCell(k, m, i, j)] == Coef(matrix[i * m + j], tag)
  }

  ghost predicate HoldsBytes<T>(mat: seq<Coef<T>>, matrix: seq<T>, k: nat, m: nat, tag: bool) {
    forall i, j :: 0 <= i < k && 0 <= j < m ==> HoldsByte(mat, matrix, k, m, tag, i, j)
  }

  lemma RegisteredBytes<T>(mat: seq<Coef<T>>, matrix: seq<T>, k: nat, m: nat, tag: bool)
    requires |matrix| == k * m && Registered(mat, UserRows(matrix, k, m), k, m, tag)
    ensures HoldsBytes(mat, matrix, k, m, tag)
  {
    hide HoldsByte, UserRows, Registered;
    forall i, j | 0 <= i < k && 0 <= j < m
      ensures HoldsByte(mat, matrix, k, m, tag, i, j)
    {
      RegisteredByte(mat, matrix, k, m, tag, i, j);
    }
  }

  lemma RegisteredByte<T>(mat: seq<Coef<T>>, matrix: seq<T>, k: nat, m: nat, tag: bool, i: nat, j: nat)
    requires |matrix| == k * m && Registered(mat, UserRows(matrix, k, m), k, m, tag) && i < k && j < m
    ensures HoldsByte(mat, matrix, k, m, tag, i, j)
  {
    hide EncodeCell, EncodeBytes, UserRows;
    InUserMatrix(matrix, k, m, i, j);
    assert HasCoef(mat, UserRows(matrix, k, m), k, m, i, j, tag);
  }

  lemma InUserMatrix<T>(matrix: seq<T>, k: nat, m: nat, i: nat, j: nat)
    requires |matrix| == k * m && i < k && j < m
    ensures 0 <= i * m + j < |matrix| && UserRows(matrix, k, m)[i][j] == matrix[i * m + j]
  {
    CellRow(i, k, m);
  }

  /** The code block that the user's matrix defines. */
  lemma EncodeIsDot<T>(g: Algebra<T>, matrix: seq<T>, k: nat, m: nat, data: seq<T>, j: nat)
    requires |matrix| == k * m && |data| == k && j < m
    ensures forall i :: 0 <= i < k ==> 0 <= i * m + j < |matrix|
    ensures Encode(g, UserRows(matrix, k, m), data, j) == Dot(g, matrix, m, j, data, k)
  {
    hide UserRows;
    var e := UserRows(matrix, k, m);
    forall i | 0 <= i < k
      ensures 0 <= i * m + j < |matrix| && e[i][j] == matrix[i * m + j]
    {
      InUserMatrix(matrix, k, m, i, j);
    }
    assert e[..k] == e && data[..k] == data;
    ApplyIsDot(g, e, j, matrix, m, j, data, k);
  }

  /** Cuts the user's matrix into matrices of at most four columns and stores them. */
  method RegEncodeMatrix<T(0)>(cfg: Calc, matrix: seq<T>, zero: T) returns (mat: array<Coef<T>>)
    requires |matrix| == cfg.k * cfg.m
    ensures fresh(mat) && Registered(mat[..], UserRows(matrix, cfg.k, cfg.m), cfg.k, cfg.m, cfg.w != 8)
    ensures Padding(mat[..], zero, cfg.k, cfg.m)
    ensures HoldsBytes(mat[..], matrix, cfg.k, cfg.m, cfg.w != 8)
  {
    hide EncodeCell, HasCoef, EncodeBytes, Cell, Padding, HoldsBytes;
    var k, m := cfg.k, cfg.m;
    ghost var e := UserRows(matrix, k, m);
    mat := new Coef<T>[EncodeBytes(k, m)](_ => Coef(zero, false));
    PaddingClear(mat[..], zero, k, m);
    var mi := 0;
    while mi < MultNum(m)
      invariant 0 <= mi <= MultNum(m)
      invariant Stored(mat[..], e, k, m, mi * NUM_OUTPUTS, 0, 0, cfg.w != 8) && Padding(mat[..], zero, k, m)
    {
      StoreMatrix(cfg, matrix, mat, mi, zero);
      assert Stored(mat[..], e, k, m, (mi + 1) * NUM_OUTPUTS, 0, 0, cfg.w != 8);
      mi := mi + 1;
    }
    RegisteredBytes(mat[..], matrix, k, m, cfg.w != 8);
  }

  method StoreMatrix<T>(cfg: Calc, matrix: seq<T>, mat: array<Coef<T>>, mi: nat, ghost zero: T)
    requires |matrix| == cfg.k * cfg.m && mat.Length == EncodeBytes(cfg.k, cfg.m) && mi < MultNum(cfg.m)
    requires Stored(mat[..], UserRows(matrix, cfg.k, cfg.m), cfg.k, cfg.m, mi * NUM_OUTPUTS, 0, 0, cfg.w != 8)
    requires Padding(mat[..], zero, cfg.k, cfg.m)
    modifies mat
    ensures Padding(mat[..], zero, cfg.k, cfg.m)
    ensures Stored(mat[..], UserRows(matrix, cfg.k, cfg.m), cfg.k, cfg.m, mi * NUM_OUTPUTS, cfg.k, 0, cfg.w != 8)
  {
    hide EncodeCell, HasCoef, EncodeBytes, Cell, UserRows, Padding;
    var k, m := cfg.k, cfg.m;
    ghost var e := UserRows(matrix, k, m);
    var i := 0;
    while i < k
      invariant 0 <= i <= k && Stored(mat[..], e, k, m, mi * NUM_OUTPUTS, i, 0, cfg.w != 8)
      invariant Padding(mat[..], zero, k, m)
    {
      StoreRow(cfg, matrix, mat, mi, i, zero);
      i := i + 1;
    }
  }

  method StoreRow<T>(cfg: Calc, matrix: seq<T>, mat: array<Coef<T>>, mi: nat, i: nat, ghost zero: T)
    requires |matrix| == cfg.k * cfg.m && mat.Length == EncodeBytes(cfg.k, cfg.m) && mi < MultNum(cfg.m) && i < cfg.k
    requires Stored(mat[..], UserRows(matrix, cfg.k, cfg.m), cfg.k, cfg.m, mi * NUM_OUTPUTS, i, 0, cfg.w != 8)
    requires Padding(mat[..], zero, cfg.k, cfg.m)
    modifies mat
    ensures Padding(mat[..], zero, cfg.k, cfg.m)
    ensures Stored(mat[..], UserRows(matrix, cfg.k, cfg.m), cfg.k, cfg.m, mi * NUM_OUTPUTS, i + 1, 0, cfg.w != 8)
  {
    hide HasCoef, EncodeBytes, EncodeCell, Padding, Stored, UserRows, Cols, LastCols;
    var k, m := cfg.k, cfg.m;
    ghost var e := UserRows(matrix, k, m);
    var currM := Cols(mi, MultNum(m), m);
    var offset := mi * NUM_OUTPUTS;
    var base := offset * k;
    var currCols := NOutputs(currM);
    var j := 0;
    while j < currCols
      invariant 0 <= j <= currCols
      invariant Stored(mat[..], e, k, m, offset, i, Min(j, currM), cfg.w != 8) && Padding(mat[..], zero, k, m)
    {
      if !(j == 3 && currM == 3) {
        SameMatrix(m, mi, j);
        CellOfStore(matrix, k, m, mi, i, j);
        var x := Coef(matrix[i * m + j + offset], cfg.w != 8);
        StoreOne(mat[..], e, k, m, offset, i, j, x, cfg.w != 8);
        PaddingStays(mat[..], zero, k, m, i, offset + j, x);
        ghost var mat' := mat[..][EncodeCell(k, m, i, offset + j) := x];
        mat[base + (i * currCols + j)] := x;
        assert mat[..] == mat';
      }
      j := j + 1;
    }
    RowStored(mat[..], e, k, m, mi, i, cfg.w != 8);
  }

  /** The byte that is stored, and the coefficient that is read, for column j of matrix mi. */
  lemma CellOfStore<T>(matrix: seq<T>, k: nat, m: nat, mi: nat, i: nat, j: nat)
    requires |matrix| == k * m && i < k && mi < MultNum(m) && j < Cols(mi, MultNum(m), m)
    ensures var offset := mi * NUM_OUTPUTS;
            && offset * k + (i * NOutputs(Cols(mi, MultNum(m), m)) + j) == EncodeCell(k, m, i, offset + j)
            && offset + j < m && 0 <= i * m + j + offset < |matrix|
            && UserRows(matrix, k, m)[i][offset + j] == matrix[i * m + j + offset]
  {
    hide Cols, LastCols, MultNum;
    SameMatrix(m, mi, j);
    InUserMatrix(matrix, k, m, i, mi * NUM_OUTPUTS + j);
  }

  lemma RowStored<T>(mat: seq<Coef<T>>, e: seq<seq<T>>, k: nat, m: nat, mi: nat, i: nat, tag: bool)
    requires |e| == k && Rectangular(e, m) && mi < MultNum(m)
    requires Stored(mat, e, k, m, mi * NUM_OUTPUTS, i, Cols(mi, MultNum(m), m), tag)
    ensures Stored(mat, e, k, m, mi * NUM_OUTPUTS, i + 1, 0, tag)
  {
    hide HasCoef, EncodeCell;
    assert mi == MultNum(m) - 1 ==> m == mi * NUM_OUTPUTS + Cols(mi, MultNum(m), m);
  }

  lemma SameMatrix(m: nat, mi: nat, j: nat)
    requires mi < MultNum(m) && j < Cols(mi, MultNum(m), m)
    ensures mi * NUM_OUTPUTS + j < m && (mi * NUM_OUTPUTS + j) / NUM_OUTPUTS == mi
            && (mi * NUM_OUTPUTS + j) % NUM_OUTPUTS == j
  {
  }
}
