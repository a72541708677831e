/** The sections of large decode and update jobs, and the counter that joins them again. */
module EcJobs {
  import opened Words
  import opened EcAlgebra
  import opened EcMatrix
  import opened EcUpdate
  import opened EcSplit

  // ---------------------------------------------------------------- encode sections

  /** A section of an encode job runs with a matrix of its own, which starts four columns per
      earlier section into the registered buffer. Its outputs are the code blocks of the data. */
  lemma EncodeSectionEncodes<T>(g: Algebra<T>, mat: seq<Coef<T>>, e: seq<seq<T>>, k: nat, m: nat, data: seq<T>, j: nat,
                               tag: bool)
    requires Registered(mat, e, k, m, tag) && |data| == k && j < m
    ensures var mi := j / NUM_OUTPUTS;
            var cols := NOutputs(Cols(mi, MultNum(m), m));
            && 0 <= mi * NUM_OUTPUTS * k <= |mat|
            && var own := mat[mi * NUM_OUTPUTS * k..];
               && ColumnInside(own, k, j % NUM_OUTPUTS, cols)
               && Output(g, own, cols, data, j % NUM_OUTPUTS) == Encode(g, e, data, j)
  {
    var mi, c := j / NUM_OUTPUTS, j % NUM_OUTPUTS;
    var cols := NOutputs(Cols(mi, MultNum(m), m));
    var start := mi * NUM_OUTPUTS * k;
    if k > 0 {
      EncodeCellBound(k, m, 0, j);
    } else {
      Distribute(k, mi * NUM_OUTPUTS, 0);
    }
    var own := mat[start..];
    hide Cell, EncodeBytes, Output, Apply;
    forall i | 0 <= i < k
      ensures Cell(i, c, cols) < |own| && own[Cell(i, c, cols)].value == e[i][j]
    {
      assert HasCoef(mat, e, k, m, i, j, tag);
      assert EncodeCell(k, m, i, j) == start + Cell(i, c, cols);
    }
    OutputOfColumn(g, own, cols, e, data, c, j);
  }

  /** From the bytes of the user: what a section computes from the registered buffer for code block
      j is the sum of all data blocks times the coefficients of column j. */
  lemma EncodeFromBytes<T>(g: Algebra<T>, mat: seq<Coef<T>>, matrix: seq<T>, k: nat, m: nat, data: seq<T>, j: nat,
                           tag: bool)
    requires |matrix| == k * m && Registered(mat, UserRows(matrix, k, m), k, m, tag) && |data| == k && j < m
    ensures forall i :: 0 <= i < k ==> 0 <= i * m + j < |matrix|
    ensures var mi := j / NUM_OUTPUTS;
            var cols := NOutputs(Cols(mi, MultNum(m), m));
            && 0 <= mi * NUM_OUTPUTS * k <= |mat|
            && var own := mat[mi * NUM_OUTPUTS * k..];
               && ColumnInside(own, k, j % NUM_OUTPUTS, cols)
               && Output(g, own, cols, data, j % NUM_OUTPUTS) == Dot(g, matrix, m, j, data, k)
  {
    hide Registered, Output, ColumnInside;
    EncodeSectionEncodes(g, mat, UserRows(matrix, k, m), k, m, data, j, tag);
    EncodeIsDot(g, matrix, k, m, data, j);
  }

  lemma {:induction false} OutputOfColumn<T>(g: Algebra<T>, buf: seq<Coef<T>>, cols: nat, e: seq<seq<T>>, xs: seq<T>,
                                           c: nat, j: nat)
    requires |e| == |xs|
    requires forall i :: 0 <= i < |e| ==>
               j < |e[i]| && Cell(i, c, cols) < |buf| && buf[Cell(i, c, cols)].value == e[i][j]
    ensures ColumnInside(buf, |xs|, c, cols) && Output(g, buf, cols, xs, c) == Apply(g, e, xs, j)
    decreases |xs|
  {
    hide Cell;
    if xs != [] {
      OutputOfColumn(g, buf, cols, e[..|e| - 1], xs[..|xs| - 1], c, j);
    }
  }

  /** The encode splitter hands every section its own code blocks: code block j goes to section
      j / 4, at the column that section computes it in. */
  method SplitEncode<C>(cfg: Calc, codeBlocks: seq<C>) returns (parts: seq<seq<C>>)
    requires |codeBlocks| == cfg.m
    ensures |parts| == MultNum(cfg.m)
    ensures forall i :: 0 <= i < |parts| ==> |parts[i]| == Cols(i, MultNum(cfg.m), cfg.m)
    ensures forall j :: 0 <= j < cfg.m ==>
              && j % NUM_OUTPUTS < |parts[j / NUM_OUTPUTS]|
              && parts[j / NUM_OUTPUTS][j % NUM_OUTPUTS] == codeBlocks[j]
  {
    hide Cols, LastCols;
    var n := MultNum(cfg.m);
    parts := [];
    var i := 0;
    while i < n
      invariant i <= n && |parts| == i
      invariant forall x :: 0 <= x < i ==> IsPart(parts[x], codeBlocks, x)
    {
      PartFits(cfg.m, i);
      var first := i * NUM_OUTPUTS;
      parts := parts + [codeBlocks[first..first + Cols(i, n, cfg.m)]];
      i := i + 1;
    }
    forall j | 0 <= j < cfg.m
      ensures j % NUM_OUTPUTS < |parts[j / NUM_OUTPUTS]|
      ensures parts[j / NUM_OUTPUTS][j % NUM_OUTPUTS] == codeBlocks[j]
    {
      ColumnFits(cfg.m, j);
      assert IsPart(parts[j / NUM_OUTPUTS], codeBlocks, j / NUM_OUTPUTS);
    }
  }

  ghost predicate IsPart<C>(part: seq<C>, blocks: seq<C>, i: nat) {
    var n := Cols(i, MultNum(|blocks|), |blocks|);
    i * NUM_OUTPUTS + n <= |blocks| && part == blocks[i * NUM_OUTPUTS..i * NUM_OUTPUTS + n]
  }

  lemma PartFits(m: nat, i: nat)
    requires i < MultNum(m)
    ensures i * NUM_OUTPUTS + Cols(i, MultNum(m), m) <= m
  {
  }

  // ---------------------------------------------------------------- update sections

  /** What a section of an update job reads: its own old code blocks, then all changed pairs. */
  function SectionInput<T>(blocks: seq<T>, s: Section, numCodes: nat, numUpdated: nat): seq<T>
    requires s.offset + s.count <= numCodes && numCodes + 2 * numUpdated <= |blocks|
  {
    blocks[s.offset..s.offset + s.count] + blocks[numCodes..numCodes + 2 * numUpdated]
  }

  /** The update splitter: one array holds the input of every section in turn. A section finds
      there its own old code blocks and all changed pairs, and its outputs go to the code blocks
      from its offset on. */
  method SplitUpdate<T>(cfg: Calc, blocks: seq<T>, codeUpdates: seq<bool>, num: nat, numUpdated: nat,
                        dataUpdate: array<T>)
    returns (sections: seq<Section>, inputs: seq<seq<T>>, outputs: seq<nat>)
    requires |codeUpdates| == cfg.m && cfg.m + 2 * numUpdated < cfg.k == dataUpdate.Length
    requires num + 2 * numUpdated <= |blocks|
    modifies dataUpdate
    ensures exists next :: Cut(codeUpdates, sections, next, Served(codeUpdates, num))
    ensures |sections| == MultNum(num) <==> num <= |Chosen(codeUpdates)|
    ensures |inputs| == |outputs| == |sections|
    ensures forall k :: 0 <= k < |sections| ==>
              && sections[k].offset + sections[k].count <= num && outputs[k] == sections[k].offset
              && inputs[k] == SectionInput(blocks, sections[k], num, numUpdated)
  {
    hide Cut, Codes, CutSoFar, Served;
    sections, inputs, outputs := [], [], [];
    var i, j, total, start, codeBlocks := 0, 0, 0, 0, 0;
    CutStart(codeUpdates, num);
    while i < cfg.m && total < num
      invariant i <= cfg.m && CutSoFar(codeUpdates, num, sections, start, codeBlocks, i, j, total)
      invariant j < NUM_OUTPUTS && j <= total <= i && total == codeBlocks + j <= num
      invariant dataUpdate[..j] == blocks[codeBlocks..total]
      invariant |inputs| == |outputs| == |sections|
      invariant forall k :: 0 <= k < |sections| ==>
                  && sections[k].offset + sections[k].count <= num && outputs[k] == sections[k].offset
                  && inputs[k] == SectionInput(blocks, sections[k], num, numUpdated)
    {
      CutStep(codeUpdates, num, sections, start, codeBlocks, i, j, total);
      if codeUpdates[i] {
        Append(dataUpdate, j, [blocks[total]]);
        OneBlockMore(blocks, codeBlocks, total);
        j := j + 1;
        total := total + 1;
      }
      if j == NUM_OUTPUTS || total == num {
        Append(dataUpdate, j, blocks[num..num + 2 * numUpdated]);
        var end := i;
        var section := Section(start, end, j, codeBlocks);
        sections := sections + [section];
        inputs := inputs + [dataUpdate[..j + 2 * numUpdated]];
        outputs := outputs + [codeBlocks];
        start := i + 1;
        codeBlocks := codeBlocks + j;
        j := 0;
      }
      i := i + 1;
    }
    CutDone(codeUpdates, num, sections, start, codeBlocks, i, j, total);
  }

  lemma OneBlockMore<T>(blocks: seq<T>, from: nat, to: nat)
    requires from <= to < |blocks|
    ensures blocks[from..to] + [blocks[to]] == blocks[from..to + 1]
  {
  }

  /** Copies entries into the array behind the first j. */
  method Append<T>(dataUpdate: array<T>, j: nat, entries: seq<T>)
    requires j + |entries| <= dataUpdate.Length
    modifies dataUpdate
    ensures dataUpdate[..j + |entries|] == old(dataUpdate[..j]) + entries
  {
    forall x | 0 <= x < |entries| {
      dataUpdate[j + x] := entries[x];
    }
    assert dataUpdate[j..j + |entries|] == entries && dataUpdate[..j] == old(dataUpdate[..j]);
    assert dataUpdate[..j + |entries|] == dataUpdate[..j] + dataUpdate[j..j + |entries|];
  }

  function OldCodes<T>(g: Algebra<T>, e: seq<seq<T>>, m: nat, data: seq<T>, codes: seq<nat>): (o: seq<T>)
    requires Rectangular(e, m) && |e| == |data| && Below(codes, m)
    ensures |o| == |codes|
  {
    seq(|codes|, d requires 0 <= d < |codes| => Encode(g, e, data, codes[d]))
  }

  /** In a split update every updated code block r is computed by section r / 4, from the input
      of that section alone, and comes out as the code block of the new data. */
  lemma SplitUpdateReencodes<T(!new)>(g: Algebra<T>, cfg: Calc, bufs: seq<seq<Coef<T>>>, e: seq<seq<T>>,
                                      dataUpdates: seq<bool>, codeUpdates: seq<bool>, sections: seq<Section>, next: nat,
                                      old_: seq<T>, new_: seq<T>, r: nat)
    requires CharacteristicTwo(g) && |e| == cfg.k && Rectangular(e, cfg.m)
    requires |dataUpdates| == |old_| == |new_| == cfg.k && |codeUpdates| == cfg.m
    requires forall i :: 0 <= i < cfg.k && !dataUpdates[i] ==> new_[i] == old_[i]
    requires var all := Chosen(codeUpdates);
             r < |all| && Cut(codeUpdates, sections, next, |all|) && |sections| == MultNum(|all|) == |bufs|
    requires forall k :: 0 <= k < |sections| ==>
               var codes := InSection(codeUpdates, sections[k]);
               HasRows(bufs[k], NOutputs(|codes|), UpdateRows(g, e, cfg.m, codes, dataUpdates), cfg.w != 8)
    ensures var all := Chosen(codeUpdates);
            var blocks := OldCodes(g, e, cfg.m, old_, all) + PairInputs(old_, new_, dataUpdates, cfg.k);
            var s := sections[r / NUM_OUTPUTS];
            var n := CountTrue(dataUpdates);
            && s.offset <= r < s.offset + s.count <= |all| && |blocks| == |all| + 2 * n
            && var input := SectionInput(blocks, s, |all|, n);
               && ColumnInside(bufs[r / NUM_OUTPUTS], |input|, r - s.offset, NOutputs(s.count))
               && Output(g, bufs[r / NUM_OUTPUTS], NOutputs(s.count), input, r - s.offset) == Encode(g, e, new_, all[r])
  {
    hide CharacteristicTwo, HasRows, UpdateRows, Cell, Codes, Cut, Output, Encode, Apply, CountTrue, PairInputs;
    var all := Chosen(codeUpdates);
    var k := r / NUM_OUTPUTS;
    RankDecidesSection(codeUpdates, sections, next, r);
    SectionShape(codeUpdates, sections, next, |all|, k);
    var s, codes := sections[k], InSection(codeUpdates, sections[k]);
    UpdateMatrixReencodes(g, cfg, bufs[k], e, dataUpdates, codeUpdates, s.start, s.end, old_, new_, r - s.offset);
    assert dataUpdates[..cfg.k] == dataUpdates;
    var pairs := PairInputs(old_, new_, dataUpdates, cfg.k);
    InputOfSection(g, e, cfg.m, old_, all, codes, s, pairs, CountTrue(dataUpdates));
  }

  /** From the bytes of the user: what a split update computes for the r-th updated code block is
      the sum of all new data blocks times the coefficients of its column. */
  lemma SplitUpdateFromBytes<T(!new)>(g: Algebra<T>, cfg: Calc, bufs: seq<seq<Coef<T>>>, matrix: seq<T>,
                                      dataUpdates: seq<bool>, codeUpdates: seq<bool>, sections: seq<Section>, next: nat,
                                      old_: seq<T>, new_: seq<T>, r: nat)
    requires CharacteristicTwo(g) && |matrix| == cfg.k * cfg.m
    requires |dataUpdates| == |old_| == |new_| == cfg.k && |codeUpdates| == cfg.m
    requires forall i :: 0 <= i < cfg.k && !dataUpdates[i] ==> new_[i] == old_[i]
    requires var all := Chosen(codeUpdates);
             r < |all| && Cut(codeUpdates, sections, next, |all|) && |sections| == MultNum(|all|) == |bufs|
    requires forall k :: 0 <= k < |sections| ==>
               var codes := InSection(codeUpdates, sections[k]);
               HasRows(bufs[k], NOutputs(|codes|),
                       UpdateRows(g, UserRows(matrix, cfg.k, cfg.m), cfg.m, codes, dataUpdates), cfg.w != 8)
    ensures var all := Chosen(codeUpdates);
            var blocks := OldCodes(g, UserRows(matrix, cfg.k, cfg.m), cfg.m, old_, all) +
                          PairInputs(old_, new_, dataUpdates, cfg.k);
            var s := sections[r / NUM_OUTPUTS];
            var n := CountTrue(dataUpdates);
            && s.offset <= r < s.offset + s.count <= |all| && |blocks| == |all| + 2 * n
            && (forall d :: 0 <= d < |all| ==>
                  && (forall i :: 0 <= i < cfg.k ==> 0 <= i * cfg.m + all[d] < |matrix|)
                  && blocks[d] == Dot(g, matrix, cfg.m, all[d], old_, cfg.k))
            && var input := SectionInput(blocks, s, |all|, n);
               && ColumnInside(bufs[r / NUM_OUTPUTS], |input|, r - s.offset, NOutputs(s.count))
               && Output(g, bufs[r / NUM_OUTPUTS], NOutputs(s.count), input, r - s.offset)
                  == Dot(g, matrix, cfg.m, all[r], new_, cfg.k)
  {
    hide CharacteristicTwo, HasRows, UpdateRows, Cell, Codes, Cut, Output, Encode, Apply, CountTrue, PairInputs, Dot;
    hide UserRows;
    var e, all := UserRows(matrix, cfg.k, cfg.m), Chosen(codeUpdates);
    SplitUpdateReencodes(g, cfg, bufs, e, dataUpdates, codeUpdates, sections, next, old_, new_, r);
    forall d | 0 <= d < |all|
      ensures forall i :: 0 <= i < cfg.k ==> 0 <= i * cfg.m + all[d] < |matrix|
      ensures Encode(g, e, old_, all[d]) == Dot(g, matrix, cfg.m, all[d], old_, cfg.k)
    {
      EncodeIsDot(g, matrix, cfg.k, cfg.m, old_, all[d]);
    }
    EncodeIsDot(g, matrix, cfg.k, cfg.m, new_, all[r]);
  }

  lemma InputOfSection<T>(g: Algebra<T>, e: seq<seq<T>>, m: nat, data: seq<T>, all: seq<nat>, codes: seq<nat>,
                          s: Section, pairs: seq<T>, n: nat)
    requires Rectangular(e, m) && |e| == |data| && Below(all, m) && Below(codes, m)
    requires s.offset + s.count <= |all| && codes == all[s.offset..s.offset + s.count] && |pairs| == 2 * n
    ensures SectionInput(OldCodes(g, e, m, data, all) + pairs, s, |all|, n) == OldCodes(g, e, m, data, codes) + pairs
  {
    hide Encode, Rectangular, Below;
    var old_ := OldCodes(g, e, m, data, all);
    assert old_[s.offset..s.offset + s.count] == OldCodes(g, e, m, data, codes);
  }

  // ---------------------------------------------------------------- decode sections

  /** Columns from offset up to offset + n of the caller's k by m decode matrix. */
  function DecodeRows<T>(decode: seq<T>, k: nat, m: nat, offset: nat, n: nat): (rows: seq<seq<T>>)
    requires k * m <= |decode| && offset + n <= m
    ensures |rows| == k && forall i :: 0 <= i < k ==> |rows[i]| == n
  {
    seq(k, i requires 0 <= i < k => UserRow(decode[..k * m], k, m, i)[offset..offset + n])
  }

  /** Copies the section's columns of the decode matrix. For three outputs it reads one column
      too many, so the caller's matrix needs one more readable byte; that column is then
      overwritten with zeros. */
  method GetDecodeMat<T>(cfg: Calc, decode: seq<T>, m: nat, currCols: nat, offset: nat, buf: array<Coef<T>>,
                         g: Algebra<T>)
    requires 1 <= currCols <= NUM_OUTPUTS && currCols <= cfg.m && offset + currCols <= m
    requires cfg.k * m + (if currCols == 3 then 1 else 0) <= |decode|
    requires buf.Length == cfg.k * NOutputs(cfg.m)
    modifies buf
    ensures HasRows(buf[..], NOutputs(currCols), DecodeRows(decode, cfg.k, m, offset, currCols), cfg.w != 8)
    ensures currCols == 3 ==> forall r :: 0 <= r < cfg.k ==>
            CellIs(buf[..], NOutputs(currCols), r, 3, Coef(g.zero, false))
  {
    hide HasRows, Cell, CellIs;
    var cols := NOutputs(currCols);
    ghost var rows := DecodeRows(decode, cfg.k, m, offset, currCols);
    NoRows(buf[..], cols, rows[..0], cfg.w != 8);
    var i := 0;
    while i < cfg.k
      invariant 0 <= i <= cfg.k && HasRows(buf[..], cols, rows[..i], cfg.w != 8)
    {
      CopyDecodeRow(cfg, decode, m, currCols, offset, buf, i);
      assert rows[..i] + [rows[i]] == rows[..i + 1];
      i := i + 1;
    }
    assert rows[..i] == rows;
    if currCols == 3 {
      ZeroColumn(g, cfg, buf, cfg.k, rows);
    }
  }

  method CopyDecodeRow<T>(cfg: Calc, decode: seq<T>, m: nat, currCols: nat, offset: nat, buf: array<Coef<T>>, i: nat)
    requires 1 <= currCols <= NUM_OUTPUTS && currCols <= cfg.m && offset + currCols <= m && i < cfg.k
    requires cfg.k * m + (if currCols == 3 then 1 else 0) <= |decode|
    requires buf.Length == cfg.k * NOutputs(cfg.m)
    requires HasRows(buf[..], NOutputs(currCols), DecodeRows(decode, cfg.k, m, offset, currCols)[..i], cfg.w != 8)
    modifies buf
    ensures var rows := DecodeRows(decode, cfg.k, m, offset, currCols);
            HasRows(buf[..], NOutputs(currCols), rows[..i] + [rows[i]], cfg.w != 8)
  {
    hide HasRows, Cell;
    var cols := NOutputs(currCols);
    ghost var rows := DecodeRows(decode, cfg.k, m, offset, currCols);
    ghost var row := rows[i];
    EmptyRows(buf[..], cols, rows[..i], 1, cfg.w != 8);
    assert rows[..i] + seq(1, _ => []) == rows[..i] + [row[..0]];
    var j := 0;
    while j < cols
      invariant 0 <= j <= cols && HasRows(buf[..], cols, rows[..i] + [row[..Min(j, currCols)]], cfg.w != 8)
    {
      CellRow(i, cfg.k, m);
      var x := Coef(decode[i * m + j + offset], cfg.w != 8);
      FitsPool(cfg, cfg.k, currCols, i, j);
      ghost var rs := rows[..i] + [row[..Min(j, currCols)]];
      if j < currCols {
        ExtendRow(buf[..], cols, rs, i, x, cfg.w != 8);
        assert row[j] == UserRow(decode[..cfg.k * m], cfg.k, m, i)[offset + j] == decode[i * m + (offset + j)];
        assert row[..j] + [x.value] == row[..j + 1];
        assert rs[i := row[..j + 1]] == rows[..i] + [row[..j + 1]];
      } else {
        PadRow(buf[..], cols, rs, i, j, x, cfg.w != 8);
      }
      buf[Cell(i, j, cols)] := x;
      j := j + 1;
    }
    assert row[..currCols] == row;
  }

  /** The blocks that are not erased, in order, among the first n. */
  function Survivors(erased: seq<bool>, n: nat): (s: seq<nat>)
    requires n <= |erased|
    ensures |s| <= n
  {
    if n == 0 then [] else Survivors(erased, n - 1) + if erased[n - 1] then [] else [n - 1]
  }

  /** Chooses the outputs of a section, which are its erased blocks, and as inputs the first k
      surviving blocks. Fails on a block of the wrong length or on more than four outputs. */
  method SetDecodeKlms(cfg: Calc, erased: seq<bool>, lengths: seq<nat>, blockSize: nat, start: nat, end: nat)
    returns (r: Option<(seq<nat>, seq<nat>)>)
    requires |erased| == |lengths| == cfg.k + cfg.m
    ensures r.Some? ==> r.value.1 == Codes(erased, start, end, |erased|)
                        && r.value.0 == FirstSurvivors(erased, |erased|, cfg.k)
    ensures r.Some? <==>
              && |Codes(erased, start, end, |erased|)| <= NUM_OUTPUTS
              && AllLong(Codes(erased, start, end, |erased|), lengths, blockSize)
              && AllLong(FirstSurvivors(erased, |erased|, cfg.k), lengths, blockSize)
  {
    hide Survivors, FirstSurvivors, Codes;
    var ins: seq<nat>, outs: seq<nat> := [], [];
    var i := 0;
    NoneYet(erased, start, end, cfg.k);
    while i < cfg.k + cfg.m
      invariant 0 <= i <= |erased| && outs == Codes(erased, start, end, i) && |outs| <= NUM_OUTPUTS
      invariant ins == FirstSurvivors(erased, i, cfg.k)
      invariant AllLong(outs, lengths, blockSize) && AllLong(ins, lengths, blockSize)
    {
      NextBlock(erased, start, end, cfg.k, i);
      if erased[i] && start <= i <= end {
        if lengths[i] != blockSize {
          assert outs + [i] == Codes(erased, start, end, i + 1) && (outs + [i])[|outs|] == i;
          return None;
        }
        outs := outs + [i];
        if |outs| > NUM_OUTPUTS {
          return None;
        }
      } else if !erased[i] && |ins| < cfg.k {
        if lengths[i] != blockSize {
          assert ins + [i] == FirstSurvivors(erased, i + 1, cfg.k) && (ins + [i])[|ins|] == i;
          return None;
        }
        ins := ins + [i];
      }
      i := i + 1;
    }
    return Some((ins, outs));
  }

  ghost predicate AllLong(blocks: seq<nat>, lengths: seq<nat>, blockSize: nat) {
    forall k :: 0 <= k < |blocks| ==> blocks[k] < |lengths| && lengths[blocks[k]] == blockSize
  }

  /** The first k blocks that are not erased, among the first n. */
  function FirstSurvivors(erased: seq<bool>, n: nat, k: nat): (s: seq<nat>)
    requires n <= |erased|
  {
    Survivors(erased, n)[..Min(k, |Survivors(erased, n)|)]
  }

  lemma NoneYet(erased: seq<bool>, start: nat, end: nat, k: nat)
    ensures Codes(erased, start, end, 0) == [] && FirstSurvivors(erased, 0, k) == []
  {
  }

  /** What the next block adds; lists of blocks only grow. */
  lemma NextBlock(erased: seq<bool>, start: nat, end: nat, k: nat, i: nat)
    requires i < |erased|
    ensures Codes(erased, start, end, i + 1) ==
            Codes(erased, start, end, i) + if erased[i] && start <= i <= end then [i] else []
    ensures FirstSurvivors(erased, i + 1, k) ==
            FirstSurvivors(erased, i, k) + if !erased[i] && |FirstSurvivors(erased, i, k)| < k then [i] else []
    ensures Codes(erased, start, end, i + 1) <= Codes(erased, start, end, |erased|)
    ensures FirstSurvivors(erased, i + 1, k) <= FirstSurvivors(erased, |erased|, k)
  {
    NextSurvivor(erased, i);
    CodesGrow(erased, start, end, i + 1, |erased|);
    SurvivorsGrow(erased, i + 1, |erased|);
  }

  lemma {:induction false} SurvivorsGrow(erased: seq<bool>, n: nat, n': nat)
    requires n <= n' <= |erased|
    ensures Survivors(erased, n) <= Survivors(erased, n')
    decreases n' - n
  {
    if n < n' {
      SurvivorsGrow(erased, n, n' - 1);
    }
  }

  /** The surviving blocks are exactly those that are not erased, in rising order. */
  lemma {:induction false} SurvivorsExactly(erased: seq<bool>, n: nat)
    requires n <= |erased|
    ensures forall b: nat :: b in Survivors(erased, n) <==> b < n && !erased[b]
    ensures Rising(Survivors(erased, n))
  {
    if n > 0 {
      SurvivorsExactly(erased, n - 1);
      RisingStill(Survivors(erased, n - 1), n - 1);
    }
  }

  lemma NextSurvivor(erased: seq<bool>, i: nat)
    requires i < |erased|
    ensures Survivors(erased, i + 1) == Survivors(erased, i) + if erased[i] then [] else [i]
  {
  }

  /** In a split decode the r-th erased block is an output of section r / 4 only, and what is
      computed for it uses column r of the caller's decode matrix. */
  lemma SplitDecodeUsesItsColumn<T>(g: Algebra<T>, cfg: Calc, bufs: seq<seq<Coef<T>>>, decode: seq<T>,
                                    erased: seq<bool>, sections: seq<Section>, next: nat, xs: seq<T>, r: nat)
    requires var all := Chosen(erased);
             && r < |all| && Cut(erased, sections, next, |all|) && |sections| == MultNum(|all|) == |bufs|
             && cfg.k * |all| <= |decode| && |xs| == cfg.k
    requires forall k :: 0 <= k < |sections| ==>
               var s := sections[k];
               s.offset + s.count <= |Chosen(erased)| &&
               HasRows(bufs[k], NOutputs(s.count), DecodeRows(decode, cfg.k, |Chosen(erased)|, s.offset, s.count),
                 cfg.w != 8)
    ensures var all, k := Chosen(erased), r / NUM_OUTPUTS;
            var s := sections[k];
            && 0 <= r - s.offset < s.count == |InSection(erased, s)| && InSection(erased, s)[r - s.offset] == all[r]
            && (forall k' :: 0 <= k' < |sections| && k' != k ==> !(sections[k'].start <= all[r] <= sections[k'].end))
            && ColumnInside(bufs[k], cfg.k, r - s.offset, NOutputs(s.count))
            && (forall i :: 0 <= i < cfg.k ==> 0 <= i * |all| + r < |decode|)
            && Output(g, bufs[k], NOutputs(s.count), xs, r - s.offset) == Dot(g, decode, |all|, r, xs, cfg.k)
  {
    hide HasRows, Cell, Codes, Cut, DecodeRows;
    var all, k := Chosen(erased), r / NUM_OUTPUTS;
    RankDecidesSection(erased, sections, next, r);
    var s := sections[k];
    var rows := DecodeRows(decode, cfg.k, |all|, s.offset, s.count);
    OutputOfRows(g, bufs[k], NOutputs(s.count), rows, xs, r - s.offset, cfg.w != 8);
    forall i | 0 <= i < cfg.k
      ensures 0 <= i * |all| + r < |decode| && rows[i][r - s.offset] == decode[i * |all| + r]
    {
      DecodeCoefficient(decode, cfg.k, |all|, s.offset, s.count, i, r - s.offset);
    }
    assert rows[..cfg.k] == rows && xs[..cfg.k] == xs;
    ApplyIsDot(g, rows, r - s.offset, decode, |all|, r, xs, cfg.k);
  }

  lemma DecodeCoefficient<T>(decode: seq<T>, k: nat, m: nat, offset: nat, n: nat, i: nat, c: nat)
    requires k * m <= |decode| && offset + n <= m && i < k && c < n
    ensures 0 <= i * m + (offset + c) < |decode|
    ensures DecodeRows(decode, k, m, offset, n)[i][c] == decode[i * m + (offset + c)]
  {
    CellRow(i, k, m);
  }
}
