/** Jobs with more than four outputs are cut into sections of at most four, each a range of
    block indices. */
module EcSplit {
  import opened Words
  import opened EcMatrix
  import opened EcUpdate

  /** A section: the index range, how many chosen blocks lie in it, and how many before it. */
  datatype Section = Section(start: nat, end: nat, count: nat, offset: nat)

  /** All chosen block indices, in order. */
  function Chosen(marks: seq<bool>): (c: seq<nat>)
  {
    Codes(marks, 0, |marks| - 1, |marks|)
  }

  /** The chosen indices of a section. */
  function InSection(marks: seq<bool>, s: Section): seq<nat> {
    Codes(marks, s.start, s.end, |marks|)
  }

  /** Sections that follow one another from block 0 up to block next and hold the first total
      chosen blocks, all but the last of them four. */
  ghost predicate Cut(marks: seq<bool>, sections: seq<Section>, next: nat, total: nat) {
    if sections == [] then next == 0 && total == 0
    else
      var n := |sections| - 1;
      var s := sections[n];
      && 1 <= s.count <= NUM_OUTPUTS && s.start <= s.end < |marks|
      && next == s.end + 1 && total == s.offset + s.count
      && s.offset == NUM_OUTPUTS * n
      && total <= |Chosen(marks)| && InSection(marks, s) == Chosen(marks)[s.offset..total]
      && Cut(marks, sections[..n], s.start, s.offset)
  }

  /** Choosing from start on is choosing from everything and dropping what comes before. */
  lemma {:induction false} CodesFrom(marks: seq<bool>, start: nat, end: int, n: nat)
    requires start <= n <= |marks| && n - 1 <= end
    ensures Codes(marks, 0, end, n) == Codes(marks, 0, end, start) + Codes(marks, start, end, n)
    decreases n
  {
    if n == start {
      NothingBefore(marks, start, end, n);
    } else {
      CodesFrom(marks, start, end, n - 1);
    }
  }

  lemma {:induction false} NothingBefore(marks: seq<bool>, start: nat, end: int, n: nat)
    requires n <= start && n <= |marks|
    ensures Codes(marks, start, end, n) == []
    decreases n
  {
    if n != 0 {
      NothingBefore(marks, start, end, n - 1);
    }
  }

  /** Beyond the end of the range nothing is chosen. */
  lemma {:induction false} NothingAfter(marks: seq<bool>, start: nat, end: nat, n: nat)
    requires end + 1 <= n <= |marks|
    ensures Codes(marks, start, end, n) == Codes(marks, start, end, end + 1)
    decreases n
  {
    if n > end + 1 {
      NothingAfter(marks, start, end, n - 1);
    }
  }

  /** The end of the range does not matter below it. */
  lemma {:induction false} SameEnd(marks: seq<bool>, start: nat, end: int, end': int, n: nat)
    requires n <= |marks| && n - 1 <= end && n - 1 <= end'
    ensures Codes(marks, start, end, n) == Codes(marks, start, end', n)
    decreases n
  {
    if n != 0 {
      SameEnd(marks, start, end, end', n - 1);
    }
  }

  /** The chosen blocks of a closed section are a slice of all chosen blocks. */
  lemma SectionIsSlice(marks: seq<bool>, start: nat, end: nat)
    requires start <= end < |marks|
    ensures var all, last := Chosen(marks), |marks| - 1;
            var a, b := Codes(marks, 0, last, start), Codes(marks, 0, last, end + 1);
            |a| <= |b| <= |all| && Codes(marks, start, end, |marks|) == all[|a|..|b|]
  {
    hide Codes;
    var last := |marks| - 1;
    NothingAfter(marks, start, end, |marks|);
    SameEnd(marks, start, end, last, end + 1);
    CodesFrom(marks, start, last, end + 1);
    CodesGrow(marks, 0, last, end + 1, |marks|);
  }

  /** Where the cutting loop stands before block i, with j chosen blocks in the open section. */
  ghost predicate CutSoFar(marks: seq<bool>, num: nat, sections: seq<Section>, start: nat, offset: nat,
                           i: nat, j: nat, total: nat) {
    && start <= i <= |marks| && j < NUM_OUTPUTS && total == offset + j <= num && total <= i
    && Cut(marks, sections, start, offset)
    && (total < num ==>
          && total == |Codes(marks, 0, |marks| - 1, i)| && offset == |Codes(marks, 0, |marks| - 1, start)|
          && offset == NUM_OUTPUTS * |sections|)
    && (total == num ==> j == 0 && |sections| == MultNum(num))
  }

  /** How many chosen blocks lie in some section: all that were announced, unless more were
      announced than there are; then the last ones do not fill a section and are left over. */
  function Served(marks: seq<bool>, num: nat): nat {
    if num <= |Chosen(marks)| then num else NUM_OUTPUTS * (|Chosen(marks)| / NUM_OUTPUTS)
  }

  lemma CutStart(marks: seq<bool>, num: nat)
    ensures CutSoFar(marks, num, [], 0, 0, 0, 0, 0)
  {
  }

  lemma CutStep(marks: seq<bool>, num: nat, sections: seq<Section>, start: nat, offset: nat, i: nat, j: nat, total: nat)
    requires CutSoFar(marks, num, sections, start, offset, i, j, total) && i < |marks| && total < num
    ensures var j', total' := if marks[i] then j + 1 else j, if marks[i] then total + 1 else total;
            if j' == NUM_OUTPUTS || total' == num then
              CutSoFar(marks, num, sections + [Section(start, i, j', offset)], i + 1, total', i + 1, 0, total')
            else CutSoFar(marks, num, sections, start, offset, i + 1, j', total')
  {
    hide Codes, Cut;
    var j', total' := if marks[i] then j + 1 else j, if marks[i] then total + 1 else total;
    CountNext(marks, i);
    if j' == NUM_OUTPUTS || total' == num {
      AppendSection(marks, sections, start, i, j', offset);
    }
  }

  lemma CutDone(marks: seq<bool>, num: nat, sections: seq<Section>, start: nat, offset: nat, i: nat, j: nat, total: nat)
    requires CutSoFar(marks, num, sections, start, offset, i, j, total) && (i == |marks| || total >= num)
    ensures Cut(marks, sections, start, Served(marks, num))
    ensures |sections| == MultNum(num) <==> num <= |Chosen(marks)|
  {
    hide Codes;
    if total == num {
      assert num <= |Chosen(marks)|;
    } else {
      assert total == |Chosen(marks)|;
    }
  }

  /** Six announced where five are chosen: the fifth is never served, and only one of the two
      announced sections runs. */
  lemma LeftOver()
    ensures var marks := [true, true, true, true, true];
            |Chosen(marks)| == 5 && Served(marks, 6) == 4 && MultNum(6) == 2
  {
    var marks := [true, true, true, true, true];
    CodesStep(marks, 0);
    CodesStep(marks, 1);
    CodesStep(marks, 2);
    CodesStep(marks, 3);
    CodesStep(marks, 4);
    assert Codes(marks, 0, 4, 0) == [];
  }

  /** Cuts the first num chosen blocks into sections. The decode splitter counts the chosen blocks
      itself; the update splitter is told how many there are. Exactly when it is told too many,
      fewer sections run than the joint completion waits for. */
  method CutSections(marks: seq<bool>, num: nat) returns (sections: seq<Section>)
    ensures exists next :: Cut(marks, sections, next, Served(marks, num))
    ensures |sections| == MultNum(num) <==> num <= |Chosen(marks)|
  {
    hide Cut, Codes, CutSoFar, Served;
    sections := [];
    var i, j, total, start, offset := 0, 0, 0, 0, 0;
    CutStart(marks, num);
    while i < |marks| && total < num
      invariant i <= |marks| && CutSoFar(marks, num, sections, start, offset, i, j, total)
    {
      CutStep(marks, num, sections, start, offset, i, j, total);
      if marks[i] {
        j := j + 1;
        total := total + 1;
      }
      if j == NUM_OUTPUTS || total == num {
        var end := i;
        sections := sections + [Section(start, end, j, offset)];
        offset := total;
        start := i + 1;
        j := 0;
      }
      i := i + 1;
    }
    CutDone(marks, num, sections, start, offset, i, j, total);
  }

  /** The loop counts a chosen block exactly when it passes one. */
  lemma CountNext(marks: seq<bool>, i: nat)
    requires i < |marks|
    ensures var last := |marks| - 1;
            |Codes(marks, 0, last, i + 1)| == |Codes(marks, 0, last, i)| +
              (if marks[i] then 1 else 0) <= |Chosen(marks)|
    ensures i + 1 == |marks| ==> |Codes(marks, 0, |marks| - 1, i + 1)| == |Chosen(marks)|
  {
    hide Codes;
    CodesStep(marks, i);
    CodesGrow(marks, 0, |marks| - 1, i + 1, |marks|);
  }

  lemma CodesStep(marks: seq<bool>, i: nat)
    requires i < |marks|
    ensures |Codes(marks, 0, |marks| - 1, i + 1)| == |Codes(marks, 0, |marks| - 1, i)| + if marks[i] then 1 else 0
  {
  }

  lemma AppendSection(marks: seq<bool>, sections: seq<Section>, start: nat, end: nat, count: nat, offset: nat)
    requires Cut(marks, sections, start, offset) && offset == NUM_OUTPUTS * |sections|
    requires start <= end < |marks| && 1 <= count <= NUM_OUTPUTS
    requires offset == |Codes(marks, 0, |marks| - 1, start)|
    requires offset + count == |Codes(marks, 0, |marks| - 1, end + 1)|
    ensures Cut(marks, sections + [Section(start, end, count, offset)], end + 1, offset + count)
  {
    hide Codes;
    SectionIsSlice(marks, start, end);
    var sections' := sections + [Section(start, end, count, offset)];
    assert sections'[..|sections|] == sections;
  }

  /** Every section has one to four outputs, and the sections before it are full. */
  lemma {:induction false} SectionShape(marks: seq<bool>, sections: seq<Section>, next: nat, total: nat, k: nat)
    requires Cut(marks, sections, next, total) && k < |sections|
    ensures var s := sections[k];
            && 1 <= s.count <= NUM_OUTPUTS && s.offset == NUM_OUTPUTS * k && s.offset + s.count <= total
            && (k < |sections| - 1 ==> s.count == NUM_OUTPUTS)
            && s.start <= s.end < next
            && (if k == 0 then s.start == 0 else s.start == sections[k - 1].end + 1)
            && total <= |Chosen(marks)| && InSection(marks, s) == Chosen(marks)[s.offset..s.offset + s.count]
    decreases |sections|
  {
    var n := |sections| - 1;
    if n > 0 {
      SectionShape(marks, sections[..n], sections[n].start, sections[n].offset, Min(k, n - 1));
      assert k == n ==> sections[..n][n - 1] == sections[n - 1] && sections[n - 1].end + 1 == sections[n].start;
    }
  }

  /** The r-th chosen block lies in section r / 4, at place r % 4 of it, and in no other. */
  lemma RankDecidesSection(marks: seq<bool>, sections: seq<Section>, next: nat, r: nat)
    requires Cut(marks, sections, next, |Chosen(marks)|) && r < |Chosen(marks)|
    requires |sections| == MultNum(|Chosen(marks)|)
    ensures var k := r / NUM_OUTPUTS;
            && k < |sections| && 0 <= r - sections[k].offset < sections[k].count
            && |InSection(marks, sections[k])| == sections[k].count
            && InSection(marks, sections[k])[r - sections[k].offset] == Chosen(marks)[r]
    ensures forall k' :: 0 <= k' < |sections| && k' != r / NUM_OUTPUTS ==>
              !(sections[k'].start <= Chosen(marks)[r] <= sections[k'].end)
  {
    hide Codes, Cut;
    var k := r / NUM_OUTPUTS;
    SectionShape(marks, sections, next, |Chosen(marks)|, k);
    SectionShape(marks, sections, next, |Chosen(marks)|, |sections| - 1);
    LastIsFull(marks, sections, next);
    var b := Chosen(marks)[r];
    InSectionRange(marks, sections[k].start, sections[k].end, |marks|, r - sections[k].offset);
    forall k' | 0 <= k' < |sections| && k' != k
      ensures !(sections[k'].start <= b <= sections[k'].end)
    {
      if k' < k { Ordered(marks, sections, next, |Chosen(marks)|, k', k); }
      else { Ordered(marks, sections, next, |Chosen(marks)|, k, k'); }
    }
  }

  lemma LastIsFull(marks: seq<bool>, sections: seq<Section>, next: nat)
    requires Cut(marks, sections, next, |Chosen(marks)|) && sections != []
    ensures sections[|sections| - 1].offset + sections[|sections| - 1].count == |Chosen(marks)|
  {
  }

  lemma {:induction false} Ordered(marks: seq<bool>, sections: seq<Section>, next: nat, total: nat, a: nat, b: nat)
    requires Cut(marks, sections, next, total) && a < b < |sections|
    ensures sections[a].end < sections[b].start
    decreases b
  {
    SectionShape(marks, sections, next, total, b);
    if a < b - 1 {
      Ordered(marks, sections, next, total, a, b - 1);
      SectionShape(marks, sections, next, total, b - 1);
    }
  }

  lemma {:induction false} InSectionRange(marks: seq<bool>, start: nat, end: int, n: nat, c: nat)
    requires n <= |marks| && c < |Codes(marks, start, end, n)|
    ensures start <= Codes(marks, start, end, n)[c] <= end && marks[Codes(marks, start, end, n)[c]]
    decreases n
  {
    if c < |Codes(marks, start, end, n - 1)| {
      InSectionRange(marks, start, end, n - 1, c);
    }
  }
}
