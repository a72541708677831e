/** The bottom-up merge sort of the hash table, on the links of the list. Bucket links are never
    touched. */
module UthashSort {
  import opened Words
  import opened UthashChain
  import opened UthashExpand
  import opened Uthash
  import opened UthashOrder

  /** A stretch of the list by its next links: consecutive elements, whatever follows them. */
  ghost predicate Stretch(first: Node?, list: seq<Node>)
    reads list`next
  {
    && (list != [] ==> first == list[0])
    && forall i, j :: 0 <= i < j < |list| && j == i + 1 ==> list[i].next == list[j]
  }

  /** The list to its end by its next links. */
  ghost predicate ToTheEnd(first: Node?, list: seq<Node>)
    reads list`next
  {
    Stretch(first, list) && (list == [] <==> first == null) && (list != [] ==> list[|list| - 1].next == null)
  }

  /** What has been merged so far: linked both ways, with the link out of its tail still open. */
  ghost predicate Merged(first: Node?, tail: Node?, out: seq<Node>)
    reads out`next, out`prev
  {
    && Distinct(out) && (out == [] <==> first == null) && (out == [] <==> tail == null)
    && (out != [] ==> first == out[0] && tail == out[|out| - 1] && out[0].prev == null)
    && forall i, j :: 0 <= i < j < |out| && j == i + 1 ==> out[i].next == out[j] && out[j].prev == out[i]
  }

  ghost predicate Apart(a: seq<Node>, b: seq<Node>) {
    forall x <- a :: x !in b
  }

  ghost predicate Within(list: seq<Node>, nodes: set<Node>) {
    forall x <- list :: x in nodes
  }

  /** Appends one element to what has been merged. */
  method Emit(first: Node?, tail: Node?, e: Node, ghost out: seq<Node>) returns (first': Node)
    requires Merged(first, tail, out) && e !in out
    modifies e`prev, out`next
    ensures Merged(first', e, out + [e])
  {
    first' := if first != null then first else e;
    if tail != null {
      tail.next := e;
    }
    e.prev := tail;
  }

  /** Steps over up to k elements. */
  method Skip(p: Node, k: nat, ghost list: seq<Node>) returns (q: Node?, psize: nat)
    requires ToTheEnd(p, list) && k > 0
    ensures psize == Min(k, |list|) && Stretch(p, list[..psize]) && ToTheEnd(q, list[psize..])
  {
    q := p;
    psize := 0;
    var i := 0;
    while i < k && q != null
      invariant psize == i <= k && psize <= |list| && ToTheEnd(q, list[psize..])
      decreases k - i
    {
      StepOn(q, list[psize..]);
      assert list[psize..][1..] == list[psize + 1..];
      psize := psize + 1;
      q := q.next;
      i := i + 1;
    }
  }

  lemma StepOn(p: Node, list: seq<Node>)
    requires ToTheEnd(p, list)
    ensures list != [] && p == list[0] && ToTheEnd(p.next, list[1..])
  {
    if |list| > 1 {
      assert list[0].next == list[1];
      assert list[1..][|list| - 2] == list[|list| - 1];
    }
  }

  lemma StepInside(p: Node?, list: seq<Node>)
    requires Stretch(p, list) && list != []
    ensures p == list[0] && Stretch(list[0].next, list[1..])
  {
    if |list| > 1 { assert list[0].next == list[1]; }
  }

  /** In the middle of a merge: what is merged, what is left of the first run, and everything from
      the second run on. */
  ghost predicate Merging(first: Node?, tail: Node?, p: Node?, q: Node?, out: seq<Node>, ps: seq<Node>, qs: seq<Node>)
    reads out`next, out`prev, ps`next, qs`next
  {
    && Merged(first, tail, out) && Stretch(p, ps) && ToTheEnd(q, qs)
    && Distinct(ps) && Distinct(qs) && Apart(out, ps) && Apart(out, qs) && Apart(ps, qs)
  }

  /** Moving the first element of one run to what is merged keeps the three apart. */
  lemma TailApart(out: seq<Node>, run: seq<Node>, other: seq<Node>)
    requires Distinct(out) && Distinct(run) && run != [] && Apart(out, run) && Apart(out, other)
    requires Apart(run, other) || Apart(other, run)
    ensures Distinct(out + [run[0]]) && Distinct(run[1..]) && Apart(out, run[1..])
    ensures Apart(out + [run[0]], run[1..]) && Apart(out + [run[0]], other)
    ensures Apart(run[1..], other) && Apart(other, run[1..])
  {
    assert forall x <- run[1..] :: x in run && x != run[0];
    assert run[0] in run && forall i :: 0 <= i < |out| ==> out[i] !in run;
  }

  method TakeFirst(first: Node?, tail: Node?, p: Node, q: Node?, ghost out: seq<Node>, ghost ps: seq<Node>,
                   ghost qs: seq<Node>)
    returns (first': Node, p': Node?)
    requires Merging(first, tail, p, q, out, ps, qs) && ps != [] && p == ps[0]
    modifies p`prev, out`next
    ensures Merging(first', p, p', q, out + [p], ps[1..], qs)
  {
    StepInside(p, ps);
    p' := p.next;
    TailApart(out, ps, qs);
    first' := Emit(first, tail, p, out);
    assert forall x <- ps[1..] :: x.next == old(x.next);
    assert forall x <- qs :: x.next == old(x.next);
  }

  method TakeSecond(first: Node?, tail: Node?, p: Node?, q: Node, ghost out: seq<Node>, ghost ps: seq<Node>,
                    ghost qs: seq<Node>)
    returns (first': Node, q': Node?)
    requires Merging(first, tail, p, q, out, ps, qs)
    modifies q`prev, out`next
    ensures qs != [] && q == qs[0]
    ensures Merging(first', q, p, q', out + [q], ps, qs[1..])
  {
    StepOn(q, qs);
    q' := q.next;
    TailApart(out, qs, ps);
    first' := Emit(first, tail, q, out);
    assert forall x <- qs[1..] :: x.next == old(x.next);
    assert forall x <- ps :: x.next == old(x.next);
  }

  /** The part of a list that belongs to the second run. */
  ghost function Run(qs: seq<Node>, k: nat): seq<Node> {
    qs[..Min(k, |qs|)]
  }

  ghost function Rest(qs: seq<Node>, k: nat): seq<Node> {
    qs[Min(k, |qs|)..]
  }

  lemma MergeTakesFirst(out: seq<Node>, ps: seq<Node>, run: seq<Node>, cmp: Compare)
    requires ps != [] && (run == [] || cmp(ps[0], run[0]) <= 0)
    ensures out + [ps[0]] + Merge(ps[1..], run, cmp) == out + Merge(ps, run, cmp)
  {
    var m := Merge(ps[1..], run, cmp);
    if run == [] {
      MergeNone(ps, cmp);
      MergeNone(ps[1..], cmp);
      assert [ps[0]] + ps[1..] == ps;
    }
    assert Merge(ps, run, cmp) == [ps[0]] + m;
    Reassociate(out, ps[0], m);
  }

  lemma Reassociate(out: seq<Node>, x: Node, m: seq<Node>)
    ensures out + [x] + m == out + ([x] + m)
  {
  }

  lemma MergeTakesSecond(out: seq<Node>, ps: seq<Node>, qs: seq<Node>, k: nat, cmp: Compare)
    requires qs != [] && k > 0 && (ps == [] || !(cmp(ps[0], qs[0]) <= 0))
    ensures out + [qs[0]] + Merge(ps, Run(qs[1..], k - 1), cmp) == out + Merge(ps, Run(qs, k), cmp)
    ensures Rest(qs, k) == Rest(qs[1..], k - 1)
  {
    assert Run(qs, k)[1..] == Run(qs[1..], k - 1);
    var m := Merge(ps, Run(qs, k)[1..], cmp);
    assert Merge(ps, Run(qs, k), cmp) == [qs[0]] + m;
    Reassociate(out, qs[0], m);
  }

  lemma RunFirst(qs: seq<Node>, k: nat)
    ensures Run(qs, k) == [] <==> k == 0 || qs == []
    ensures Run(qs, k) != [] ==> Run(qs, k)[0] == qs[0]
  {
  }

  lemma WithinStep(out: seq<Node>, run: seq<Node>, nodes: set<Node>)
    requires Within(out, nodes) && Within(run, nodes) && run != []
    ensures run[0] in nodes && Within(out + [run[0]], nodes) && Within(run[1..], nodes)
  {
  }

  /** Merges a run of k elements with the run of up to k elements after it. */
  method MergeRuns(first: Node?, tail: Node?, p: Node, psize: nat, q: Node?, k: nat, cmp: Compare,
                   ghost out: seq<Node>, ghost ps: seq<Node>, ghost qs: seq<Node>, ghost nodes: set<Node>)
    returns (first': Node?, tail': Node?, q': Node?)
    requires Merging(first, tail, p, q, out, ps, qs) && psize == |ps|
    requires Within(out, nodes) && Within(ps, nodes) && Within(qs, nodes)
    modifies nodes`next, nodes`prev
    ensures Merging(first', tail', null, q', out + Merge(ps, Run(qs, k), cmp), [], Rest(qs, k))
  {
    hide Merging, Merge, Run, Rest, Within;
    var p': Node?, left, right := p, psize, k;
    first', tail', q' := first, tail, q;
    ghost var now: seq<Node>, fs: seq<Node>, ss: seq<Node> := out, ps, qs;
    while left != 0 || (right != 0 && q' != null)
      invariant Merging(first', tail', p', q', now, fs, ss) && left == |fs|
      invariant now + Merge(fs, Run(ss, right), cmp) == out + Merge(ps, Run(qs, k), cmp)
      invariant Rest(ss, right) == Rest(qs, k)
      invariant Within(now, nodes) && Within(fs, nodes) && Within(ss, nodes)
      decreases |fs| + |ss|
    {
      first', tail', p', left, q', right, now, fs, ss :=
        MergeOne(first', tail', p', left, q', right, cmp, now, fs, ss, nodes);
    }
    Parts(first', tail', p', q', now, fs, ss);
    NothingToMerge(ss, right, cmp);
    assert fs == [];
    assert now + [] == now;
  }

  lemma NothingToMerge(qs: seq<Node>, k: nat, cmp: Compare)
    requires k == 0 || qs == []
    ensures Merge([], Run(qs, k), cmp) == [] && Rest(qs, k) == qs
  {
  }

  /** Moves the next element of a merge. */
  method MergeOne(first: Node?, tail: Node?, p: Node?, left: nat, q: Node?, right: nat, cmp: Compare,
                  ghost out: seq<Node>, ghost ps: seq<Node>, ghost qs: seq<Node>, ghost nodes: set<Node>)
    returns (first': Node, tail': Node, p': Node?, left': nat, q': Node?, right': nat,
             ghost out': seq<Node>, ghost ps': seq<Node>, ghost qs': seq<Node>)
    requires Merging(first, tail, p, q, out, ps, qs) && left == |ps| && (left != 0 || (right != 0 && q != null))
    requires Within(out, nodes) && Within(ps, nodes) && Within(qs, nodes)
    modifies nodes`next, nodes`prev
    ensures Merging(first', tail', p', q', out', ps', qs') && left' == |ps'|
    ensures out' + Merge(ps', Run(qs', right'), cmp) == out + Merge(ps, Run(qs, right), cmp)
    ensures Rest(qs', right') == Rest(qs, right)
    ensures Within(out', nodes) && Within(ps', nodes) && Within(qs', nodes)
    ensures |ps'| + |qs'| < |ps| + |qs|
  {
    Parts(first, tail, p, q, out, ps, qs);
    RunFirst(qs, right);
    hide Merging, Merge, Run, Rest;
    p', left', q', right', out', ps', qs' := p, left, q, right, out, ps, qs;
    if left != 0 && (right == 0 || q == null || cmp(p, q) <= 0) {
      MergeTakesFirst(out, ps, Run(qs, right), cmp);
      WithinStep(out, ps, nodes);
      first', p' := TakeFirst(first, tail, p, q, out, ps, qs);
      tail', left', out', ps' := p, left - 1, out + [ps[0]], ps[1..];
    } else {
      MergeTakesSecond(out, ps, qs, right, cmp);
      WithinStep(out, qs, nodes);
      first', q' := TakeSecond(first, tail, p, q, out, ps, qs);
      tail', right', out', qs' := q, right - 1, out + [qs[0]], qs[1..];
    }
  }

  lemma Parts(first: Node?, tail: Node?, p: Node?, q: Node?, out: seq<Node>, ps: seq<Node>, qs: seq<Node>)
    requires Merging(first, tail, p, q, out, ps, qs)
    ensures ps != [] ==> p == ps[0]
    ensures q == null <==> qs == []
    ensures q != null ==> q == qs[0]
    ensures ps == [] ==> Merging(first, tail, null, q, out, ps, qs)
  {
  }

  /** The state between two merges: a merged part of whole runs, and the rest of the old list. */
  ghost predicate Between(first: Node?, tail: Node?, p: Node?, out: seq<Node>, rest: seq<Node>)
    reads out`next, out`prev, rest`next
  {
    Merged(first, tail, out) && ToTheEnd(p, rest) && Distinct(rest) && Apart(out, rest)
  }

  lemma SplitRest(first: Node?, tail: Node?, p: Node?, q: Node?, out: seq<Node>, rest: seq<Node>, k: nat)
    requires Between(first, tail, p, out, rest) && k <= |rest|
    requires Stretch(p, rest[..k]) && ToTheEnd(q, rest[k..])
    ensures Merging(first, tail, p, q, out, rest[..k], rest[k..])
  {
    hide Stretch, ToTheEnd, Merged;
  }

  /** A pass starts with a merge of the first two runs. */
  lemma OneMerge(out: seq<Node>, rest: seq<Node>, k: nat, cmp: Compare)
    requires k > 0 && rest != []
    ensures var a := Min(k, |rest|);
      && Rest(rest[a..], k) == rest[Min(2 * k, |rest|)..]
      && out + Merge(rest[..a], Run(rest[a..], k), cmp) + Pass(Rest(rest[a..], k), k, cmp) == out + Pass(rest, k, cmp)
  {
    var a, b := Min(k, |rest|), Min(2 * k, |rest|);
    NextRun(rest, k);
    FirstMerge(rest, k, cmp);
    hide Merge, Pass, Run, Rest;
    Associative(out, Merge(rest[..a], rest[a..b], cmp), Pass(rest[b..], k, cmp));
  }

  lemma NextRun(rest: seq<Node>, k: nat)
    ensures var a, b := Min(k, |rest|), Min(2 * k, |rest|);
      Run(rest[a..], k) == rest[a..b] && Rest(rest[a..], k) == rest[b..]
  {
  }

  lemma FirstMerge(rest: seq<Node>, k: nat, cmp: Compare)
    requires k > 0 && rest != []
    ensures var a, b := Min(k, |rest|), Min(2 * k, |rest|);
      Pass(rest, k, cmp) == Merge(rest[..a], rest[a..b], cmp) + Pass(rest[b..], k, cmp)
  {
    hide Merge;
  }

  lemma Associative(a: seq<Node>, b: seq<Node>, c: seq<Node>)
    ensures a + b + c == a + (b + c)
  {
  }

  lemma MergeWithin(out: seq<Node>, rest: seq<Node>, k: nat, cmp: Compare, nodes: set<Node>)
    requires Within(out, nodes) && Within(rest, nodes)
    ensures var a := Min(k, |rest|);
      && Within(rest[..a], nodes) && Within(rest[a..], nodes) && Within(Rest(rest[a..], k), nodes)
      && Within(out + Merge(rest[..a], Run(rest[a..], k), cmp), nodes)
  {
    var a := Min(k, |rest|);
    hide Merge;
    var m := Merge(rest[..a], Run(rest[a..], k), cmp);
    forall x | x in m
      ensures x in nodes
    {
      MergeMember(rest[..a], Run(rest[a..], k), cmp, x);
    }
  }

  /** Merges the next two runs of the list. */
  method MergeNext(first: Node?, tail: Node?, p: Node, k: nat, cmp: Compare,
                   ghost out: seq<Node>, ghost rest: seq<Node>, ghost nodes: set<Node>)
    returns (first': Node?, tail': Node?, p': Node?, ghost out': seq<Node>, ghost rest': seq<Node>)
    requires Between(first, tail, p, out, rest) && k > 0 && Within(out, nodes) && Within(rest, nodes)
    modifies nodes`next, nodes`prev
    ensures Between(first', tail', p', out', rest') && Within(out', nodes) && Within(rest', nodes)
    ensures p' == null <==> rest' == []
    ensures rest != [] && rest' == rest[Min(2 * k, |rest|)..]
    ensures out' + Pass(rest', k, cmp) == out + Pass(rest, k, cmp)
  {
    hide Between, Merging, Merge, Pass, Run, Rest, Stretch, ToTheEnd, Within;
    BetweenParts(first, tail, p, out, rest);
    var q, psize := Skip(p, k, rest);
    OneMerge(out, rest, k, cmp);
    MergeWithin(out, rest, k, cmp, nodes);
    SplitRest(first, tail, p, q, out, rest, psize);
    out', rest' := out + Merge(rest[..psize], Run(rest[psize..], k), cmp), Rest(rest[psize..], k);
    first', tail', p' := MergeRuns(first, tail, p, psize, q, k, cmp, out, rest[..psize], rest[psize..], nodes);
    AfterMerge(first', tail', p', out', rest');
  }

  lemma BetweenParts(first: Node?, tail: Node?, p: Node, out: seq<Node>, rest: seq<Node>)
    requires Between(first, tail, p, out, rest)
    ensures rest != [] && ToTheEnd(p, rest)
  {
  }

  lemma AfterMerge(first: Node?, tail: Node?, p: Node?, out: seq<Node>, rest: seq<Node>)
    requires Merging(first, tail, null, p, out, [], rest)
    ensures Between(first, tail, p, out, rest) && (p == null <==> rest == [])
  {
  }

  /** How many merges lie behind when so many of n elements are left. */
  ghost predicate Counted(nmerges: nat, k: nat, n: nat, left: nat) {
    if nmerges == 0 then left == n else if nmerges == 1 then left == n - Min(2 * k, n) else n > 2 * k
  }

  lemma CountOne(nmerges: nat, k: nat, n: nat, left: nat)
    requires k > 0 && 0 < left <= n && Counted(nmerges, k, n, left)
    ensures Counted(nmerges + 1, k, n, left - Min(2 * k, left))
    ensures left - Min(2 * k, left) < left
  {
  }

  lemma CountAll(nmerges: nat, k: nat, n: nat)
    requires Counted(nmerges, k, n, 0) && n > 0
    ensures nmerges <= 1 <==> n <= 2 * k
  {
  }

  /** Merges the runs of the list two by two; the merged list is still open at its tail. */
  method MergeAll(head: Node, k: nat, cmp: Compare, ghost list: seq<Node>, ghost nodes: set<Node>)
    returns (first: Node?, tail: Node?, nmerges: nat, ghost out: seq<Node>)
    requires ToTheEnd(head, list) && Distinct(list) && Within(list, nodes) && k > 0
    modifies nodes`next, nodes`prev
    ensures Between(first, tail, null, out, []) && Within(out, nodes)
    ensures out + Pass([], k, cmp) == Pass(list, k, cmp) && Counted(nmerges, k, |list|, 0)
  {
    hide Pass, Between, Merged, Within, Distinct, ToTheEnd, Stretch, AppList, Apart, Counted;
    Start(head, list, k, cmp, nodes);
    var p: Node? := head;
    first, tail := null, null;
    ghost var rest := list;
    out := [];
    nmerges := 0;
    while p != null
      invariant Between(first, tail, p, out, rest) && Within(out, nodes) && Within(rest, nodes)
      invariant out + Pass(rest, k, cmp) == Pass(list, k, cmp)
      invariant |rest| <= |list| && Counted(nmerges, k, |list|, |rest|)
      invariant p == null <==> rest == []
      decreases |rest|
    {
      CountOne(nmerges, k, |list|, |rest|);
      nmerges := nmerges + 1;
      first, tail, p, out, rest := MergeNext(first, tail, p, k, cmp, out, rest, nodes);
    }
  }

  /** One pass over the list. Its tail is closed at the end. */
  method SortPass(head: Node, k: nat, cmp: Compare, ghost list: seq<Node>, ghost nodes: set<Node>)
    returns (first: Node, tail: Node, nmerges: nat)
    requires ToTheEnd(head, list) && Distinct(list) && Within(list, nodes) && k > 0
    modifies nodes`next, nodes`prev
    ensures AppList(first, tail, Pass(list, k, cmp)) && Distinct(Pass(list, k, cmp))
    ensures nmerges <= 1 <==> |list| <= 2 * k
  {
    hide Pass, Between, Merged, Within, Distinct, ToTheEnd, Stretch, AppList, Apart, Counted;
    Start(head, list, k, cmp, nodes);
    var first', tail', n, out := MergeAll(head, k, cmp, list, nodes);
    nmerges := n;
    CountAll(nmerges, k, |list|);
    AllMerged(list, k, cmp, out);
    tail, first := Close(first', tail', out, nodes);
  }

  lemma AllMerged(list: seq<Node>, k: nat, cmp: Compare, out: seq<Node>)
    requires k > 0 && list != [] && out + Pass([], k, cmp) == Pass(list, k, cmp)
    ensures out == Pass(list, k, cmp) && out != []
  {
    assert out + [] == out;
  }

  lemma Start(p: Node, list: seq<Node>, k: nat, cmp: Compare, nodes: set<Node>)
    requires ToTheEnd(p, list) && Distinct(list) && Within(list, nodes) && k > 0
    ensures list != [] && Between(null, null, p, [], list) && Within([], nodes)
    ensures [] + Pass(list, k, cmp) == Pass(list, k, cmp) && Counted(0, k, |list|, |list|)
  {
  }

  /** Closes the merged list at its tail. */
  method Close(first: Node?, tail: Node?, ghost out: seq<Node>, ghost nodes: set<Node>)
    returns (tail': Node, first': Node)
    requires Between(first, tail, null, out, []) && out != [] && Within(out, nodes)
    modifies nodes`next
    ensures AppList(first', tail', out) && Distinct(out)
  {
    tail', first' := tail, first;
    tail'.next := null;
  }

  lemma ForwardOnly(head: Node?, tail: Node?, list: seq<Node>)
    requires AppList(head, tail, list)
    ensures head != null && ToTheEnd(head, list)
  {
  }

  lemma SameElements(a: seq<Node>, b: seq<Node>)
    requires multiset(a) == multiset(b)
    ensures Elements(a) == Elements(b)
  {
    forall x
      ensures x in a <==> x in b
    {
      assert x in a <==> x in multiset(a);
      assert x in b <==> x in multiset(b);
    }
  }

  /** After a pass over all of the list in one merge the sort is done; otherwise it goes on with
      runs of twice the length. */
  lemma SortStep(list: seq<Node>, k: nat, cmp: Compare, nodes: set<Node>)
    requires k > 0 && Within(list, nodes)
    ensures |Pass(list, k, cmp)| == |list| && Within(Pass(list, k, cmp), nodes)
    ensures SortFrom(list, k, cmp) ==
            if |list| <= 2 * k then Pass(list, k, cmp) else SortFrom(Pass(list, k, cmp), 2 * k, cmp)
  {
    SameElements(list, Pass(list, k, cmp));
    assert forall x <- Pass(list, k, cmp) :: x in Elements(list);
  }

  /** While there is more than one run left, doubling the run length does not wrap. */
  lemma NoWrap(k: nat, n: nat)
    requires n <= WORD
    ensures 2 * k < n ==> k * 2 % WORD == 2 * k
  {
  }

  /** Sorts a list of up to 2^32 elements, which is as many as the 32-bit run length allows. */
  method SortList(head: Node, oldTail: Node?, cmp: Compare, ghost items: seq<Node>, ghost nodes: set<Node>)
    returns (head': Node, tail: Node)
    requires AppList(head, oldTail, items) && Distinct(items) && |items| <= WORD && Within(items, nodes)
    modifies nodes`next, nodes`prev
    ensures AppList(head', tail, SortFrom(items, 1, cmp)) && Distinct(SortFrom(items, 1, cmp))
  {
    ForwardOnly(head, oldTail, items);
    hide AppList, ToTheEnd, Distinct, Pass, SortFrom, Within;
    ghost var now := items;
    var insize: uint32, looping, list := 1, true, head;
    head', tail := head, head;
    while looping
      invariant looping ==> 0 < insize && (insize == 1 || insize < |items|)
      invariant |now| == |items| && Within(now, nodes) && Distinct(now)
      invariant looping ==> SortFrom(now, insize, cmp) == SortFrom(items, 1, cmp) && ToTheEnd(list, now)
      invariant !looping ==> now == SortFrom(items, 1, cmp) && AppList(head', tail, now)
      decreases looping, |items| - insize
    {
      SortStep(now, insize, cmp, nodes);
      NoWrap(insize, |items|);
      var first, last, nmerges := SortPass(list, insize, cmp, now, nodes);
      ForwardOnly(first, last, Pass(now, insize, cmp));
      now := Pass(now, insize, cmp);
      list := first;
      if nmerges <= 1 {
        looping := false;
        head', tail := first, last;
      }
      insize := insize * 2 % WORD;
    }
  }

  lemma KeysStayUnique(a: seq<Node>, b: seq<Node>)
    requires UniqueKeys(a) && Distinct(b) && Elements(a) == Elements(b)
    ensures UniqueKeys(b)
  {
    forall i, j | 0 <= i < j < |b|
      ensures b[i].key != b[j].key
    {
      assert b[i] in Elements(a) && b[j] in Elements(a);
    }
  }

  /** What a rearrangement of the elements leaves as it is. */
  lemma Rearranged(a: seq<Node>, cmp: Compare)
    requires UniqueKeys(a) && Distinct(SortFrom(a, 1, cmp))
    ensures var b := SortFrom(a, 1, cmp);
      |b| == |a| && UniqueKeys(b) && Elements(b) == Elements(a) && MapOf(b) == MapOf(a)
      && (IsOrder(cmp, Elements(a)) ==> StableSorted(b, a, cmp))
  {
    var b := SortFrom(a, 1, cmp);
    SameElements(a, b);
    KeysStayUnique(a, b);
    DistinctItems(a);
    hide UniqueKeys, Distinct, MapOf, SortFrom;
    assert forall x :: x in a <==> x in Elements(a);
    assert forall x :: x in b <==> x in Elements(b);
    SameMap(a, b);
    if IsOrder(cmp, Elements(a)) {
      SortIsStable(a, cmp, Elements(a));
    }
  }

  lemma KeyedParts(h: Hash, was: seq<Node>, cmp: Compare)
    requires was == h.items && h.Keyed()
    ensures Distinct(was)
    ensures Distinct(SortFrom(was, 1, cmp)) ==> var now := SortFrom(was, 1, cmp);
      && |now| == |was| && UniqueKeys(now) && Elements(now) == Elements(was) && MapOf(now) == MapOf(was)
      && (IsOrder(cmp, Elements(was)) ==> StableSorted(now, was, cmp))
      && forall x <- now :: x.hashv == h.hash(x.key)
  {
    DistinctItems(was);
    if Distinct(SortFrom(was, 1, cmp)) {
      Rearranged(was, cmp);
      hide SortFrom, UniqueKeys, Distinct;
      forall x | x in SortFrom(was, 1, cmp)
        ensures x.hashv == h.hash(x.key)
      {
        assert x in Elements(was);
      }
    }
  }

  lemma KeyedAgain(h: Hash)
    requires UniqueKeys(h.items) && forall x <- h.items :: x.hashv == h.hash(x.key)
    ensures h.Keyed()
  {
  }

  /** Sorts a table in place: the list becomes the stable sort of what it was, linked both ways
      from the new head to the new tail. Bucket chains, map and counts stay as they are. */
  method Sort(h: Hash, cmp: Compare)
    requires h.Valid() && |h.items| <= WORD
    modifies h`head, h`tail, h`items, h.items`next, h.items`prev
    ensures h.Valid() && h.items == SortFrom(old(h.items), 1, cmp)
    ensures h.Map() == old(h.Map())
    ensures IsOrder(cmp, Elements(old(h.items))) ==> StableSorted(h.items, old(h.items), cmp)
  {
    hide AppList, BucketsOk, UniqueKeys, Distinct, MapOf, SortFrom, IsOrder, StableSorted, Hash.Keyed, Hash.TableOk;
    if h.head != null {
      ghost var was := h.items;
      KeyedParts(h, was, cmp);
      Relink(h, cmp);
      KeyedAgain(h);
    } else {
      SortNothing(cmp);
    }
  }

  method Relink(h: Hash, cmp: Compare)
    requires h.head != null && AppList(h.head, h.tail, h.items) && Distinct(h.items) && |h.items| <= WORD
    modifies h`head, h`tail, h`items, h.items`next, h.items`prev
    ensures h.head != null && h.items == SortFrom(old(h.items), 1, cmp) && Distinct(h.items)
    ensures AppList(h.head, h.tail, h.items)
  {
    hide AppList, Distinct, SortFrom;
    ghost var was := h.items;
    h.head, h.tail := SortList(h.head, h.tail, cmp, was, Elements(was));
    h.items := SortFrom(was, 1, cmp);
  }

  lemma SortNothing(cmp: Compare)
    ensures SortFrom([], 1, cmp) == [] && StableSorted([], [], cmp)
  {
  }
}
