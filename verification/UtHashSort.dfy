/** HASH_SRT of uthash.h: a bottom-up merge sort that relinks the application-order list in place. */
module UtHashSort {
  import opened Basics
  import opened UtHashLinks
  import opened StableMerge

  /** The output list so far: linked in both directions, except that its last `next` is stale. */
  ghost predicate OutLinked(list: Handle?, tail: Handle?, out: seq<Handle>)
    reads out`prev, out`next
  {
    && list == At(out, 0)
    && tail == At(out, |out| - 1)
    && (forall i {:trigger out[i].prev} :: 0 <= i < |out| ==> out[i].prev == At(out, i - 1))
    && (forall i {:trigger out[i].next} :: 0 <= i < |out| - 1 ==> out[i].next == out[i + 1])
  }

  /** The list being consumed: elements lo..hi of l still have their `next`, and are not in the output. */
  ghost predicate Pending(l: seq<Handle>, lo: nat, hi: nat, out: seq<Handle>)
    reads l`next
  {
    && lo <= hi <= |l|
    && (forall k {:trigger l[k].next} :: lo <= k < hi ==> l[k].next == At(l, k + 1))
    && (forall k {:trigger l[k]} :: lo <= k < hi ==> l[k] !in out)
  }

  /** The counting loop: how many of the next `insize` items there are, and what follows them. */
  method CountRun(p: Handle, insize: nat, ghost l: seq<Handle>, ghost a: nat, ghost out: seq<Handle>)
    returns (psize: nat, q: Handle?)
    requires a < |l| && p == l[a] && Pending(l, a, |l|, out) && insize >= 1
    ensures psize == Min(insize, |l| - a) && q == At(l, a + psize)
  {
    q, psize := p, 0;
    for i := 0 to insize
      invariant psize == i && a + i < |l| && q == l[a + i]
    {
      psize := psize + 1;
      q := q.next;
      if q == null {
        break;
      }
    }
  }

  /** The output is a list without repetition of items of l. */
  ghost predicate OutOk(list: Handle?, tail: Handle?, out: seq<Handle>, l: seq<Handle>)
    reads out`prev, out`next
  {
    OutLinked(list, tail, out) && Distinct(out) && SetOf(out) <= SetOf(l)
  }

  /** Append one consumed item to the output. */
  method LinkOut(list: Handle?, tail: Handle?, e: Handle, ghost out: seq<Handle>, ghost l: seq<Handle>)
    returns (list': Handle)
    requires OutOk(list, tail, out, l) && e in l && e !in out
    modifies e`prev, SetOf(out)`next
    ensures OutOk(list', e, out + [e], l)
  {
    if tail != null {
      tail.next := e;
      list' := list;
    } else {
      list' := e;
    }
    e.prev := tail;
  }

  /** Where a merge of two runs stands: the first run is l[pi..m], the second l[qi..qe]. */
  ghost predicate Merging(l: seq<Handle>, pi: nat, m: nat, qi: nat, qe: nat, out: seq<Handle>)
    reads l`next
  {
    pi <= m <= qi <= qe && Distinct(l) && Pending(l, pi, m, out) && Pending(l, qi, |l|, out) && qe <= |l|
  }

  /** The merge of what is left of two runs, l[pi..m] and l[qi..qe]. */
  ghost function MergeFrom(l: seq<Handle>, pi: nat, m: nat, qi: nat, qe: nat, cmp: Cmp<Handle>): seq<Handle>
    requires pi <= m <= qi <= qe <= |l|
    decreases (m - pi) + (qe - qi)
  {
    if pi == m && qi == qe then []
    else if pi == m || (qi < qe && cmp(l[pi], l[qi]) > 0) then [l[qi]] + MergeFrom(l, pi, m, qi + 1, qe, cmp)
    else [l[pi]] + MergeFrom(l, pi + 1, m, qi, qe, cmp)
  }

  lemma MergeFromEnds(l: seq<Handle>, m: nat, qe: nat, cmp: Cmp<Handle>)
    requires m <= qe <= |l|
    ensures MergeFrom(l, m, m, qe, qe, cmp) == []
  {
  }

  lemma {:induction false} MergeFromIsMerge(l: seq<Handle>, pi: nat, m: nat, qi: nat, qe: nat, cmp: Cmp<Handle>)
    requires pi <= m <= qi <= qe <= |l|
    ensures MergeFrom(l, pi, m, qi, qe, cmp) == Merge(l[pi..m], l[qi..qe], cmp)
    decreases (m - pi) + (qe - qi)
  {
    var p, q := l[pi..m], l[qi..qe];
    if pi == m && qi < qe {
      MergeFromIsMerge(l, pi, m, qi + 1, qe, cmp);
      assert q == [l[qi]] + l[qi + 1..qe];
    } else if pi < m && qi == qe {
      MergeFromIsMerge(l, pi + 1, m, qi, qe, cmp);
      assert p == [l[pi]] + l[pi + 1..m];
    } else if pi < m {
      assert p[0] == l[pi] && p[1..] == l[pi + 1..m];
      assert q[0] == l[qi] && q[1..] == l[qi + 1..qe];
      if cmp(l[pi], l[qi]) <= 0 {
        MergeFromIsMerge(l, pi + 1, m, qi, qe, cmp);
      } else {
        MergeFromIsMerge(l, pi, m, qi + 1, qe, cmp);
      }
    }
  }

  lemma MergingAfterFirst(l: seq<Handle>, pi: nat, m: nat, qi: nat, qe: nat, out: seq<Handle>)
    requires pi < m && Merging(l, pi, m, qi, qe, out)
    ensures Merging(l, pi + 1, m, qi, qe, out + [l[pi]])
  {
  }

  lemma MergingAfterSecond(l: seq<Handle>, pi: nat, m: nat, qi: nat, qe: nat, out: seq<Handle>)
    requires qi < qe && Merging(l, pi, m, qi, qe, out)
    ensures Merging(l, pi, m, qi + 1, qe, out + [l[qi]])
  {
  }

  /** Choose the next item of a merge and step past it; ties go to the first run. */
  method TakeNext(p: Handle?, psize: nat, q: Handle?, qsize: nat, cmp: Cmp<Handle>,
                  ghost l: seq<Handle>, ghost pi: nat, ghost m: nat, ghost qi: nat, ghost qe: nat,
                  ghost out: seq<Handle>)
    returns (e: Handle, p': Handle?, psize': nat, q': Handle?, qsize': nat, ghost pi': nat, ghost qi': nat)
    requires Merging(l, pi, m, qi, qe, out)
    requires psize == m - pi && (psize > 0 ==> p == l[pi])
    requires q == At(l, qi) && (qsize == 0 || q == null <==> qi == qe)
    requires psize != 0 || (qsize != 0 && q != null)
    ensures e in l && e !in out && pi <= pi' <= m && qi <= qi' <= qe
    ensures psize' == m - pi' && (psize' > 0 ==> p' == l[pi'])
    ensures q' == At(l, qi') && qsize' == qsize - (qi' - qi) && (pi' - pi) + (qi' - qi) == 1
    ensures Merging(l, pi', m, qi', qe, out + [e])
    ensures MergeFrom(l, pi, m, qi, qe, cmp) == [e] + MergeFrom(l, pi', m, qi', qe, cmp)
  {
    p', psize', q', qsize', pi', qi' := p, psize, q, qsize, pi, qi;
    if psize == 0 {
      e := q;
      q' := q.next;
      qsize', qi' := qsize - 1, qi + 1;
      MergingAfterSecond(l, pi, m, qi, qe, out);
    } else if qsize == 0 || q == null {
      e := p;
      p' := p.next;
      psize', pi' := psize - 1, pi + 1;
      MergingAfterFirst(l, pi, m, qi, qe, out);
    } else if cmp(p, q) <= 0 {
      e := p;
      p' := p.next;
      psize', pi' := psize - 1, pi + 1;
      MergingAfterFirst(l, pi, m, qi, qe, out);
    } else {
      e := q;
      q' := q.next;
      qsize', qi' := qsize - 1, qi + 1;
      MergingAfterSecond(l, pi, m, qi, qe, out);
    }
  }

  /** One round of the merging loop. */
  method MergeStep(list: Handle?, tail: Handle?, p: Handle?, psize: nat, q: Handle?, qsize: nat, cmp: Cmp<Handle>,
                   ghost l: seq<Handle>, ghost pi: nat, ghost m: nat, ghost qi: nat, ghost qe: nat,
                   ghost out: seq<Handle>)
    returns (list': Handle, tail': Handle, p': Handle?, psize': nat, q': Handle?, qsize': nat,
             ghost pi': nat, ghost qi': nat, ghost out': seq<Handle>)
    requires Merging(l, pi, m, qi, qe, out) && OutOk(list, tail, out, l)
    requires psize == m - pi && (psize > 0 ==> p == l[pi])
    requires q == At(l, qi) && (qsize == 0 || q == null <==> qi == qe)
    requires psize != 0 || (qsize != 0 && q != null)
    modifies SetOf(l)`prev, SetOf(l)`next
    ensures Merging(l, pi', m, qi', qe, out') && OutOk(list', tail', out', l)
    ensures pi <= pi' <= m && qi <= qi' <= qe && (pi' - pi) + (qi' - qi) == 1
    ensures psize' == m - pi' && (psize' > 0 ==> p' == l[pi'])
    ensures q' == At(l, qi') && qsize' == qsize - (qi' - qi)
    ensures out + MergeFrom(l, pi, m, qi, qe, cmp) == out' + MergeFrom(l, pi', m, qi', qe, cmp)
  {
    tail', p', psize', q', qsize', pi', qi' := TakeNext(p, psize, q, qsize, cmp, l, pi, m, qi, qe, out);
    list' := LinkOut(list, tail, tail', out, l);
    out' := out + [tail'];
    Rejoin(out, [tail'], MergeFrom(l, pi', m, qi', qe, cmp));
  }

  ghost function RunEnd(l: seq<Handle>, a: nat, w: nat): nat {
    Min(a + w, |l|)
  }

  /** The two runs of width w at position a, merged. */
  ghost function MergeRunsAt(l: seq<Handle>, a: nat, w: nat, cmp: Cmp<Handle>): seq<Handle>
    requires a <= |l|
  {
    MergeFrom(l, a, RunEnd(l, a, w), RunEnd(l, a, w), RunEnd(l, a, 2 * w), cmp)
  }

  /** One merge of a pass: the runs that start at l[a] and at l[m] go, merged, to the output. */
  method MergeRuns(p0: Handle, insize: nat, list0: Handle?, tail0: Handle?, cmp: Cmp<Handle>,
                   ghost l: seq<Handle>, ghost a: nat, ghost out0: seq<Handle>)
    returns (q: Handle?, list: Handle?, tail: Handle?, ghost out: seq<Handle>)
    requires insize >= 1 && a < |l| && p0 == l[a] && Distinct(l) && Pending(l, a, |l|, out0)
    requires OutOk(list0, tail0, out0, l)
    modifies SetOf(l)`prev, SetOf(l)`next
    ensures q == At(l, RunEnd(l, a, 2 * insize)) && Pending(l, RunEnd(l, a, 2 * insize), |l|, out)
    ensures out == out0 + MergeRunsAt(l, a, insize, cmp)
    ensures OutOk(list, tail, out, l)
  {
    hide MergeFrom, OutOk;
    list, tail, out := list0, tail0, out0;
    var p: Handle? := p0;
    var psize, qsize := 0, insize;
    psize, q := CountRun(p0, insize, l, a, out);
    ghost var pi, m := a, a + psize;
    ghost var qi: nat, qe: nat := m, RunEnd(l, a, 2 * insize);
    ghost var goal := out + MergeFrom(l, pi, m, qi, qe, cmp);
    MergeFromEnds(l, m, qe, cmp);
    while psize != 0 || (qsize != 0 && q != null)
      invariant Merging(l, pi, m, qi, qe, out)
      invariant psize == m - pi && (psize > 0 ==> p == l[pi])
      invariant q == At(l, qi) && qsize == insize - (qi - m)
      invariant out + MergeFrom(l, pi, m, qi, qe, cmp) == goal
      invariant OutOk(list, tail, out, l)
      decreases (m - pi) + (qe - qi)
    {
      list, tail, p, psize, q, qsize, pi, qi, out :=
        MergeStep(list, tail, p, psize, q, qsize, cmp, l, pi, m, qi, qe, out);
    }
    assert pi == m && qi == qe;
  }

  /** The end of a pass: the last item's stale `next` is cleared. */
  method CloseList(list: Handle, tail: Handle, ghost out: seq<Handle>, ghost l: seq<Handle>)
    requires OutOk(list, tail, out, l)
    modifies tail`next
    ensures AppLinked(out) && Distinct(out)
  {
    tail.next := null;
  }

  /** The rest of a pass over l, from position a on. */
  ghost function PassFrom(l: seq<Handle>, a: nat, w: nat, cmp: Cmp<Handle>): seq<Handle>
    requires w >= 1 && a <= |l|
    decreases |l| - a
  {
    if a == |l| then []
    else MergeRunsAt(l, a, w, cmp) + PassFrom(l, RunEnd(l, a, 2 * w), w, cmp)
  }

  lemma PassUnfolds(s: seq<Handle>, w: nat, p: seq<Handle>, q: seq<Handle>, rest: seq<Handle>, cmp: Cmp<Handle>)
    requires w >= 1 && s != []
    requires p == s[..Min(w, |s|)] && q == s[Min(w, |s|)..Min(2 * w, |s|)] && rest == s[Min(2 * w, |s|)..]
    ensures Pass(s, w, cmp) == Merge(p, q, cmp) + Pass(rest, w, cmp)
  {
  }

  lemma RunsOfSuffix(l: seq<Handle>, a: nat, s: seq<Handle>, w: nat)
    requires a <= |l| && s == l[a..]
    ensures var m, b := RunEnd(l, a, w), RunEnd(l, a, 2 * w);
      && s[..Min(w, |s|)] == l[a..m]
      && s[Min(w, |s|)..Min(2 * w, |s|)] == l[m..b]
      && s[Min(2 * w, |s|)..] == l[b..]
  {
  }

  lemma {:induction false} PassFromIsPass(l: seq<Handle>, a: nat, s: seq<Handle>, w: nat, cmp: Cmp<Handle>)
    requires w >= 1 && a <= |l| && s == l[a..]
    ensures PassFrom(l, a, w, cmp) == Pass(s, w, cmp)
    decreases |l| - a
  {
    if a < |l| {
      var m, b := RunEnd(l, a, w), RunEnd(l, a, 2 * w);
      var p, q, rest := l[a..m], l[m..b], l[b..];
      PassFromIsPass(l, b, rest, w, cmp);
      MergeFromIsMerge(l, a, m, m, b, cmp);
      RunsOfSuffix(l, a, s, w);
      PassUnfolds(s, w, p, q, rest, cmp);
    }
  }

  /** One round of a pass: nmerges counts it, and the rest of the pass is still to come. */
  method PassRound(p: Handle, insize: nat, list: Handle?, tail: Handle?, cmp: Cmp<Handle>,
                   ghost l: seq<Handle>, ghost a: nat, ghost out: seq<Handle>)
    returns (p': Handle?, list': Handle?, tail': Handle?, ghost a': nat, ghost out': seq<Handle>)
    requires insize >= 1 && a < |l| && p == l[a] && Distinct(l) && Pending(l, a, |l|, out)
    requires OutOk(list, tail, out, l)
    modifies SetOf(l)`prev, SetOf(l)`next
    ensures a < a' <= |l| && p' == At(l, a') && Pending(l, a', |l|, out')
    ensures OutOk(list', tail', out', l)
    ensures out' + PassFrom(l, a', insize, cmp) == out + PassFrom(l, a, insize, cmp)
    ensures Merges(|l| - a, insize) == 1 + Merges(|l| - a', insize)
  {
    hide MergeFrom;
    p', list', tail', out' := MergeRuns(p, insize, list, tail, cmp, l, a, out);
    a' := RunEnd(l, a, 2 * insize);
    Rejoin(out, MergeRunsAt(l, a, insize, cmp), PassFrom(l, a', insize, cmp));
  }

  /** One pass of HASH_SRT over the whole list: runs of length `insize` are merged two by two. */
  method SortPass(list0: Handle, insize: nat, cmp: Cmp<Handle>, ghost l: seq<Handle>)
    returns (list: Handle, tail: Handle, nmerges: nat, ghost out: seq<Handle>)
    requires insize >= 1 && l != [] && list0 == l[0] && AppLinked(l) && Distinct(l)
    modifies SetOf(l)`prev, SetOf(l)`next
    ensures out == PassFrom(l, 0, insize, cmp) && nmerges == Merges(|l|, insize)
    ensures AppLinked(out) && Distinct(out) && list == At(out, 0) && tail == At(out, |out| - 1)
  {
    var p: Handle? := list0;
    var list1: Handle?, tail1: Handle? := null, null;
    nmerges, out := 0, [];
    ghost var a := 0;
    ghost var goal, total := PassFrom(l, 0, insize, cmp), Merges(|l|, insize);
    assert PassFrom(l, |l|, insize, cmp) == [] && Merges(0, insize) == 0;
    hide PassFrom, Merges;
    while p != null
      invariant a <= |l| && p == At(l, a) && Pending(l, a, |l|, out)
      invariant OutOk(list1, tail1, out, l)
      invariant out + PassFrom(l, a, insize, cmp) == goal
      invariant nmerges + Merges(|l| - a, insize) == total
      decreases |l| - a
    {
      nmerges := nmerges + 1;
      p, list1, tail1, a, out := PassRound(p, insize, list1, tail1, cmp, l, a, out);
    }
    assert out == goal;
    list, tail := list1, tail1;
    CloseList(list, tail, out, l);
  }

  /** What the passes keep: l is a rearrangement of l0 that never reorders ties, in sorted runs. */
  ghost predicate Rearranged(l: seq<Handle>, l0: seq<Handle>, w: nat, cmp: Cmp<Handle>) {
    && w >= 1 && RunsSorted(l, w, cmp)
    && multiset(l) == multiset(l0) && SameTies(l, l0, l0, cmp)
    && SetOf(l) == SetOf(l0) && |l| == |l0|
  }

  /** HASH_SRT. The run length is an unsigned 32-bit number, and so is the number of items of a table. */
  method SortList(head: Handle, cmp: Cmp<Handle>, ghost l0: seq<Handle>)
    returns (head': Handle, tail': Handle, ghost l: seq<Handle>)
    requires l0 != [] && head == l0[0] && AppLinked(l0) && Distinct(l0)
    requires |l0| < 0x1_0000_0000 && PreorderOn(cmp, l0)
    modifies SetOf(l0)`prev, SetOf(l0)`next
    ensures AppLinked(l) && Distinct(l) && head' == At(l, 0) && tail' == At(l, |l| - 1)
    ensures IsStableSortOf(l, l0, cmp) && SetOf(l) == SetOf(l0)
  {
    hide Rearranged, IsStableSortOf, PreorderOn, AppLinked, Distinct;
    var insize: nat := 1;
    var looping := true;
    head', tail', l := head, head, l0;
    StartsRearranged(l0, cmp);
    while looping
      invariant looping ==> 1 <= insize <= |l0| && Rearranged(l, l0, insize, cmp)
      invariant !looping ==> IsStableSortOf(l, l0, cmp) && SetOf(l) == SetOf(l0) && tail' == At(l, |l| - 1)
      invariant l != [] && head' == l[0] && AppLinked(l) && Distinct(l) && SetOf(l) == SetOf(l0)
      decreases looping, |l0| - insize
    {
      head', tail', looping, l := SortRound(head', insize, cmp, l, l0);
      insize := insize * 2 % 0x1_0000_0000;
    }
  }

  lemma StartsRearranged(l0: seq<Handle>, cmp: Cmp<Handle>)
    ensures Rearranged(l0, l0, 1, cmp)
  {
    SingletonRuns(l0, cmp);
  }

  /** A pass, and the test whether it was the last. */
  method SortRound(head: Handle, insize: nat, cmp: Cmp<Handle>, ghost before: seq<Handle>, ghost l0: seq<Handle>)
    returns (head': Handle, tail': Handle, looping: bool, ghost l: seq<Handle>)
    requires before != [] && head == before[0] && AppLinked(before) && Distinct(before)
    requires Rearranged(before, l0, insize, cmp) && PreorderOn(cmp, l0)
    modifies SetOf(before)`prev, SetOf(before)`next
    ensures l != [] && AppLinked(l) && Distinct(l) && head' == At(l, 0) && tail' == At(l, |l| - 1)
    ensures SetOf(l) == SetOf(l0)
    ensures looping ==> 2 * insize < |l0| && Rearranged(l, l0, 2 * insize, cmp)
    ensures !looping ==> IsStableSortOf(l, l0, cmp)
  {
    var nmerges;
    head', tail', nmerges, l := SortPass(head, insize, cmp, before);
    SortedByPass(before, l, l0, insize, cmp);
    looping := nmerges > 1;
  }

  lemma PassKeepsAllTies(before: seq<Handle>, l0: seq<Handle>, w: nat, cmp: Cmp<Handle>)
    requires w >= 1 && PreorderOn(cmp, l0) && RunsSorted(before, w, cmp) && SameTies(before, l0, l0, cmp)
    requires forall e :: e in before ==> e in l0
    ensures SameTies(Pass(before, w, cmp), l0, l0, cmp)
  {
    hide Pass, Ties, PreorderOn, RunsSorted;
    forall x | x in l0
      ensures Ties(x, Pass(before, w, cmp), cmp) == Ties(x, l0, cmp)
    {
      PassKeepsTies(x, before, w, l0, cmp);
      assert Ties(x, before, cmp) == Ties(x, l0, cmp);
    }
  }

  /** What one pass keeps and gains; a pass of a single merge leaves the list sorted. */
  lemma SortedByPass(before: seq<Handle>, l: seq<Handle>, l0: seq<Handle>, w: nat, cmp: Cmp<Handle>)
    requires Rearranged(before, l0, w, cmp) && l == PassFrom(before, 0, w, cmp) && PreorderOn(cmp, l0)
    ensures Rearranged(l, l0, 2 * w, cmp)
    ensures Merges(|before|, w) <= 1 ==> IsStableSortOf(l, l0, cmp)
    ensures Merges(|before|, w) > 1 ==> 2 * w < |l0|
  {
    hide Pass, PassFrom, PreorderOn, Ties, RunsSorted, Merges;
    PassFromIsPass(before, 0, before, w, cmp);
    PassPermutes(before, w, cmp);
    SameElements(before, l0);
    SameElements(l, l0);
    PassSortsRuns(before, w, l0, cmp);
    PassKeepsAllTies(before, l0, w, cmp);
    OneMergeIsTheLast(|before|, w);
    if |l| <= 2 * w {
      OneRun(l, 2 * w, cmp);
    }
  }
}
