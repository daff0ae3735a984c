/** Bottom-up merging on sequences: what one pass of HASH_SRT does to the list it walks. */
module StableMerge {
  import opened Basics

  type Cmp<!T> = (T, T) -> int

  function Min(a: nat, b: nat): nat {
    if a < b then a else b
  }

  /** Merge two runs; on a tie the element of the first run goes first. */
  ghost function Merge<T>(p: seq<T>, q: seq<T>, cmp: Cmp<T>): (r: seq<T>)
    ensures |r| == |p| + |q|
    decreases |p| + |q|
  {
    if p == [] then q
    else if q == [] then p
    else if cmp(p[0], q[0]) <= 0 then [p[0]] + Merge(p[1..], q, cmp)
    else [q[0]] + Merge(p, q[1..], cmp)
  }

  /** Merge the runs of width w two by two. */
  ghost function Pass<T>(s: seq<T>, w: nat, cmp: Cmp<T>): (r: seq<T>)
    requires w >= 1
    ensures |r| == |s|
    decreases |s|
  {
    if s == [] then []
    else
      var m := Min(w, |s|);
      var b := Min(2 * w, |s|);
      Merge(s[..m], s[m..b], cmp) + Pass(s[b..], w, cmp)
  }

  /** How many merges a pass over n elements makes. */
  ghost function Merges(n: nat, w: nat): nat
    requires w >= 1
    decreases n
  {
    if n == 0 then 0 else 1 + Merges(n - Min(2 * w, n), w)
  }

  lemma OneMergeIsTheLast(n: nat, w: nat)
    requires w >= 1
    ensures Merges(n, w) <= 1 <==> n <= 2 * w
  {
    if n > 2 * w {
      assert Merges(n - 2 * w, w) >= 1;
    }
  }

  /** cmp is a total preorder on the elements of s. */
  ghost predicate PreorderOn<T>(cmp: Cmp<T>, s: seq<T>) {
    && (forall x, y {:trigger cmp(x, y)} :: x in s && y in s ==> cmp(x, y) <= 0 || cmp(y, x) <= 0)
    && (forall x, y, z {:trigger cmp(x, y), cmp(y, z)} ::
          x in s && y in s && z in s && cmp(x, y) <= 0 && cmp(y, z) <= 0 ==> cmp(x, z) <= 0)
  }

  ghost predicate Sorted<T>(s: seq<T>, cmp: Cmp<T>) {
    forall i, j :: 0 <= i < j < |s| ==> cmp(s[i], s[j]) <= 0
  }

  /** Every run of width w is sorted. */
  ghost predicate RunsSorted<T>(s: seq<T>, w: nat, cmp: Cmp<T>)
    requires w >= 1
    decreases |s|
  {
    s == [] || (Sorted(s[..Min(w, |s|)], cmp) && RunsSorted(s[Min(w, |s|)..], w, cmp))
  }

  ghost predicate TiesWith<T>(x: T, y: T, cmp: Cmp<T>) {
    cmp(y, x) <= 0 && cmp(x, y) <= 0
  }

  /** The elements of s that tie with x, in order. */
  ghost function Ties<T>(x: T, s: seq<T>, cmp: Cmp<T>): seq<T> {
    if s == [] then []
    else (if TiesWith(x, s[0], cmp) then [s[0]] else []) + Ties(x, s[1..], cmp)
  }

  /** t is the stable sort of s. */
  ghost predicate IsStableSortOf<T>(t: seq<T>, s: seq<T>, cmp: Cmp<T>) {
    && Sorted(t, cmp)
    && multiset(t) == multiset(s)
    && SameTies(t, s, s, cmp)
  }

  // ---- permutation

  lemma {:induction false} MergePermutes<T>(p: seq<T>, q: seq<T>, cmp: Cmp<T>)
    ensures multiset(Merge(p, q, cmp)) == multiset(p) + multiset(q)
    decreases |p| + |q|
  {
    if p != [] && q != [] {
      assert p == [p[0]] + p[1..];
      assert q == [q[0]] + q[1..];
      if cmp(p[0], q[0]) <= 0 {
        MergePermutes(p[1..], q, cmp);
      } else {
        MergePermutes(p, q[1..], cmp);
      }
    }
  }

  lemma {:induction false} PassPermutes<T>(s: seq<T>, w: nat, cmp: Cmp<T>)
    requires w >= 1
    ensures multiset(Pass(s, w, cmp)) == multiset(s)
    decreases |s|
  {
    if s != [] {
      var m, b := Min(w, |s|), Min(2 * w, |s|);
      MergePermutes(s[..m], s[m..b], cmp);
      PassPermutes(s[b..], w, cmp);
      hide Merge;
      SplitInThree(s, m, b);
    }
  }

  lemma SplitInThree<T>(s: seq<T>, m: nat, b: nat)
    requires m <= b <= |s|
    ensures s[..m] + s[m..b] == s[..b] && s[..b] + s[b..] == s
    ensures multiset(s) == multiset(s[..m]) + multiset(s[m..b]) + multiset(s[b..])
  {
    assert s[..m] + s[m..b] == s[..b];
    assert s[..b] + s[b..] == s;
    assert multiset(s[..b] + s[b..]) == multiset(s[..b]) + multiset(s[b..]);
    assert multiset(s[..m] + s[m..b]) == multiset(s[..m]) + multiset(s[m..b]);
  }

  lemma SameElements<T>(s: seq<T>, t: seq<T>)
    requires multiset(s) == multiset(t)
    ensures |s| == |t| && forall x :: x in s <==> x in t
  {
    assert |s| == |multiset(s)| && |t| == |multiset(t)|;
    forall x
      ensures x in s <==> x in t
    {
      assert x in s <==> x in multiset(s);
      assert x in t <==> x in multiset(t);
    }
  }

  // ---- order

  lemma SortedCons<T>(x: T, s: seq<T>, cmp: Cmp<T>)
    requires Sorted(s, cmp) && forall y :: y in s ==> cmp(x, y) <= 0
    ensures Sorted([x] + s, cmp)
  {
    var t := [x] + s;
    forall i, j | 0 <= i < j < |t|
      ensures cmp(t[i], t[j]) <= 0
    {
      assert t[j] == s[j - 1];
    }
  }

  lemma SortedTail<T>(s: seq<T>, cmp: Cmp<T>)
    requires s != [] && Sorted(s, cmp)
    ensures Sorted(s[1..], cmp) && forall y :: y in s[1..] ==> cmp(s[0], y) <= 0
  {
  }

  lemma {:induction false} MergeSorted<T>(p: seq<T>, q: seq<T>, all: seq<T>, cmp: Cmp<T>)
    requires PreorderOn(cmp, all) && forall e :: e in p || e in q ==> e in all
    requires Sorted(p, cmp) && Sorted(q, cmp)
    ensures Sorted(Merge(p, q, cmp), cmp)
    decreases |p| + |q|
  {
    if p != [] && q != [] {
      SortedTail(p, cmp);
      SortedTail(q, cmp);
      if cmp(p[0], q[0]) <= 0 {
        MergeSorted(p[1..], q, all, cmp);
        HeadBelowMerge(p[0], p[1..], q, all, cmp);
      } else {
        MergeSorted(p, q[1..], all, cmp);
        HeadBelowMerge(q[0], p, q[1..], all, cmp);
      }
    }
  }

  lemma HeadBelowMerge<T>(x: T, p: seq<T>, q: seq<T>, all: seq<T>, cmp: Cmp<T>)
    requires Sorted(p, cmp) && Sorted(q, cmp) && PreorderOn(cmp, all)
    requires x in all && forall e :: e in p || e in q ==> e in all
    requires p != [] ==> cmp(x, p[0]) <= 0
    requires q != [] ==> cmp(x, q[0]) <= 0
    requires Sorted(Merge(p, q, cmp), cmp)
    ensures Sorted([x] + Merge(p, q, cmp), cmp)
  {
    MergePermutes(p, q, cmp);
    forall y | y in Merge(p, q, cmp)
      ensures cmp(x, y) <= 0
    {
      assert y in multiset(Merge(p, q, cmp));
      assert y in p || y in q;
      BelowAll(x, p, all, cmp);
      BelowAll(x, q, all, cmp);
    }
    SortedCons(x, Merge(p, q, cmp), cmp);
  }

  lemma BelowAll<T>(x: T, s: seq<T>, all: seq<T>, cmp: Cmp<T>)
    requires Sorted(s, cmp) && PreorderOn(cmp, all) && x in all && forall y :: y in s ==> y in all
    requires s != [] ==> x == s[0] || cmp(x, s[0]) <= 0
    ensures forall y :: y in s ==> cmp(x, y) <= 0
  {
    forall y | y in s
      ensures cmp(x, y) <= 0
    {
      var i :| 0 <= i < |s| && s[i] == y;
      if i > 0 {
        assert cmp(s[0], s[i]) <= 0;
        assert s[0] in s && s[0] in all;
      }
    }
  }

  /** A pass over sorted runs of width w leaves sorted runs of twice that width. */
  lemma {:induction false} PassSortsRuns<T>(s: seq<T>, w: nat, all: seq<T>, cmp: Cmp<T>)
    requires w >= 1 && PreorderOn(cmp, all) && (forall e :: e in s ==> e in all) && RunsSorted(s, w, cmp)
    ensures RunsSorted(Pass(s, w, cmp), 2 * w, cmp)
    decreases |s|
  {
    if s != [] {
      var m, b := Min(w, |s|), Min(2 * w, |s|);
      SecondRun(s, w, cmp);
      MergeSorted(s[..m], s[m..b], all, cmp);
      PassSortsRuns(s[b..], w, all, cmp);
      var r := Pass(s, w, cmp);
      assert r[..b] == Merge(s[..m], s[m..b], cmp);
      assert r[b..] == Pass(s[b..], w, cmp);
    }
  }

  lemma SecondRun<T>(s: seq<T>, w: nat, cmp: Cmp<T>)
    requires w >= 1 && s != [] && RunsSorted(s, w, cmp)
    ensures Sorted(s[Min(w, |s|)..Min(2 * w, |s|)], cmp)
    ensures RunsSorted(s[Min(2 * w, |s|)..], w, cmp)
  {
    hide Sorted;
    var m, b := Min(w, |s|), Min(2 * w, |s|);
    if m < |s| {
      RestOfSlice(s, m, b);
      assert Min(w, |s[m..]|) == b - m;
    } else {
      SortedNothing<T>(cmp);
      assert s[m..b] == [] && s[b..] == [];
    }
  }

  lemma RestOfSlice<T>(s: seq<T>, m: nat, b: nat)
    requires m <= b <= |s|
    ensures s[m..][..b - m] == s[m..b] && s[m..][b - m..] == s[b..]
  {
    SliceOfSlice(s, m, |s|, 0, b - m);
    SliceOfSlice(s, m, |s|, b - m, |s| - m);
  }

  lemma SortedNothing<T>(cmp: Cmp<T>)
    ensures Sorted([], cmp)
  {
  }

  lemma SingletonRuns<T>(s: seq<T>, cmp: Cmp<T>)
    ensures RunsSorted(s, 1, cmp)
    decreases |s|
  {
    if s != [] {
      SingletonRuns(s[1..], cmp);
    }
  }

  lemma OneRun<T>(s: seq<T>, w: nat, cmp: Cmp<T>)
    requires w >= 1 && |s| <= w && RunsSorted(s, w, cmp)
    ensures Sorted(s, cmp)
  {
    if s != [] {
      assert s[..|s|] == s;
    }
  }

  // ---- stability

  lemma {:induction false} TiesConcat<T>(x: T, a: seq<T>, b: seq<T>, cmp: Cmp<T>)
    ensures Ties(x, a + b, cmp) == Ties(x, a, cmp) + Ties(x, b, cmp)
  {
    if a == [] {
      assert a + b == b;
    } else {
      TiesConcat(x, a[1..], b, cmp);
      TiesOfCons(x, a[0], a[1..] + b, a + b, cmp);
      Rejoin(TieOf(x, a[0], cmp), Ties(x, a[1..], cmp), Ties(x, b, cmp));
    }
  }

  lemma {:induction false} NoTies<T>(x: T, s: seq<T>, cmp: Cmp<T>)
    requires forall y :: y in s ==> !TiesWith(x, y, cmp)
    ensures Ties(x, s, cmp) == []
  {
    if s != [] {
      NoTies(x, s[1..], cmp);
    }
  }

  ghost function TieOf<T>(x: T, y: T, cmp: Cmp<T>): seq<T> {
    if TiesWith(x, y, cmp) then [y] else []
  }

  lemma TiesOfCons<T>(x: T, y: T, s: seq<T>, whole: seq<T>, cmp: Cmp<T>)
    requires whole == [y] + s
    ensures Ties(x, whole, cmp) == TieOf(x, y, cmp) + Ties(x, s, cmp)
  {
    assert whole[1..] == s;
  }

  /** If the head of q strictly precedes p and ties with x, nothing in p ties with x. */
  lemma OvertakenRunHasNoTies<T>(x: T, p: seq<T>, y: T, all: seq<T>, cmp: Cmp<T>)
    requires p != [] && Sorted(p, cmp) && PreorderOn(cmp, all)
    requires x in all && y in all && forall e :: e in p ==> e in all
    requires cmp(p[0], y) > 0 && TiesWith(x, y, cmp)
    ensures Ties(x, p, cmp) == []
  {
    forall e | e in p
      ensures !TiesWith(x, e, cmp)
    {
      BelowAll(p[0], p, all, cmp);
      assert cmp(p[0], e) <= 0;
    }
    NoTies(x, p, cmp);
  }

  lemma TiesWhenFirstGoes<T>(x: T, p: seq<T>, q: seq<T>, cmp: Cmp<T>)
    requires p != [] && q != [] && cmp(p[0], q[0]) <= 0
    requires Ties(x, Merge(p[1..], q, cmp), cmp) == Ties(x, p[1..], cmp) + Ties(x, q, cmp)
    ensures Ties(x, Merge(p, q, cmp), cmp) == Ties(x, p, cmp) + Ties(x, q, cmp)
  {
    var t, rest := TieOf(x, p[0], cmp), Merge(p[1..], q, cmp);
    TiesOfCons(x, p[0], rest, Merge(p, q, cmp), cmp);
    Rejoin(t, Ties(x, p[1..], cmp), Ties(x, q, cmp));
  }

  lemma TiesWhenSecondGoes<T>(x: T, p: seq<T>, q: seq<T>, cmp: Cmp<T>)
    requires p != [] && q != [] && cmp(p[0], q[0]) > 0
    requires TiesWith(x, q[0], cmp) ==> Ties(x, p, cmp) == []
    requires Ties(x, Merge(p, q[1..], cmp), cmp) == Ties(x, p, cmp) + Ties(x, q[1..], cmp)
    ensures Ties(x, Merge(p, q, cmp), cmp) == Ties(x, p, cmp) + Ties(x, q, cmp)
  {
    var t, rest := TieOf(x, q[0], cmp), Merge(p, q[1..], cmp);
    TiesOfCons(x, q[0], rest, Merge(p, q, cmp), cmp);
    Exchanges(t, Ties(x, p, cmp), Ties(x, q[1..], cmp));
  }

  lemma Exchanges<T>(a: seq<T>, b: seq<T>, c: seq<T>)
    requires a == [] || b == []
    ensures a + (b + c) == b + (a + c)
  {
  }

  lemma {:induction false} MergeKeepsTies<T>(x: T, p: seq<T>, q: seq<T>, all: seq<T>, cmp: Cmp<T>)
    requires PreorderOn(cmp, all) && x in all && forall e :: e in p || e in q ==> e in all
    requires Sorted(p, cmp) && Sorted(q, cmp)
    ensures Ties(x, Merge(p, q, cmp), cmp) == Ties(x, p, cmp) + Ties(x, q, cmp)
    decreases |p| + |q|
  {
    if p != [] && q != [] {
      SortedTail(p, cmp);
      SortedTail(q, cmp);
      if cmp(p[0], q[0]) <= 0 {
        MergeKeepsTies(x, p[1..], q, all, cmp);
        TiesWhenFirstGoes(x, p, q, cmp);
      } else {
        MergeKeepsTies(x, p, q[1..], all, cmp);
        if TiesWith(x, q[0], cmp) {
          OvertakenRunHasNoTies(x, p, q[0], all, cmp);
        }
        TiesWhenSecondGoes(x, p, q, cmp);
      }
    } else if p == [] {
      assert Ties(x, p, cmp) == [];
    }
  }

  lemma {:induction false} PassKeepsTies<T>(x: T, s: seq<T>, w: nat, all: seq<T>, cmp: Cmp<T>)
    requires w >= 1 && PreorderOn(cmp, all) && x in all && forall e :: e in s ==> e in all
    requires RunsSorted(s, w, cmp)
    ensures Ties(x, Pass(s, w, cmp), cmp) == Ties(x, s, cmp)
    decreases |s|
  {
    if s != [] {
      var m, b := Min(w, |s|), Min(2 * w, |s|);
      SecondRun(s, w, cmp);
      MergeKeepsTies(x, s[..m], s[m..b], all, cmp);
      PassKeepsTies(x, s[b..], w, all, cmp);
      TiesConcat(x, Merge(s[..m], s[m..b], cmp), Pass(s[b..], w, cmp), cmp);
      TiesInThree(x, s, m, b, cmp);
    }
  }

  lemma TiesInTwo<T>(x: T, s: seq<T>, p: seq<T>, q: seq<T>, cmp: Cmp<T>)
    requires s == p + q
    ensures Ties(x, s, cmp) == Ties(x, p, cmp) + Ties(x, q, cmp)
  {
    TiesConcat(x, p, q, cmp);
  }

  lemma TiesInThree<T>(x: T, s: seq<T>, m: nat, b: nat, cmp: Cmp<T>)
    requires m <= b <= |s|
    ensures Ties(x, s, cmp) == Ties(x, s[..m], cmp) + Ties(x, s[m..b], cmp) + Ties(x, s[b..], cmp)
  {
    hide Ties;
    SplitInThree(s, m, b);
    TiesInTwo(x, s, s[..b], s[b..], cmp);
    TiesInTwo(x, s[..b], s[..m], s[m..b], cmp);
  }
  // ---- the stable sort of a sequence is unique

  ghost predicate SameTies<T>(a: seq<T>, b: seq<T>, all: seq<T>, cmp: Cmp<T>) {
    forall x {:trigger Ties(x, a, cmp)} :: x in all ==> Ties(x, a, cmp) == Ties(x, b, cmp)
  }

  lemma {:induction false} SameTiesSameOrder<T>(a: seq<T>, b: seq<T>, all: seq<T>, cmp: Cmp<T>)
    requires PreorderOn(cmp, all) && Sorted(a, cmp) && Sorted(b, cmp) && multiset(a) == multiset(b)
    requires (forall e :: e in a ==> e in all) && SameTies(a, b, all, cmp)
    ensures a == b
    decreases |a|
  {
    SameElements(a, b);
    if a != [] {
      SameHead(a, b, all, cmp);
      SortedTail(a, cmp);
      SortedTail(b, cmp);
      SameTiesInTails(a, b, all, cmp);
      SameRemainder(a, b);
      SameTiesSameOrder(a[1..], b[1..], all, cmp);
      assert a == [a[0]] + a[1..] && b == [b[0]] + b[1..];
    }
  }

  lemma SameRemainder<T>(a: seq<T>, b: seq<T>)
    requires a != [] && b != [] && a[0] == b[0] && multiset(a) == multiset(b)
    ensures multiset(a[1..]) == multiset(b[1..])
  {
    assert a == [a[0]] + a[1..] && b == [b[0]] + b[1..];
    assert multiset(a[1..]) == multiset(a) - multiset{a[0]};
    assert multiset(b[1..]) == multiset(b) - multiset{b[0]};
  }

  lemma SameTiesInTails<T>(a: seq<T>, b: seq<T>, all: seq<T>, cmp: Cmp<T>)
    requires a != [] && b != [] && a[0] == b[0] && SameTies(a, b, all, cmp)
    ensures SameTies(a[1..], b[1..], all, cmp)
  {
    forall x | x in all
      ensures Ties(x, a[1..], cmp) == Ties(x, b[1..], cmp)
    {
      assert Ties(x, a, cmp) == Ties(x, b, cmp);
      SameSuffix(TieOf(x, a[0], cmp), Ties(x, a[1..], cmp), Ties(x, b[1..], cmp));
    }
  }

  lemma SameSuffix<T>(a: seq<T>, b: seq<T>, c: seq<T>)
    requires a + b == a + c
    ensures b == c
  {
    assert b == (a + b)[|a|..];
    assert c == (a + c)[|a|..];
  }

  lemma SameHead<T>(a: seq<T>, b: seq<T>, all: seq<T>, cmp: Cmp<T>)
    requires a != [] && b != [] && PreorderOn(cmp, all) && Sorted(a, cmp) && Sorted(b, cmp)
    requires (forall e :: e in a <==> e in b) && forall e :: e in a ==> e in all
    requires SameTies(a, b, all, cmp)
    ensures a[0] == b[0]
  {
    var x, y := a[0], b[0];
    assert x in a && y in b;
    BelowAll(x, a, all, cmp);
    BelowAll(y, b, all, cmp);
    HeadTies(x, a, cmp);
    HeadTies(x, b, cmp);
    assert Ties(x, a, cmp) == Ties(x, b, cmp);
  }

  lemma HeadTies<T>(x: T, s: seq<T>, cmp: Cmp<T>)
    requires s != [] && TiesWith(x, s[0], cmp)
    ensures Ties(x, s, cmp) != [] && Ties(x, s, cmp)[0] == s[0]
  {
  }

  /** Sortedness, permutation and stability together leave exactly one result. */
  lemma StableSortIsUnique<T>(t: seq<T>, t': seq<T>, s: seq<T>, cmp: Cmp<T>)
    requires PreorderOn(cmp, s) && IsStableSortOf(t, s, cmp) && IsStableSortOf(t', s, cmp)
    ensures t == t'
  {
    SameElements(t, s);
    SameTiesSameOrder(t, t', s, cmp);
  }
}
