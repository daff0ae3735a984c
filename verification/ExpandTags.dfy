/**
 * expand_tags() of gui.cpp: structured entries are taken out of a list by swapping in the last one, and what they
 * expand to is appended. The table of types is a parameter.
 */
module ExpandTags {
  import opened Basics

  /** What becomes of an entry: it stays, or it goes and these take its place. */
  datatype Fate<E> = Keep | Replace(expansion: seq<E>)

  // ---- what the first loop collects, for the entries before n

  function Survivors<E>(s: seq<E>, classify: E -> Fate<E>, n: nat): seq<E>
    requires n <= |s|
  {
    if n == 0 then []
    else Survivors(s, classify, n - 1) + if classify(s[n - 1]).Keep? then [s[n - 1]] else []
  }

  function Expansions<E>(s: seq<E>, classify: E -> Fate<E>, n: nat): seq<E>
    requires n <= |s|
  {
    if n == 0 then []
    else Expansions(s, classify, n - 1) + if classify(s[n - 1]).Keep? then [] else classify(s[n - 1]).expansion
  }

  function Removals<E>(s: seq<E>, classify: E -> Fate<E>, n: nat): seq<nat>
    requires n <= |s|
  {
    if n == 0 then []
    else Removals(s, classify, n - 1) + if classify(s[n - 1]).Keep? then [] else [n - 1]
  }

  /** Of one entry: what it expands to, whole, unless it stays. */
  lemma OfOne<E>(e: E, classify: E -> Fate<E>)
    ensures Expansions([e], classify, 1) == if classify(e).Keep? then [] else classify(e).expansion
    ensures Survivors([e], classify, 1) == if classify(e).Keep? then [e] else []
  {
    assert Expansions([e], classify, 0) == [] && Survivors([e], classify, 0) == [];
  }

  /** Only the first n entries count. */
  lemma {:induction false} OfPrefix<E>(s: seq<E>, t: seq<E>, classify: E -> Fate<E>, n: nat)
    requires n <= |s| && n <= |t| && s[..n] == t[..n]
    ensures Expansions(s, classify, n) == Expansions(t, classify, n)
    ensures Survivors(s, classify, n) == Survivors(t, classify, n)
  {
    if n > 0 {
      assert s[..n][..n - 1] == t[..n][..n - 1] && s[..n][n - 1] == t[..n][n - 1];
      OfPrefix(s, t, classify, n - 1);
    }
  }

  /** Of two lists, one after the other: what the first gives, then what the second gives. */
  lemma {:induction false} OfConcat<E>(s: seq<E>, t: seq<E>, classify: E -> Fate<E>, n: nat)
    requires n <= |t|
    ensures Expansions(s + t, classify, |s| + n) == Expansions(s, classify, |s|) + Expansions(t, classify, n)
    ensures Survivors(s + t, classify, |s| + n) == Survivors(s, classify, |s|) + Survivors(t, classify, n)
  {
    if n == 0 {
      OfPrefix(s + t, s, classify, |s|);
    } else {
      var e := t[n - 1];
      assert (s + t)[|s| + n - 1] == e;
      OfConcat(s, t, classify, n - 1);
      Rejoin(Expansions(s, classify, |s|), Expansions(t, classify, n - 1),
             if classify(e).Keep? then [] else classify(e).expansion);
      Rejoin(Survivors(s, classify, |s|), Survivors(t, classify, n - 1), if classify(e).Keep? then [e] else []);
    }
  }

  /** Each expansion is there, whole, behind those of the entries before, and before those of the entries after. */
  lemma ExpansionsInOrder<E>(s: seq<E>, classify: E -> Fate<E>, i: nat)
    requires i < |s|
    ensures Expansions(s, classify, |s|)
         == Expansions(s[..i], classify, i)
            + (if classify(s[i]).Keep? then [] else classify(s[i]).expansion)
            + Expansions(s[i + 1..], classify, |s| - i - 1)
  {
    hide Expansions, Survivors;
    OfConcat(s[..i], [s[i]], classify, 1);
    OfOne(s[i], classify);
    OfConcat(s[..i] + [s[i]], s[i + 1..], classify, |s| - i - 1);
    assert s[..i] + [s[i]] + s[i + 1..] == s;
  }

  /** The indices recorded are just those of the entries that do not stay. */
  lemma {:induction false} RemovalsIff<E>(s: seq<E>, classify: E -> Fate<E>, n: nat, i: nat)
    requires n <= |s|
    ensures i in Removals(s, classify, n) <==> i < n && !classify(s[i]).Keep?
  {
    if n > 0 {
      RemovalsIff(s, classify, n - 1, i);
    }
  }

  // ---- the second loop: the indices in descending order, each slot filled from the back

  predicate Descending(indices: seq<nat>, n: nat) {
    && (forall k :: 0 <= k < |indices| ==> indices[k] < n)
    && (forall j, k :: 0 <= j < k < |indices| ==> indices[k] < indices[j])
  }

  function Reversed<T>(s: seq<T>): (r: seq<T>)
    ensures |r| == |s| && forall k :: 0 <= k < |s| ==> r[k] == s[|s| - 1 - k]
  {
    if s == [] then [] else Reversed(s[1..]) + [s[0]]
  }

  /** One swap-removal. */
  function SwapRemoved<E>(t: seq<E>, i: nat): seq<E>
    requires i < |t|
  {
    t[i := t[|t| - 1]][..|t| - 1]
  }

  lemma SwapRemovedMultiset<E>(t: seq<E>, i: nat)
    requires i < |t|
    ensures multiset(SwapRemoved(t, i)) + multiset{t[i]} == multiset(t)
    ensures SwapRemoved(t, i)[..i] == t[..i]
  {
    var n := |t| - 1;
    assert t == t[..n] + [t[n]];
    if i < n {
      var u := t[..n];
      assert SwapRemoved(t, i) == u[i := t[n]];
      assert multiset(u[i := t[n]]) == multiset(u) - multiset{u[i]} + multiset{t[n]};
    } else {
      assert SwapRemoved(t, i) == t[..n];
    }
  }

  /** The entries of s at these indices. */
  ghost function At<E>(s: seq<E>, indices: seq<nat>): multiset<E>
    requires forall k :: 0 <= k < |indices| ==> indices[k] < |s|
  {
    if indices == [] then multiset{}
    else At(s, indices[..|indices| - 1]) + multiset{s[indices[|indices| - 1]]}
  }

  lemma RemovalsAscend<E>(s: seq<E>, classify: E -> Fate<E>, n: nat)
    requires n <= |s|
    ensures forall k :: 0 <= k < |Removals(s, classify, n)| ==> Removals(s, classify, n)[k] < n
    ensures forall j, k :: 0 <= j < k < |Removals(s, classify, n)| ==>
              Removals(s, classify, n)[j] < Removals(s, classify, n)[k]
  {
  }

  lemma AtSnoc<E>(s: seq<E>, indices: seq<nat>, i: nat)
    requires i < |s| && forall k :: 0 <= k < |indices| ==> indices[k] < |s|
    ensures At(s, indices + [i]) == At(s, indices) + multiset{s[i]}
  {
    assert (indices + [i])[..|indices|] == indices;
  }

  lemma NothingAt<E>(s: seq<E>)
    ensures At(s, []) == multiset{}
  {
  }

  lemma SurvivorsStep<E>(s: seq<E>, classify: E -> Fate<E>, n: nat)
    requires 0 < n <= |s|
    ensures classify(s[n - 1]).Keep? ==>
      && multiset(Survivors(s, classify, n)) == multiset(Survivors(s, classify, n - 1)) + multiset{s[n - 1]}
      && Removals(s, classify, n) == Removals(s, classify, n - 1)
    ensures !classify(s[n - 1]).Keep? ==>
      && Survivors(s, classify, n) == Survivors(s, classify, n - 1)
      && Removals(s, classify, n) == Removals(s, classify, n - 1) + [n - 1]
  {
  }

  lemma TakeStep<E>(s: seq<E>, n: nat)
    requires 0 < n <= |s|
    ensures multiset(s[..n]) == multiset(s[..n - 1]) + multiset{s[n - 1]}
  {
    assert s[..n] == s[..n - 1] + [s[n - 1]];
  }

  lemma AddEither<E>(kept: multiset<E>, gone: multiset<E>, x: multiset<E>)
    ensures (kept + x) + gone == (kept + gone) + x && kept + (gone + x) == (kept + gone) + x
  {
  }

  /** Survivors and removed entries together are all that there was. */
  lemma {:induction false} NothingElse<E>(s: seq<E>, classify: E -> Fate<E>, n: nat)
    requires n <= |s|
    requires forall k :: 0 <= k < |Removals(s, classify, n)| ==> Removals(s, classify, n)[k] < |s|
    ensures multiset(Survivors(s, classify, n)) + At(s, Removals(s, classify, n)) == multiset(s[..n])
  {
    if n == 0 {
      NothingAt(s);
    } else {
      hide At, Survivors, Removals;
      RemovalsAscend(s, classify, n - 1);
      NothingElse(s, classify, n - 1);
      var kept, before := multiset(Survivors(s, classify, n - 1)), Removals(s, classify, n - 1);
      SurvivorsStep(s, classify, n);
      TakeStep(s, n);
      AtSnoc(s, before, n - 1);
      AddEither(kept, At(s, before), multiset{s[n - 1]});
    }
  }

  lemma {:induction false} AtCons<E>(s: seq<E>, i: nat, indices: seq<nat>)
    requires i < |s| && forall k :: 0 <= k < |indices| ==> indices[k] < |s|
    ensures At(s, [i] + indices) == At(s, indices) + multiset{s[i]}
  {
    var all := [i] + indices;
    if indices == [] {
      assert all[..0] == [];
    } else {
      AtCons(s, i, indices[..|indices| - 1]);
      assert all[..|all| - 1] == [i] + indices[..|indices| - 1];
    }
  }

  /** The order of the removals does not matter for what is removed. */
  lemma {:induction false} AtReversed<E>(s: seq<E>, indices: seq<nat>)
    requires forall k :: 0 <= k < |indices| ==> indices[k] < |s|
    ensures At(s, Reversed(indices)) == At(s, indices)
  {
    if indices != [] {
      AtReversed(s, indices[1..]);
      assert indices == [indices[0]] + indices[1..];
      AtCons(s, indices[0], indices[1..]);
      var r := Reversed(indices[1..]);
      assert (r + [indices[0]])[..|r|] == r;
    }
  }

  /** The first k removals are done: below the last of them nothing has moved. */
  ghost predicate Swept<E>(was: seq<E>, t: seq<E>, indices: seq<nat>, k: nat)
    requires Descending(indices, |was|) && k <= |indices|
  {
    var lowest := if k == 0 then |was| else indices[k - 1];
    && |t| == |was| - k && lowest <= |t| && t[..lowest] == was[..lowest]
    && multiset(t) + At(was, indices[..k]) == multiset(was)
  }

  lemma SweepStep<E>(was: seq<E>, t: seq<E>, indices: seq<nat>, k: nat)
    requires Descending(indices, |was|) && k < |indices| && Swept(was, t, indices, k)
    ensures indices[k] < |t| && Swept(was, SwapRemoved(t, indices[k]), indices, k + 1)
  {
    var i := indices[k];
    var lowest := if k == 0 then |was| else indices[k - 1];
    assert t[..lowest][..i] == was[..lowest][..i] && t[..lowest][i] == was[..lowest][i];
    assert t[..i] == was[..i] && t[i] == was[i];
    SwapRemovedMultiset(t, i);
    assert indices[..k + 1][..k] == indices[..k];
    Shift(multiset(SwapRemoved(t, i)), multiset{t[i]}, multiset(t), At(was, indices[..k]), multiset(was));
  }

  lemma SweepBegins<E>(was: seq<E>, indices: seq<nat>)
    requires Descending(indices, |was|)
    ensures Swept(was, was, indices, 0)
  {
  }

  lemma SweepEnds<E>(was: seq<E>, t: seq<E>, indices: seq<nat>)
    requires Descending(indices, |was|) && Swept(was, t, indices, |indices|)
    ensures |t| == |was| - |indices| && multiset(t) + At(was, indices) == multiset(was)
  {
    assert indices[..|indices|] == indices;
  }

  lemma Shift<E>(a: multiset<E>, x: multiset<E>, b: multiset<E>, done: multiset<E>, all: multiset<E>)
    requires a + x == b && b + done == all
    ensures a + (done + x) == all
  {
  }

  lemma Cancel<E>(a: multiset<E>, b: multiset<E>, c: multiset<E>)
    requires a + c == b + c
    ensures a == b
  {
    forall e
      ensures a[e] == b[e]
    {
      assert (a + c)[e] == (b + c)[e];
    }
  }

  // ---- the code

  class TagTable<E> {
    var tagentries: seq<E>

    /** The first loop: which entries go, and what is to be added. */
    method Classify(classify: E -> Fate<E>) returns (toRemove: seq<nat>, toAdd: seq<E>)
      ensures toRemove == Removals(tagentries, classify, |tagentries|)
      ensures toAdd == Expansions(tagentries, classify, |tagentries|)
    {
      toRemove, toAdd := [], [];
      var i := 0;
      while i < |tagentries|
        invariant i <= |tagentries|
        invariant toRemove == Removals(tagentries, classify, i) && toAdd == Expansions(tagentries, classify, i)
      {
        match classify(tagentries[i]) {
          case Keep =>
          case Replace(expansion) =>
            toRemove := toRemove + [i];
            toAdd := toAdd + expansion;
        }
        i := i + 1;
      }
    }

    /** The second loop. */
    method RemoveAll(indices: seq<nat>)
      requires Descending(indices, |tagentries|)
      modifies this
      ensures multiset(tagentries) + At(old(tagentries), indices) == multiset(old(tagentries))
      ensures |tagentries| == |old(tagentries)| - |indices|
    {
      hide At, Swept;
      ghost var was := tagentries;
      SweepBegins(was, indices);
      var k := 0;
      while k < |indices|
        invariant k <= |indices| && Swept(was, tagentries, indices, k)
      {
        SweepStep(was, tagentries, indices, k);
        var i := indices[k];
        tagentries := tagentries[i := tagentries[|tagentries| - 1]];
        tagentries := tagentries[..|tagentries| - 1];
        k := k + 1;
      }
      SweepEnds(was, tagentries, indices);
    }

    /**
     * expand_tags(): no survivor is lost or overwritten, and the expansions follow in order. The order among the
     * survivors may change.
     */
    method Expand(classify: E -> Fate<E>)
      modifies this
      ensures exists kept ::
        && tagentries == kept + Expansions(old(tagentries), classify, |old(tagentries)|)
        && multiset(kept) == multiset(Survivors(old(tagentries), classify, |old(tagentries)|))
    {
      hide At, Survivors, Expansions, Removals, Reversed;
      ghost var was := tagentries;
      var toRemove, toAdd := Classify(classify);
      RemovalsAscend(was, classify, |was|);
      // indices were recorded in ascending order, so sorting them in descending order reverses them
      var descending := Reversed(toRemove);
      RemoveAll(descending);
      AtReversed(was, toRemove);
      NothingElse(was, classify, |was|);
      assert was[..|was|] == was;
      ghost var kept := tagentries;
      Cancel(multiset(kept), multiset(Survivors(was, classify, |was|)), At(was, toRemove));
      tagentries := tagentries + toAdd;
    }
  }
}
